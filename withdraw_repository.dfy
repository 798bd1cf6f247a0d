/** `WithdrawRepository.findAll`: the shared transaction listing over the withdraws table, where
    the searched id field is `withdrawId`. */
module WithdrawRepository {
  import opened Calendar
  import opened JsNumber
  import opened Query
  import opened Records
  import opened TransactionQuery

  /** A page of withdraws: matching records only, newest first, at most `limit` of them from
      position `skip` on, with `total` counting every match of the same condition. */
  function FindAll(store: Store, p: FindAllParams): (r: Page)
    requires PageNumber(p) >= 1 && PageSize(p) >= 1
    ensures r.pagination == Pagination(|Matching(store.users, store.withdraws, p)|, PageNumber(p), PageSize(p),
                                       CeilDiv(|Matching(store.users, store.withdraws, p)|, PageSize(p)))
    ensures forall i :: 0 <= i < |r.items| ==>
              r.items[i].record in store.withdraws && Matches(store.users, r.items[i].record, p.search, p.asset, p.status)
              && r.items[i].user == OwnerSummary(store.users, r.items[i].record)
    ensures forall i, j :: 0 <= i < j < |r.items| ==>
              AtOrBefore(r.items[j].record.createdAt, r.items[i].record.createdAt)
    ensures var skip := Skip(PageNumber(p), PageSize(p));
            |r.items| == if skip >= r.pagination.total then 0 else Min(PageSize(p), r.pagination.total - skip)
    ensures |r.items| == 0 || Skip(PageNumber(p), PageSize(p)) + |r.items| <= |Ordered(store.users, store.withdraws, p)|
    ensures forall i :: 0 <= i < |r.items| ==>
              r.items[i].record == Ordered(store.users, store.withdraws, p)[Skip(PageNumber(p), PageSize(p)) + i]
    ensures |r.items| <= PageSize(p) && |r.items| <= r.pagination.total
    ensures Skip(PageNumber(p), PageSize(p)) >= r.pagination.total ==> r.items == []
  {
    FindAllNewestFirst(store.users, store.withdraws, p);
    TransactionQuery.FindAll(store.users, store.withdraws, p)
  }
}
