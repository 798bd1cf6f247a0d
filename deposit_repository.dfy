/** `DepositRepository.findAll`: the shared transaction listing over the deposits table, where
    the searched id field is `depositId`. */
module DepositRepository {
  import opened Calendar
  import opened JsNumber
  import opened Query
  import opened Records
  import opened TransactionQuery

  /** A page of deposits: matching records only, newest first, at most `limit` of them from
      position `skip` on, with `total` counting every match of the same condition. */
  function FindAll(store: Store, p: FindAllParams): (r: Page)
    requires PageNumber(p) >= 1 && PageSize(p) >= 1
    ensures r.pagination == Pagination(|Matching(store.users, store.deposits, p)|, PageNumber(p), PageSize(p),
                                       CeilDiv(|Matching(store.users, store.deposits, p)|, PageSize(p)))
    ensures forall i :: 0 <= i < |r.items| ==>
              r.items[i].record in store.deposits && Matches(store.users, r.items[i].record, p.search, p.asset, p.status)
              && r.items[i].user == OwnerSummary(store.users, r.items[i].record)
    ensures forall i, j :: 0 <= i < j < |r.items| ==>
              AtOrBefore(r.items[j].record.createdAt, r.items[i].record.createdAt)
    ensures var skip := Skip(PageNumber(p), PageSize(p));
            |r.items| == if skip >= r.pagination.total then 0 else Min(PageSize(p), r.pagination.total - skip)
    ensures |r.items| == 0 || Skip(PageNumber(p), PageSize(p)) + |r.items| <= |Ordered(store.users, store.deposits, p)|
    ensures forall i :: 0 <= i < |r.items| ==>
              r.items[i].record == Ordered(store.users, store.deposits, p)[Skip(PageNumber(p), PageSize(p)) + i]
    ensures |r.items| <= PageSize(p) && |r.items| <= r.pagination.total
    ensures Skip(PageNumber(p), PageSize(p)) >= r.pagination.total ==> r.items == []
  {
    FindAllNewestFirst(store.users, store.deposits, p);
    TransactionQuery.FindAll(store.users, store.deposits, p)
  }
}
