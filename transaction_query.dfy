/**
 * The listing shared by deposits and withdrawals: the `where` condition built from the page
 * request, the `findMany` page (filtered, newest first, `skip` then `take`, each record with its
 * owner's summary) and the `count` with the same condition, and the pagination metadata.
 */
module TransactionQuery {
  import opened Wrappers
  import opened Calendar
  import opened JsNumber
  import opened Query
  import opened Records

  /** The fields a transaction condition can name: its own id, asset and status, and three
      fields of the owning account (through the `user` relation). */
  datatype Field = TxId | Asset | Status | OwnerFirstName | OwnerLastName | OwnerEmail

  /** The value of a field of `t`; an owner field is absent when the owner is not in `users`. */
  function FieldValue(users: seq<User>, t: Transaction, f: Field): Option<string> {
    match f
    case TxId => Some(t.txId)
    case Asset => Some(t.asset)
    case Status => Some(t.status)
    case OwnerFirstName => if UserWithId(users, t.userId).Some? then Some(UserWithId(users, t.userId).value.firstName) else None
    case OwnerLastName => if UserWithId(users, t.userId).Some? then Some(UserWithId(users, t.userId).value.lastName) else None
    case OwnerEmail => if UserWithId(users, t.userId).Some? then Some(UserWithId(users, t.userId).value.email) else None
  }

  function Fields(users: seq<User>, t: Transaction): Field -> Option<string> {
    f => FieldValue(users, t, f)
  }

  /** JavaScript truthiness of an optional string parameter: present and not empty. */
  predicate Truthy(s: Option<string>) {
    s.Some? && s.value != ""
  }

  /** `where.OR = [...]` when `search` is truthy; otherwise no constraint (the empty `AND`). */
  function SearchPart(search: Option<string>): Condition<Field> {
    if Truthy(search) then SearchCondition(search.value) else And([])
  }

  /** `where.<field> = value` when `value` is truthy; otherwise no constraint. */
  function EqualsPart(f: Field, value: Option<string>): Condition<Field> {
    if Truthy(value) then Equals(f, value.value) else And([])
  }

  /** The `OR` over the searched fields. */
  function SearchCondition(text: string): Condition<Field> {
    Or([Contains(TxId, text), Contains(OwnerFirstName, text), Contains(OwnerLastName, text),
        Contains(OwnerEmail, text)])
  }

  /** The `where` object: the search `OR` when `search` is truthy, `asset` and `status` equality
      when they are truthy, all combined by `AND`. */
  function Where(search: Option<string>, asset: Option<string>, status: Option<string>): Condition<Field> {
    And([SearchPart(search), EqualsPart(Asset, asset), EqualsPart(Status, status)])
  }

  /** The owner exists and the text occurs, ignoring case, in its first name, last name or email. */
  predicate OwnerMatches(owner: Option<User>, text: string) {
    && owner.Some?
    && (ContainsInsensitive(owner.value.firstName, text) || ContainsInsensitive(owner.value.lastName, text)
        || ContainsInsensitive(owner.value.email, text))
  }

  /** The selection the listing promises, stated directly on the record. */
  predicate Matches(users: seq<User>, t: Transaction, search: Option<string>, asset: Option<string>,
                    status: Option<string>) {
    && (Truthy(search) ==>
          ContainsInsensitive(t.txId, search.value) || OwnerMatches(UserWithId(users, t.userId), search.value))
    && (Truthy(asset) ==> t.asset == asset.value)
    && (Truthy(status) ==> t.status == status.value)
  }

  /** The search part holds exactly when the text, if truthy, occurs in the id or an owner field. */
  lemma SearchPartMeans(users: seq<User>, t: Transaction, search: Option<string>)
    ensures Holds(SearchPart(search), Fields(users, t)) <==>
            (Truthy(search) ==>
               ContainsInsensitive(t.txId, search.value) || OwnerMatches(UserWithId(users, t.userId), search.value))
  {
    if Truthy(search) {
      var get := Fields(users, t);
      var cs := SearchCondition(search.value).any;
      assert Holds(SearchPart(search), get) <==>
        Holds(cs[0], get) || Holds(cs[1], get) || Holds(cs[2], get) || Holds(cs[3], get);
    }
  }

  /** An equality part holds exactly when the value, if truthy, is the field's value. */
  lemma EqualsPartMeans(users: seq<User>, t: Transaction, f: Field, value: Option<string>)
    ensures Holds(EqualsPart(f, value), Fields(users, t)) <==>
            (Truthy(value) ==> FieldValue(users, t, f) == Some(value.value))
  {
  }

  /** The `where` object selects exactly the records that `Matches` describes. */
  lemma WhereMeansMatches(users: seq<User>, t: Transaction, search: Option<string>,
                          asset: Option<string>, status: Option<string>)
    ensures Holds(Where(search, asset, status), Fields(users, t)) <==> Matches(users, t, search, asset, status)
  {
    var get := Fields(users, t);
    var parts := Where(search, asset, status).all;
    assert Holds(Where(search, asset, status), get) <==>
      Holds(parts[0], get) && Holds(parts[1], get) && Holds(parts[2], get);
    SearchPartMeans(users, t, search);
    EqualsPartMeans(users, t, Asset, asset);
    EqualsPartMeans(users, t, Status, status);
  }

  /** The record-level predicate handed to the store. */
  function Selects(users: seq<User>, w: Condition<Field>): Transaction -> bool {
    t => Holds(w, Fields(users, t))
  }

  /** A page request; an absent `page` or `limit` takes its default. */
  datatype FindAllParams = FindAllParams(page: Option<int>, limit: Option<int>, search: Option<string>,
                                         asset: Option<string>, status: Option<string>)

  datatype Pagination = Pagination(total: int, page: int, limit: int, totalPages: int)

  /** A listed transaction with its owner's summary (`None` when the owner is missing). */
  datatype Item = Item(record: Transaction, user: Option<UserSummary>)

  datatype Page = Page(items: seq<Item>, pagination: Pagination)

  /** `page = 1` when absent. */
  function PageNumber(p: FindAllParams): int {
    p.page.GetOr(1)
  }

  /** `limit = 10` when absent. */
  function PageSize(p: FindAllParams): int {
    p.limit.GetOr(10)
  }

  /** `skip = (page - 1) * limit`. */
  function Skip(page: int, limit: int): (s: int)
    requires page >= 1 && limit >= 1
    ensures s >= 0
  {
    assert (page - 1) * limit >= 0;
    (page - 1) * limit
  }

  /** The summary of a transaction's owner, as `include: { user: { select } }` returns it. */
  function OwnerSummary(users: seq<User>, t: Transaction): (s: Option<UserSummary>)
    ensures s.Some? <==> UserWithId(users, t.userId).Some?
    ensures s.Some? ==> s.value.id == t.userId && s == Some(Summary(UserWithId(users, t.userId).value))
  {
    match UserWithId(users, t.userId)
    case Some(u) => Some(Summary(u))
    case None => None
  }

  /** The request's selection as a predicate on records. */
  function MatchesParams(users: seq<User>, p: FindAllParams): Transaction -> bool {
    t => Matches(users, t, p.search, p.asset, p.status)
  }

  /** The records that satisfy the request's condition, in table order. This is what
      `count({ where })` counts. */
  function Matching(users: seq<User>, table: seq<Transaction>, p: FindAllParams): (r: seq<Transaction>)
    ensures forall i :: 0 <= i < |r| ==> r[i] in table && Matches(users, r[i], p.search, p.asset, p.status)
  {
    Filter(table, MatchesParams(users, p))
  }

  /** Each record is counted as often as it is in the table when it matches, and not at all
      otherwise. */
  lemma MatchingCounts(users: seq<User>, table: seq<Transaction>, p: FindAllParams)
    ensures forall t :: multiset(Matching(users, table, p))[t] ==
                        if Matches(users, t, p.search, p.asset, p.status) then multiset(table)[t] else 0
  {
    FilterCounts(table, MatchesParams(users, p));
  }

  /** The store, handed the `where` object the request builds, selects exactly the matching
      records, in table order. */
  lemma WhereSelectsMatching(users: seq<User>, table: seq<Transaction>, p: FindAllParams)
    ensures Filter(table, Selects(users, Where(p.search, p.asset, p.status))) == Matching(users, table, p)
  {
    var w := Selects(users, Where(p.search, p.asset, p.status));
    forall t
      ensures w(t) == MatchesParams(users, p)(t)
    {
      WhereMeansMatches(users, t, p.search, p.asset, p.status);
    }
    FilterExtensional(table, w, MatchesParams(users, p));
  }

  /** The matching records, newest first (`orderBy: { createdAt: 'desc' }`). */
  function Ordered(users: seq<User>, table: seq<Transaction>, p: FindAllParams): (r: seq<Transaction>)
    ensures multiset(r) == multiset(Matching(users, table, p))
    ensures |r| == |Matching(users, table, p)|
    ensures forall i :: 0 <= i < |r| ==> r[i] in table && Matches(users, r[i], p.search, p.asset, p.status)
  {
    var m := Matching(users, table, p);
    var r := SortBy(m, TxCreatedAt, Desc);
    assert |r| == |m| by {
      assert |multiset(r)| == |multiset(m)|;
    }
    assert forall i :: 0 <= i < |r| ==> r[i] in m by {
      forall i | 0 <= i < |r|
        ensures r[i] in m
      {
        assert r[i] in multiset(r);
      }
    }
    r
  }

  lemma OrderedNewestFirst(users: seq<User>, table: seq<Transaction>, p: FindAllParams)
    ensures Sorted(Ordered(users, table, p), TxCreatedAt, Desc)
  {
  }

  function WithOwners(users: seq<User>, ts: seq<Transaction>): (r: seq<Item>)
    ensures |r| == |ts|
    ensures forall i :: 0 <= i < |ts| ==> r[i] == Item(ts[i], OwnerSummary(users, ts[i]))
  {
    seq(|ts|, i requires 0 <= i < |ts| => Item(ts[i], OwnerSummary(users, ts[i])))
  }

  /** `findMany({ where, include, orderBy, skip, take: limit })` together with
      `count({ where })` and the pagination metadata. */
  function FindAll(users: seq<User>, table: seq<Transaction>, p: FindAllParams): (r: Page)
    requires PageNumber(p) >= 1 && PageSize(p) >= 1
    ensures r.pagination == Pagination(|Matching(users, table, p)|, PageNumber(p), PageSize(p),
                                       CeilDiv(|Matching(users, table, p)|, PageSize(p)))
    ensures var skip := Skip(PageNumber(p), PageSize(p));
            |r.items| == if skip >= r.pagination.total then 0 else Min(PageSize(p), r.pagination.total - skip)
    ensures |r.items| == 0 || Skip(PageNumber(p), PageSize(p)) + |r.items| <= |Ordered(users, table, p)|
    ensures forall i :: 0 <= i < |r.items| ==>
              var t := Ordered(users, table, p)[Skip(PageNumber(p), PageSize(p)) + i];
              r.items[i] == Item(t, OwnerSummary(users, t))
  {
    var page := PageNumber(p);
    var limit := PageSize(p);
    var ordered := Ordered(users, table, p);
    var records := Slice(ordered, Skip(page, limit), limit);
    Page(WithOwners(users, records), Pagination(|ordered|, page, limit, CeilDiv(|ordered|, limit)))
  }

  /** The item at position `i` of a page. */
  lemma FindAllAt(users: seq<User>, table: seq<Transaction>, p: FindAllParams, i: int)
    requires PageNumber(p) >= 1 && PageSize(p) >= 1
    requires 0 <= i < PageSize(p)
    requires Skip(PageNumber(p), PageSize(p)) + i < |Matching(users, table, p)|
    ensures i < |FindAll(users, table, p).items|
    ensures Skip(PageNumber(p), PageSize(p)) + i < |Ordered(users, table, p)|
    ensures var t := Ordered(users, table, p)[Skip(PageNumber(p), PageSize(p)) + i];
            FindAll(users, table, p).items[i] == Item(t, OwnerSummary(users, t))
  {
  }

  /** A page holds at most `limit` items and never more than `total`; a page that starts at or
      past `total` is empty. */
  lemma FindAllBounded(users: seq<User>, table: seq<Transaction>, p: FindAllParams)
    requires PageNumber(p) >= 1 && PageSize(p) >= 1
    ensures var r := FindAll(users, table, p);
            && |r.items| <= PageSize(p) && |r.items| <= r.pagination.total
            && (Skip(PageNumber(p), PageSize(p)) >= r.pagination.total ==> r.items == [])
  {
  }

  /** Every item is a record of the table that satisfies the request's condition, and carries its
      owner's summary. */
  lemma FindAllSelects(users: seq<User>, table: seq<Transaction>, p: FindAllParams)
    requires PageNumber(p) >= 1 && PageSize(p) >= 1
    ensures var items := FindAll(users, table, p).items;
            forall i :: 0 <= i < |items| ==>
              && items[i].record in table && Matches(users, items[i].record, p.search, p.asset, p.status)
              && items[i].user == OwnerSummary(users, items[i].record)
  {
    var items := FindAll(users, table, p).items;
    var ordered := Ordered(users, table, p);
    var skip := Skip(PageNumber(p), PageSize(p));
    forall i | 0 <= i < |items|
      ensures && items[i].record in table && Matches(users, items[i].record, p.search, p.asset, p.status)
              && items[i].user == OwnerSummary(users, items[i].record)
    {
      FindAllAt(users, table, p, i);
    }
  }

  /** The items of a page are newest first. */
  lemma FindAllNewestFirst(users: seq<User>, table: seq<Transaction>, p: FindAllParams)
    requires PageNumber(p) >= 1 && PageSize(p) >= 1
    ensures var items := FindAll(users, table, p).items;
            forall i, j :: 0 <= i < j < |items| ==> AtOrBefore(items[j].record.createdAt, items[i].record.createdAt)
  {
    var items := FindAll(users, table, p).items;
    var ordered := Ordered(users, table, p);
    var skip := Skip(PageNumber(p), PageSize(p));
    forall i, j | 0 <= i < j < |items|
      ensures AtOrBefore(items[j].record.createdAt, items[i].record.createdAt)
    {
      FindAllAt(users, table, p, i);
      FindAllAt(users, table, p, j);
      OrderedNewestFirst(users, table, p);
      SortedAt(ordered, TxCreatedAt, Desc, skip + i, skip + j);
    }
  }

  /** The count and the order do not depend on the page asked for: a page past the last one is
      empty while `total` still counts every match. */
  lemma PagePastEnd(users: seq<User>, table: seq<Transaction>, p: FindAllParams, page: int)
    requires PageNumber(p) >= 1 && PageSize(p) >= 1 && page >= 1
    requires Skip(page, PageSize(p)) >= |Matching(users, table, p)|
    ensures var r := FindAll(users, table, p.(page := Some(page)));
            r.items == [] && r.pagination.total == FindAll(users, table, p).pagination.total
  {
  }

  /** Paging loses nothing: the match at position `k` of the newest-first order is item
      `k % limit` of page `k / limit + 1`. */
  lemma EveryMatchOnItsPage(users: seq<User>, table: seq<Transaction>, p: FindAllParams, k: int)
    requires PageSize(p) >= 1 && 0 <= k < |Matching(users, table, p)|
    ensures k / PageSize(p) >= 0
    ensures var r := FindAll(users, table, p.(page := Some(k / PageSize(p) + 1)));
            k % PageSize(p) < |r.items| && r.items[k % PageSize(p)].record == Ordered(users, table, p)[k]
  {
    PageOfPosition(k, PageSize(p));
    var q := p.(page := Some(k / PageSize(p) + 1));
    assert Matching(users, table, q) == Matching(users, table, p);
    assert Ordered(users, table, q) == Ordered(users, table, p);
    MatchOnPage(users, table, q, k, k % PageSize(p));
  }

  /** The match at position `k` is item `idx` of the page whose `skip` is `k - idx`. */
  lemma MatchOnPage(users: seq<User>, table: seq<Transaction>, q: FindAllParams, k: int, idx: int)
    requires PageNumber(q) >= 1 && PageSize(q) >= 1 && 0 <= k < |Matching(users, table, q)|
    requires 0 <= idx < PageSize(q) && Skip(PageNumber(q), PageSize(q)) + idx == k
    ensures idx < |FindAll(users, table, q).items|
    ensures FindAll(users, table, q).items[idx].record == Ordered(users, table, q)[k]
  {
    var skip := Skip(PageNumber(q), PageSize(q));
    var total := |Matching(users, table, q)|;
    assert skip < total;
    assert |FindAll(users, table, q).items| == Min(PageSize(q), total - skip);
    FindAllAt(users, table, q, idx);
  }

  /** Position `k` lies on the page that starts at the multiple of `limit` just below it. */
  lemma PageOfPosition(k: int, limit: int)
    requires k >= 0 && limit >= 1
    ensures k / limit >= 0
    ensures Skip(k / limit + 1, limit) + k % limit == k
    ensures 0 <= k % limit < limit
  {
    assert k == (k / limit) * limit + k % limit;
  }

  /** Without a truthy `search`, `asset` or `status`, every record is listed and counted. */
  lemma NoFiltersSelectAll(users: seq<User>, table: seq<Transaction>, p: FindAllParams)
    requires !Truthy(p.search) && !Truthy(p.asset) && !Truthy(p.status)
    ensures Matching(users, table, p) == table
  {
    FilterAll(table, MatchesParams(users, p));
  }

  /** Two requests for the same page whose conditions select the same records get the same
      answer. */
  lemma SameSelectionSamePage(users: seq<User>, table: seq<Transaction>, p: FindAllParams, q: FindAllParams)
    requires PageNumber(p) >= 1 && PageSize(p) >= 1
    requires p.page == q.page && p.limit == q.limit
    requires forall t :: MatchesParams(users, p)(t) == MatchesParams(users, q)(t)
    ensures FindAll(users, table, p) == FindAll(users, table, q)
  {
    FilterExtensional(table, MatchesParams(users, p), MatchesParams(users, q));
    assert Ordered(users, table, p) == Ordered(users, table, q);
  }

  /** An empty `search`, `asset` or `status` is the same as an absent one. */
  lemma EmptyParamIsAbsent(users: seq<User>, table: seq<Transaction>, p: FindAllParams)
    requires PageNumber(p) >= 1 && PageSize(p) >= 1
    ensures FindAll(users, table, p.(search := Some(""))) == FindAll(users, table, p.(search := None))
    ensures FindAll(users, table, p.(asset := Some(""))) == FindAll(users, table, p.(asset := None))
    ensures FindAll(users, table, p.(status := Some(""))) == FindAll(users, table, p.(status := None))
  {
    SameSelectionSamePage(users, table, p.(search := Some("")), p.(search := None));
    SameSelectionSamePage(users, table, p.(asset := Some("")), p.(asset := None));
    SameSelectionSamePage(users, table, p.(status := Some("")), p.(status := None));
  }

  /** Adding an `asset` filter to a request never raises its count. */
  lemma AssetFilterNarrows(users: seq<User>, table: seq<Transaction>, p: FindAllParams, asset: string)
    requires !Truthy(p.asset)
    ensures |Matching(users, table, p.(asset := Some(asset)))| <= |Matching(users, table, p)|
  {
    FilterMonotone(table, MatchesParams(users, p.(asset := Some(asset))), MatchesParams(users, p));
  }

  /** With unique account ids, each item carries the summary of the account that owns it. */
  lemma ItemOwner(users: seq<User>, t: Transaction, u: User)
    requires UniqueAccounts(users) && u in users && u.id == t.userId
    ensures OwnerSummary(users, t) == Some(Summary(u))
  {
    UserWithIdUnique(users, u);
  }
}
