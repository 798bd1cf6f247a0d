/**
 * The dashboard metrics of one month: the IDR deposit and withdrawal totals and counts, the
 * accounts registered and KYC-verified in the month, and a chart with one bucket per day of
 * the month holding that day's IDR deposit and withdrawal sums.
 */
module StatsRepository {
  import opened Wrappers
  import opened Calendar
  import opened JsNumber
  import opened Query
  import opened Records

  // ---------------------------------------------------------------------------------------
  // The store's queries

  /** `createdAt: { gte: startDate, lte: endDate }, asset: 'IDR'`. */
  predicate InScope(t: Transaction, p: Period) {
    t.asset == "IDR" && InPeriod(t.createdAt, p)
  }

  function ScopeOf(p: Period): Transaction -> bool {
    (t: Transaction) => InScope(t, p)
  }

  /** The records of a table that the totals and the chart of a period read. */
  function Scoped(table: seq<Transaction>, p: Period): (r: seq<Transaction>)
    ensures forall i :: 0 <= i < |r| ==> r[i] in table && InScope(r[i], p)
  {
    Filter(table, ScopeOf(p))
  }

  /** The total amount of the records whose `createdAt` satisfies `sel`. */
  function TxSum(ts: seq<Transaction>, sel: Timestamp -> bool): int {
    if ts == [] then 0
    else TxSum(ts[..|ts| - 1], sel) + (if sel(ts[|ts| - 1].createdAt) then ts[|ts| - 1].amount else 0)
  }

  function AnyTime(): Timestamp -> bool {
    (x: Timestamp) => true
  }

  /** The total amount of all the records. */
  function SumAmount(ts: seq<Transaction>): int {
    TxSum(ts, AnyTime())
  }

  /** What `aggregate({ where, _sum: { amount }, _count: { id } })` returns: the sum is null
      when no record matches. */
  datatype Aggregate = Aggregate(sumAmount: Option<int>, count: int)

  function AggregateOf(ts: seq<Transaction>): Aggregate {
    Aggregate(if ts == [] then None else Some(SumAmount(ts)), |ts|)
  }

  /** `aggregate` reports the number of records, and their sum exactly when there is one. */
  lemma AggregateMeans(ts: seq<Transaction>)
    ensures AggregateOf(ts).count == |ts|
    ensures AggregateOf(ts).sumAmount.None? <==> ts == []
    ensures AggregateOf(ts).sumAmount.GetOr(0) == SumAmount(ts)
  {
  }

  function CreatedIn(p: Period): User -> bool {
    (u: User) => InPeriod(u.createdAt, p)
  }

  function VerifiedCreatedIn(p: Period): User -> bool {
    (u: User) => u.isKycVerified && InPeriod(u.createdAt, p)
  }

  /** `user.count({ where: { createdAt: { gte, lte } } })`. */
  function RegisteredIn(users: seq<User>, p: Period): seq<User> {
    Filter(users, CreatedIn(p))
  }

  /** `user.count({ where: { isKycVerified: true, createdAt: { gte, lte } } })`. */
  function VerifiedIn(users: seq<User>, p: Period): seq<User> {
    Filter(users, VerifiedCreatedIn(p))
  }

  /** A verified account registered in the period is counted among both. */
  lemma VerifiedAtMostRegistered(users: seq<User>, p: Period)
    ensures |VerifiedIn(users, p)| <= |RegisteredIn(users, p)|
  {
    FilterMonotone(users, VerifiedCreatedIn(p), CreatedIn(p));
  }

  /** The accounts counted are those created in the period, and the verified ones among them. */
  lemma CountedAccounts(users: seq<User>, p: Period)
    ensures forall i :: 0 <= i < |RegisteredIn(users, p)| ==>
              InPeriod(RegisteredIn(users, p)[i].createdAt, p)
    ensures forall i :: 0 <= i < |VerifiedIn(users, p)| ==>
              VerifiedIn(users, p)[i].isKycVerified && InPeriod(VerifiedIn(users, p)[i].createdAt, p)
  {
  }

  // ---------------------------------------------------------------------------------------
  // groupBy createdAt

  /** A row of `groupBy({ by: ['createdAt'], _sum: { amount } })`. */
  datatype GroupRow = GroupRow(createdAt: Timestamp, sumAmount: Option<int>)

  /** `t` added to the group of its `createdAt`, or to a new group at the end. */
  function AddToGroups(groups: seq<GroupRow>, t: Transaction): seq<GroupRow> {
    if groups == [] then [GroupRow(t.createdAt, Some(t.amount))]
    else if groups[0].createdAt == t.createdAt then
      [GroupRow(t.createdAt, Some(groups[0].sumAmount.GetOr(0) + t.amount))] + groups[1..]
    else [groups[0]] + AddToGroups(groups[1..], t)
  }

  /** One row per distinct `createdAt` of `ts`, with the sum of their amounts. */
  function GroupByCreatedAt(ts: seq<Transaction>): seq<GroupRow> {
    if ts == [] then []
    else AddToGroups(GroupByCreatedAt(ts[..|ts| - 1]), ts[|ts| - 1])
  }

  function Keys(groups: seq<GroupRow>): set<Timestamp> {
    set g | g in groups :: g.createdAt
  }

  predicate DistinctKeys(groups: seq<GroupRow>) {
    forall i, j :: 0 <= i < j < |groups| ==> groups[i].createdAt != groups[j].createdAt
  }

  /** The summed amount of the rows whose `createdAt` satisfies `sel`; a null sum counts 0. */
  function RowsSum(rows: seq<GroupRow>, sel: Timestamp -> bool): int {
    if rows == [] then 0
    else
      var last := rows[|rows| - 1];
      RowsSum(rows[..|rows| - 1], sel) + (if sel(last.createdAt) then last.sumAmount.GetOr(0) else 0)
  }

  lemma {:induction false} RowsSumConcat(a: seq<GroupRow>, b: seq<GroupRow>, sel: Timestamp -> bool)
    ensures RowsSum(a + b, sel) == RowsSum(a, sel) + RowsSum(b, sel)
  {
    if b == [] {
      assert a + b == a;
    } else {
      assert (a + b)[..|a + b| - 1] == a + b[..|b| - 1];
      RowsSumConcat(a, b[..|b| - 1], sel);
    }
  }

  /** Adding a record to the groups adds its amount to every sum that selects its date. */
  lemma {:induction false} AddToGroupsSum(groups: seq<GroupRow>, t: Transaction, sel: Timestamp -> bool)
    ensures RowsSum(AddToGroups(groups, t), sel)
         == RowsSum(groups, sel) + (if sel(t.createdAt) then t.amount else 0)
  {
    if groups == [] {
      assert RowsSum([GroupRow(t.createdAt, Some(t.amount))], sel)
          == RowsSum([], sel) + (if sel(t.createdAt) then t.amount else 0);
    } else {
      var head := [groups[0]];
      assert groups == head + groups[1..];
      RowsSumConcat(head, groups[1..], sel);
      var first := GroupRow(groups[0].createdAt, Some(groups[0].sumAmount.GetOr(0) + t.amount));
      assert RowsSum([first], sel) == RowsSum([], sel) + (if sel(first.createdAt) then first.sumAmount.GetOr(0) else 0);
      assert RowsSum(head, sel) == RowsSum([], sel) + (if sel(groups[0].createdAt) then groups[0].sumAmount.GetOr(0) else 0);
      if groups[0].createdAt == t.createdAt {
        RowsSumConcat([first], groups[1..], sel);
      } else {
        AddToGroupsSum(groups[1..], t, sel);
        RowsSumConcat(head, AddToGroups(groups[1..], t), sel);
      }
    }
  }

  lemma KeysCons(g: GroupRow, rest: seq<GroupRow>)
    ensures Keys([g] + rest) == {g.createdAt} + Keys(rest)
  {
    forall k | k in Keys([g] + rest)
      ensures k in {g.createdAt} + Keys(rest)
    {
      var h :| h in [g] + rest && h.createdAt == k;
    }
    forall k | k in Keys(rest)
      ensures k in Keys([g] + rest)
    {
      var h :| h in rest && h.createdAt == k;
      assert h in [g] + rest;
    }
  }

  /** Adding a record to the groups adds its date to the keys. */
  lemma {:induction false} AddToGroupsKeys(groups: seq<GroupRow>, t: Transaction)
    ensures Keys(AddToGroups(groups, t)) == Keys(groups) + {t.createdAt}
  {
    if groups == [] {
      KeysCons(GroupRow(t.createdAt, Some(t.amount)), []);
    } else {
      var rest := groups[1..];
      assert groups == [groups[0]] + rest;
      KeysCons(groups[0], rest);
      if groups[0].createdAt == t.createdAt {
        KeysCons(GroupRow(t.createdAt, Some(groups[0].sumAmount.GetOr(0) + t.amount)), rest);
      } else {
        AddToGroupsKeys(rest, t);
        KeysCons(groups[0], AddToGroups(rest, t));
      }
    }
  }

  /** Adding a record to groups with distinct keys keeps them distinct. */
  lemma {:induction false} AddToGroupsDistinct(groups: seq<GroupRow>, t: Transaction)
    requires DistinctKeys(groups)
    ensures DistinctKeys(AddToGroups(groups, t))
  {
    if groups != [] {
      var rest := groups[1..];
      if groups[0].createdAt != t.createdAt {
        assert DistinctKeys(rest) by {
          forall i, j | 0 <= i < j < |rest|
            ensures rest[i].createdAt != rest[j].createdAt
          {
            assert rest[i] == groups[i + 1] && rest[j] == groups[j + 1];
          }
        }
        AddToGroupsDistinct(rest, t);
        AddToGroupsKeys(rest, t);
        var added := AddToGroups(rest, t);
        forall i, j | 0 <= i < j < |[groups[0]] + added|
          ensures ([groups[0]] + added)[i].createdAt != ([groups[0]] + added)[j].createdAt
        {
          if i == 0 {
            var k := added[j - 1].createdAt;
            assert added[j - 1] in added;
            assert k in Keys(rest) + {t.createdAt};
            if k in Keys(rest) {
              var g :| g in rest && g.createdAt == k;
              var m :| 0 <= m < |rest| && rest[m] == g;
              assert groups[m + 1] == g;
            }
          }
        }
      } else {
        var first := GroupRow(t.createdAt, Some(groups[0].sumAmount.GetOr(0) + t.amount));
        forall i, j | 0 <= i < j < |[first] + rest|
          ensures ([first] + rest)[i].createdAt != ([first] + rest)[j].createdAt
        {
          assert ([first] + rest)[j] == groups[j];
          if i > 0 {
            assert ([first] + rest)[i] == groups[i];
          }
        }
      }
    }
  }

  /** `groupBy` yields one row per distinct `createdAt` of the records, and no other row. */
  lemma {:induction false} GroupByKeys(ts: seq<Transaction>)
    ensures DistinctKeys(GroupByCreatedAt(ts))
    ensures Keys(GroupByCreatedAt(ts)) == set t | t in ts :: t.createdAt
  {
    if ts != [] {
      var init := ts[..|ts| - 1];
      var last := ts[|ts| - 1];
      GroupByKeys(init);
      AddToGroupsKeys(GroupByCreatedAt(init), last);
      AddToGroupsDistinct(GroupByCreatedAt(init), last);
      assert ts == init + [last];
      assert (set t | t in ts :: t.createdAt) == (set t | t in init :: t.createdAt) + {last.createdAt};
    }
  }

  /** Every sum over the groups equals the same sum over the records: each row holds the sum
      of the amounts of the records with its `createdAt`. */
  lemma {:induction false} GroupBySums(ts: seq<Transaction>, sel: Timestamp -> bool)
    ensures RowsSum(GroupByCreatedAt(ts), sel) == TxSum(ts, sel)
  {
    if ts != [] {
      GroupBySums(ts[..|ts| - 1], sel);
      AddToGroupsSum(GroupByCreatedAt(ts[..|ts| - 1]), ts[|ts| - 1], sel);
    }
  }

  function IsDate(k: Timestamp): Timestamp -> bool {
    (x: Timestamp) => x == k
  }

  /** With distinct keys, the sum selecting one row's date is that row's own sum. */
  lemma {:induction false} RowOfKey(groups: seq<GroupRow>, i: int)
    requires DistinctKeys(groups) && 0 <= i < |groups|
    ensures RowsSum(groups, IsDate(groups[i].createdAt)) == groups[i].sumAmount.GetOr(0)
  {
    var k := groups[i].createdAt;
    var n := |groups| - 1;
    var init := groups[..n];
    assert DistinctKeys(init) by {
      forall a, b | 0 <= a < b < |init|
        ensures init[a].createdAt != init[b].createdAt
      {
        assert init[a] == groups[a] && init[b] == groups[b];
      }
    }
    if i < n {
      assert init[i] == groups[i];
      RowOfKey(init, i);
    } else {
      NoRowOfKey(init, k);
    }
  }

  lemma {:induction false} NoRowOfKey(groups: seq<GroupRow>, k: Timestamp)
    requires forall j :: 0 <= j < |groups| ==> groups[j].createdAt != k
    ensures RowsSum(groups, IsDate(k)) == 0
  {
    if groups != [] {
      var init := groups[..|groups| - 1];
      assert forall j :: 0 <= j < |init| ==> init[j] == groups[j];
      NoRowOfKey(init, k);
    }
  }

  /** The row of a `createdAt` holds the sum of the amounts of the records created then. */
  lemma GroupSum(ts: seq<Transaction>, i: int)
    requires 0 <= i < |GroupByCreatedAt(ts)|
    ensures var g := GroupByCreatedAt(ts)[i];
            g.sumAmount.GetOr(0) == TxSum(ts, IsDate(g.createdAt))
  {
    GroupByKeys(ts);
    RowOfKey(GroupByCreatedAt(ts), i);
    GroupBySums(ts, IsDate(GroupByCreatedAt(ts)[i].createdAt));
  }

  // ---------------------------------------------------------------------------------------
  // The chart

  /** `{ name, deposit, withdraw }`, one per day of the month. */
  datatype ChartPoint = ChartPoint(name: string, deposit: int, withdraw: int)

  /** `${day} ${monthName}`. */
  function DayLabel(day: nat, monthName: string): string {
    NatString(day) + " " + monthName
  }

  function OnDay(d: int): Timestamp -> bool {
    (x: Timestamp) => x.day == d
  }

  /** The chart the two `forEach` loops build: bucket `i` holds the sums of the rows dated on
      day `i + 1` of their month; rows whose day has no bucket are ignored. */
  function ChartSpec(n: nat, monthName: string, deposits: seq<GroupRow>, withdraws: seq<GroupRow>)
    : seq<ChartPoint>
  {
    seq(n, i requires 0 <= i < n =>
      ChartPoint(DayLabel(i + 1, monthName), RowsSum(deposits, OnDay(i + 1)), RowsSum(withdraws, OnDay(i + 1))))
  }

  /** `Array.from({ length: n }, ...)` followed by the deposit loop and the withdrawal loop. */
  method BuildChart(n: nat, monthName: string, deposits: seq<GroupRow>, withdraws: seq<GroupRow>)
    returns (chart: seq<ChartPoint>)
    ensures chart == ChartSpec(n, monthName, deposits, withdraws)
  {
    var a := new ChartPoint[n](i => ChartPoint(DayLabel(i + 1, monthName), 0, 0));
    var k := 0;
    while k < |deposits|
      invariant 0 <= k <= |deposits|
      invariant forall i :: 0 <= i < n ==>
                  a[i] == ChartPoint(DayLabel(i + 1, monthName), RowsSum(deposits[..k], OnDay(i + 1)), 0)
    {
      var day := deposits[k].createdAt.day;
      if 1 <= day <= n {
        a[day - 1] := a[day - 1].(deposit := a[day - 1].deposit + deposits[k].sumAmount.GetOr(0));
      }
      assert deposits[..k + 1][..k] == deposits[..k];
      k := k + 1;
    }
    assert deposits[..k] == deposits;
    k := 0;
    while k < |withdraws|
      invariant 0 <= k <= |withdraws|
      invariant forall i :: 0 <= i < n ==>
                  a[i] == ChartPoint(DayLabel(i + 1, monthName), RowsSum(deposits, OnDay(i + 1)),
                                     RowsSum(withdraws[..k], OnDay(i + 1)))
    {
      var day := withdraws[k].createdAt.day;
      if 1 <= day <= n {
        a[day - 1] := a[day - 1].(withdraw := a[day - 1].withdraw + withdraws[k].sumAmount.GetOr(0));
      }
      assert withdraws[..k + 1][..k] == withdraws[..k];
      k := k + 1;
    }
    assert withdraws[..k] == withdraws;
    chart := a[..];
  }

  function DepositColumn(c: seq<ChartPoint>): int {
    if c == [] then 0 else DepositColumn(c[..|c| - 1]) + c[|c| - 1].deposit
  }

  function WithdrawColumn(c: seq<ChartPoint>): int {
    if c == [] then 0 else WithdrawColumn(c[..|c| - 1]) + c[|c| - 1].withdraw
  }

  function DaysUpTo(n: nat): Timestamp -> bool {
    (x: Timestamp) => 1 <= x.day <= n
  }

  /** A sum whose selection is split in two disjoint parts is the sum of the two parts. */
  lemma {:induction false} RowsSumSplit(rows: seq<GroupRow>, p: Timestamp -> bool, q: Timestamp -> bool,
                                        r: Timestamp -> bool)
    requires forall x :: p(x) == (q(x) || r(x)) && !(q(x) && r(x))
    ensures RowsSum(rows, p) == RowsSum(rows, q) + RowsSum(rows, r)
  {
    if rows != [] {
      RowsSumSplit(rows[..|rows| - 1], p, q, r);
    }
  }

  /** With no bucket selected, the sum is 0. */
  lemma {:induction false} RowsSumNothing(rows: seq<GroupRow>, p: Timestamp -> bool)
    requires forall x :: !p(x)
    ensures RowsSum(rows, p) == 0
  {
    if rows != [] {
      RowsSumNothing(rows[..|rows| - 1], p);
    }
  }

  /** Summing the first `n` buckets of a column sums the rows dated on days `1..n`. */
  lemma {:induction false} ColumnsSumDays(n: nat, monthName: string, deposits: seq<GroupRow>,
                                          withdraws: seq<GroupRow>)
    ensures DepositColumn(ChartSpec(n, monthName, deposits, withdraws)) == RowsSum(deposits, DaysUpTo(n))
    ensures WithdrawColumn(ChartSpec(n, monthName, deposits, withdraws)) == RowsSum(withdraws, DaysUpTo(n))
  {
    var c := ChartSpec(n, monthName, deposits, withdraws);
    if n == 0 {
      RowsSumNothing(deposits, DaysUpTo(0));
      RowsSumNothing(withdraws, DaysUpTo(0));
    } else {
      ColumnsSumDays(n - 1, monthName, deposits, withdraws);
      assert c[..n - 1] == ChartSpec(n - 1, monthName, deposits, withdraws);
      RowsSumSplit(deposits, DaysUpTo(n), DaysUpTo(n - 1), OnDay(n));
      RowsSumSplit(withdraws, DaysUpTo(n), DaysUpTo(n - 1), OnDay(n));
    }
  }

  /** A row dated on a day without a bucket leaves the chart as it is. */
  lemma OutOfRangeRowIgnored(n: nat, monthName: string, deposits: seq<GroupRow>, withdraws: seq<GroupRow>,
                             row: GroupRow)
    requires !(1 <= row.createdAt.day <= n)
    ensures ChartSpec(n, monthName, deposits + [row], withdraws) == ChartSpec(n, monthName, deposits, withdraws)
    ensures ChartSpec(n, monthName, deposits, withdraws + [row]) == ChartSpec(n, monthName, deposits, withdraws)
  {
    assert (deposits + [row])[..|deposits|] == deposits;
    assert (withdraws + [row])[..|withdraws|] == withdraws;
  }

  /** The rows' order does not matter. */
  lemma {:induction false} RowsSumPermutation(a: seq<GroupRow>, b: seq<GroupRow>, sel: Timestamp -> bool)
    requires multiset(a) == multiset(b)
    ensures RowsSum(a, sel) == RowsSum(b, sel)
    decreases |a|
  {
    if a == [] {
      assert |b| == |multiset(b)| == 0;
    } else {
      var x := a[|a| - 1];
      var a' := a[..|a| - 1];
      assert a == a' + [x];
      assert x in multiset(b);
      var j :| 0 <= j < |b| && b[j] == x;
      var b' := b[..j] + b[j + 1..];
      assert b == b[..j] + [x] + b[j + 1..];
      assert multiset(b) == multiset(b[..j]) + multiset{x} + multiset(b[j + 1..]);
      assert multiset(b') == multiset(b[..j]) + multiset(b[j + 1..]);
      assert multiset(a) == multiset(a') + multiset{x};
      assert multiset(a') == multiset(a) - multiset{x};
      assert multiset(b') == multiset(b) - multiset{x};
      RowsSumPermutation(a', b', sel);
      RowsSumConcat(b[..j] + [x], b[j + 1..], sel);
      RowsSumConcat(b[..j], [x], sel);
      RowsSumConcat(b[..j], b[j + 1..], sel);
      assert RowsSum([x], sel) == RowsSum([], sel) + (if sel(x.createdAt) then x.sumAmount.GetOr(0) else 0);
    }
  }

  /** The chart does not depend on the order in which `groupBy` returns its rows. */
  lemma ChartIgnoresRowOrder(n: nat, monthName: string, deposits: seq<GroupRow>, withdraws: seq<GroupRow>,
                             deposits': seq<GroupRow>, withdraws': seq<GroupRow>)
    requires multiset(deposits) == multiset(deposits') && multiset(withdraws) == multiset(withdraws')
    ensures ChartSpec(n, monthName, deposits, withdraws) == ChartSpec(n, monthName, deposits', withdraws')
  {
    forall d | 1 <= d <= n
      ensures RowsSum(deposits, OnDay(d)) == RowsSum(deposits', OnDay(d))
      ensures RowsSum(withdraws, OnDay(d)) == RowsSum(withdraws', OnDay(d))
    {
      RowsSumPermutation(deposits, deposits', OnDay(d));
      RowsSumPermutation(withdraws, withdraws', OnDay(d));
    }
  }

  // ---------------------------------------------------------------------------------------
  // The dashboard

  /** What `getDashboardMetrics` returns. */
  datatype Metrics = Metrics(
    totalDeposit: int,
    depositCount: int,
    totalWithdraw: int,
    withdrawCount: int,
    totalRegistered: int,
    totalVerifiedKyc: int,
    chartData: seq<ChartPoint>)

  /** The short month name of the first day of the month, in the locale `monthName` stands for. */
  function MonthLabel(year: int, month: int, monthName: YearMonth -> string): string {
    monthName(MonthOfIndex(FullYear(year), month - 1))
  }

  /** The metrics of `month` of `year`. The month is not range-checked: month 13 of a year is
      January of the next, as `new Date(year, month - 1, 1)` makes it. */
  function DashboardSpec(store: Store, month: int, year: int, monthName: YearMonth -> string): Metrics {
    var p := MonthPeriod(year, month);
    var deposits := Scoped(store.deposits, p);
    var withdraws := Scoped(store.withdraws, p);
    var totalDeposit := AggregateOf(deposits);
    var totalWithdraw := AggregateOf(withdraws);
    Metrics(
      totalDeposit.sumAmount.GetOr(0),
      totalDeposit.count,
      totalWithdraw.sumAmount.GetOr(0),
      totalWithdraw.count,
      |RegisteredIn(store.users, p)|,
      |VerifiedIn(store.users, p)|,
      ChartSpec(DaysInMonth(year, month), MonthLabel(year, month, monthName),
                GroupByCreatedAt(deposits), GroupByCreatedAt(withdraws)))
  }

  /** `getDashboardMetrics(month, year)` over a readable store. */
  method GetDashboardMetrics(store: Store, month: int, year: int, monthName: YearMonth -> string)
    returns (m: Metrics)
    ensures m == DashboardSpec(store, month, year, monthName)
  {
    var p := MonthPeriod(year, month);
    var deposits := Scoped(store.deposits, p);
    var withdraws := Scoped(store.withdraws, p);
    var totalDeposit := AggregateOf(deposits);
    var totalWithdraw := AggregateOf(withdraws);
    var totalRegistered := |RegisteredIn(store.users, p)|;
    var totalVerifiedKyc := |VerifiedIn(store.users, p)|;
    var chartData := BuildChart(DaysInMonth(year, month), MonthLabel(year, month, monthName),
                                GroupByCreatedAt(deposits), GroupByCreatedAt(withdraws));
    m := Metrics(totalDeposit.sumAmount.GetOr(0), totalDeposit.count,
                 totalWithdraw.sumAmount.GetOr(0), totalWithdraw.count,
                 totalRegistered, totalVerifiedKyc, chartData);
  }

  /** The chart has one bucket per day of the month, named `${day} ${monthName}`. */
  lemma ChartHasEveryDay(store: Store, month: int, year: int, monthName: YearMonth -> string)
    ensures var chart := DashboardSpec(store, month, year, monthName).chartData;
            && |chart| == DaysInMonth(year, month)
            && forall i :: 0 <= i < |chart| ==>
                 chart[i].name == DayLabel(i + 1, MonthLabel(year, month, monthName))
  {
  }

  /** Every bucket of the chart holds the sums of that day's IDR records of the month. */
  lemma ChartBucket(store: Store, month: int, year: int, monthName: YearMonth -> string, i: int)
    requires 0 <= i < DaysInMonth(year, month)
    ensures var p := MonthPeriod(year, month);
            var point := DashboardSpec(store, month, year, monthName).chartData[i];
            && point.deposit == TxSum(Scoped(store.deposits, p), OnDay(i + 1))
            && point.withdraw == TxSum(Scoped(store.withdraws, p), OnDay(i + 1))
  {
    var p := MonthPeriod(year, month);
    GroupBySums(Scoped(store.deposits, p), OnDay(i + 1));
    GroupBySums(Scoped(store.withdraws, p), OnDay(i + 1));
  }

  /** Records of the same selection give the same sum. */
  lemma {:induction false} TxSumAgree(ts: seq<Transaction>, p: Timestamp -> bool, q: Timestamp -> bool)
    requires forall i :: 0 <= i < |ts| ==> p(ts[i].createdAt) == q(ts[i].createdAt)
    ensures TxSum(ts, p) == TxSum(ts, q)
  {
    if ts != [] {
      TxSumAgree(ts[..|ts| - 1], p, q);
    }
  }

  /** Every scoped record of a month falls on a day that has a bucket, so the sums of the
      month's buckets add up to the month's total. */
  lemma ScopedSumIsDaysSum(table: seq<Transaction>, month: int, year: int)
    ensures var p := MonthPeriod(year, month);
            RowsSum(GroupByCreatedAt(Scoped(table, p)), DaysUpTo(DaysInMonth(year, month)))
              == SumAmount(Scoped(table, p))
  {
    var p := MonthPeriod(year, month);
    var s := Scoped(table, p);
    var n := DaysInMonth(year, month);
    forall i | 0 <= i < |s|
      ensures DaysUpTo(n)(s[i].createdAt) == AnyTime()(s[i].createdAt)
    {
      InMonthPeriod(year, month, s[i].createdAt);
    }
    TxSumAgree(s, DaysUpTo(n), AnyTime());
    GroupBySums(s, DaysUpTo(n));
  }

  /** The chart's columns add up to the totals. */
  lemma ColumnsMatchTotals(store: Store, month: int, year: int, monthName: YearMonth -> string)
    ensures var m := DashboardSpec(store, month, year, monthName);
            DepositColumn(m.chartData) == m.totalDeposit && WithdrawColumn(m.chartData) == m.totalWithdraw
  {
    var p := MonthPeriod(year, month);
    var n := DaysInMonth(year, month);
    ColumnsSumDays(n, MonthLabel(year, month, monthName),
                   GroupByCreatedAt(Scoped(store.deposits, p)), GroupByCreatedAt(Scoped(store.withdraws, p)));
    ScopedSumIsDaysSum(store.deposits, month, year);
    ScopedSumIsDaysSum(store.withdraws, month, year);
    AggregateMeans(Scoped(store.deposits, p));
    AggregateMeans(Scoped(store.withdraws, p));
  }

  /** The counts are the numbers of the month's IDR records, and no more accounts are
      verified than registered. */
  lemma CountsOfTheMonth(store: Store, month: int, year: int, monthName: YearMonth -> string)
    ensures var p := MonthPeriod(year, month);
            var m := DashboardSpec(store, month, year, monthName);
            && m.depositCount == |Scoped(store.deposits, p)|
            && m.withdrawCount == |Scoped(store.withdraws, p)|
            && m.totalVerifiedKyc <= m.totalRegistered
  {
    VerifiedAtMostRegistered(store.users, MonthPeriod(year, month));
  }

  /** A deposit or a withdrawal outside the scope of the month (another asset, another
      period), wherever it sits in its table, changes nothing in the metrics. */
  lemma OutOfScopeIgnored(store: Store, month: int, year: int, monthName: YearMonth -> string,
                          before: seq<Transaction>, t: Transaction, after: seq<Transaction>)
    requires !InScope(t, MonthPeriod(year, month))
    ensures DashboardSpec(store.(deposits := before + [t] + after), month, year, monthName)
         == DashboardSpec(store.(deposits := before + after), month, year, monthName)
    ensures DashboardSpec(store.(withdraws := before + [t] + after), month, year, monthName)
         == DashboardSpec(store.(withdraws := before + after), month, year, monthName)
  {
    FilterSkips(before, t, after, ScopeOf(MonthPeriod(year, month)));
  }

  /** In particular a record in another asset is never counted. */
  lemma OtherAssetIgnored(store: Store, month: int, year: int, monthName: YearMonth -> string,
                          before: seq<Transaction>, t: Transaction, after: seq<Transaction>)
    requires t.asset != "IDR"
    ensures DashboardSpec(store.(deposits := before + [t] + after), month, year, monthName)
         == DashboardSpec(store.(deposits := before + after), month, year, monthName)
  {
    OutOfScopeIgnored(store, month, year, monthName, before, t, after);
  }

  /** A month without IDR activity or registrations shows zeros everywhere. */
  lemma QuietMonth(store: Store, month: int, year: int, monthName: YearMonth -> string)
    requires forall i :: 0 <= i < |store.deposits| ==> !InScope(store.deposits[i], MonthPeriod(year, month))
    requires forall i :: 0 <= i < |store.withdraws| ==> !InScope(store.withdraws[i], MonthPeriod(year, month))
    requires forall i :: 0 <= i < |store.users| ==> !InPeriod(store.users[i].createdAt, MonthPeriod(year, month))
    ensures var m := DashboardSpec(store, month, year, monthName);
            && m.totalDeposit == 0 && m.depositCount == 0
            && m.totalWithdraw == 0 && m.withdrawCount == 0
            && m.totalRegistered == 0 && m.totalVerifiedKyc == 0
            && forall i :: 0 <= i < |m.chartData| ==> m.chartData[i].deposit == 0 && m.chartData[i].withdraw == 0
  {
    var p := MonthPeriod(year, month);
    FilterNone(store.deposits, ScopeOf(p));
    FilterNone(store.withdraws, ScopeOf(p));
    FilterNone(store.users, CreatedIn(p));
    VerifiedAtMostRegistered(store.users, p);
  }

  /** February has a bucket per day: 29 in 2024, 28 in 2023. */
  lemma FebruaryChart(store: Store, monthName: YearMonth -> string)
    ensures |DashboardSpec(store, 2, 2024, monthName).chartData| == 29
    ensures |DashboardSpec(store, 2, 2023, monthName).chartData| == 28
  {
    LeapFebruaryExamples();
  }

  /** One IDR deposit created on day 15 of the month is the month's whole deposit total and
      sits in bucket 14, once. */
  lemma SingleDepositOnDay15(store: Store, month: int, year: int, monthName: YearMonth -> string, t: Transaction)
    requires store.deposits == [t] && t.asset == "IDR" && ValidTimestamp(t.createdAt)
    requires var ym := MonthOfIndex(FullYear(year), month - 1);
             t.createdAt.year == ym.year && t.createdAt.month == ym.month && t.createdAt.day == 15
    ensures var m := DashboardSpec(store, month, year, monthName);
            && m.totalDeposit == t.amount && m.depositCount == 1
            && m.chartData[14].deposit == t.amount
            && forall i :: 0 <= i < |m.chartData| && i != 14 ==> m.chartData[i].deposit == 0
  {
    var p := MonthPeriod(year, month);
    InMonthPeriod(year, month, t.createdAt);
    assert [t][1..] == [];
    assert Scoped(store.deposits, p) == [t];
    TxSumSingle(t, AnyTime());
    AggregateMeans([t]);
    forall i | 0 <= i < DaysInMonth(year, month)
      ensures DashboardSpec(store, month, year, monthName).chartData[i].deposit == if i == 14 then t.amount else 0
    {
      ChartBucket(store, month, year, monthName, i);
      TxSumSingle(t, OnDay(i + 1));
    }
  }

  lemma TxSumSingle(t: Transaction, sel: Timestamp -> bool)
    ensures TxSum([t], sel) == if sel(t.createdAt) then t.amount else 0
  {
    assert [t][..0] == [];
  }
}
