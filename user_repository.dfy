/**
 * `UserRepository`: the account listing and its count (one shared search condition), the
 * lookups by id and by email, and account creation as an append to the accounts table.
 */
module UserRepository {
  import opened Wrappers
  import opened Calendar
  import opened Query
  import opened Records
  import opened TransactionQuery

  /** The account fields the search condition names. */
  datatype UserField = FirstName | LastName | Email | Username

  function UserFields(u: User): UserField -> Option<string> {
    (f: UserField) => match f
         case FirstName => Some(u.firstName)
         case LastName => Some(u.lastName)
         case Email => Some(u.email)
         case Username => Some(u.username)
  }

  /** The `where` object of `findAll` and `count`: the `OR` over the four fields when `search`
      is truthy, otherwise no constraint. */
  function SearchWhere(search: Option<string>): Condition<UserField> {
    if Truthy(search) then
      Or([Contains(FirstName, search.value), Contains(LastName, search.value),
          Contains(Email, search.value), Contains(Username, search.value)])
    else And([])
  }

  /** The selection promised, stated on the account. */
  predicate UserMatches(u: User, search: Option<string>) {
    Truthy(search) ==>
      || ContainsInsensitive(u.firstName, search.value) || ContainsInsensitive(u.lastName, search.value)
      || ContainsInsensitive(u.email, search.value) || ContainsInsensitive(u.username, search.value)
  }

  lemma SearchWhereMeans(u: User, search: Option<string>)
    ensures Holds(SearchWhere(search), UserFields(u)) <==> UserMatches(u, search)
  {
    if Truthy(search) {
      var cs := SearchWhere(search).any;
      var get := UserFields(u);
      assert Holds(SearchWhere(search), get) <==>
        Holds(cs[0], get) || Holds(cs[1], get) || Holds(cs[2], get) || Holds(cs[3], get);
    }
  }

  function Selects(search: Option<string>): User -> bool {
    u => Holds(SearchWhere(search), UserFields(u))
  }

  function MatchesSearch(search: Option<string>): User -> bool {
    u => UserMatches(u, search)
  }

  /** The accounts the search selects, in table order. */
  function Selected(users: seq<User>, search: Option<string>): (r: seq<User>)
    ensures forall i :: 0 <= i < |r| ==> r[i] in users && UserMatches(r[i], search)
  {
    Filter(users, MatchesSearch(search))
  }

  /** Each account is selected as often as it is in the table when it matches, and not at all
      otherwise. */
  lemma SelectedCounts(users: seq<User>, search: Option<string>)
    ensures forall u :: multiset(Selected(users, search))[u] ==
                        if UserMatches(u, search) then multiset(users)[u] else 0
  {
    FilterCounts(users, MatchesSearch(search));
  }

  /** The store, handed the `where` object, selects exactly these accounts, in table order. */
  lemma SearchWhereSelects(users: seq<User>, search: Option<string>)
    ensures Filter(users, Selects(search)) == Selected(users, search)
  {
    forall u
      ensures Selects(search)(u) == MatchesSearch(search)(u)
    {
      SearchWhereMeans(u, search);
    }
    FilterExtensional(users, Selects(search), MatchesSearch(search));
  }

  /** The selected accounts in `DEFAULT_SORT_ORDER` of `createdAt`. */
  function OrderedUsers(users: seq<User>, search: Option<string>, order: SortOrder): (r: seq<User>)
    ensures multiset(r) == multiset(Selected(users, search))
    ensures |r| == |Selected(users, search)|
  {
    var m := Selected(users, search);
    var r := SortBy(m, UserCreatedAt, order);
    assert |multiset(r)| == |multiset(m)|;
    r
  }

  /** The ordered accounts are accounts of the table that the search selects. */
  lemma OrderedUsersSelected(users: seq<User>, search: Option<string>, order: SortOrder)
    ensures var r := OrderedUsers(users, search, order);
            forall i :: 0 <= i < |r| ==> r[i] in users && UserMatches(r[i], search)
  {
    var m := Selected(users, search);
    var r := OrderedUsers(users, search, order);
    forall i | 0 <= i < |r|
      ensures r[i] in users && UserMatches(r[i], search)
    {
      assert r[i] in multiset(r);
      assert r[i] in m;
    }
  }

  lemma OrderedUsersSorted(users: seq<User>, search: Option<string>, order: SortOrder)
    ensures Sorted(OrderedUsers(users, search, order), UserCreatedAt, order)
  {
  }

  function Views(us: seq<User>): (r: seq<UserView>)
    ensures |r| == |us|
    ensures forall i :: 0 <= i < |us| ==> r[i] == View(us[i])
  {
    seq(|us|, i requires 0 <= i < |us| => View(us[i]))
  }

  /** The parameter defaults of `findAll`: `limit = 10`, `offset = 0`. */
  function Take(limit: Option<int>): int {
    limit.GetOr(10)
  }

  function Skip(offset: Option<int>): int {
    offset.GetOr(0)
  }

  /** `findAll(limit = 10, offset = 0, search)`: the selected accounts, ordered by `createdAt`,
      from position `offset` on, at most `limit` of them, each without its password. */
  function FindAll(users: seq<User>, limit: Option<int>, offset: Option<int>, search: Option<string>,
                   order: SortOrder): (r: seq<UserView>)
    requires Take(limit) >= 0 && Skip(offset) >= 0
    ensures var total := |OrderedUsers(users, search, order)|;
            var skip := Skip(offset);
            |r| == if skip >= total then 0 else Min(Take(limit), total - skip)
  {
    var ordered := OrderedUsers(users, search, order);
    Views(Slice(ordered, Skip(offset), Take(limit)))
  }

  /** The account listed at position `i` of a page. */
  lemma FindAllAt(users: seq<User>, limit: Option<int>, offset: Option<int>, search: Option<string>,
                  order: SortOrder, i: int)
    requires Take(limit) >= 0 && Skip(offset) >= 0
    requires 0 <= i < |FindAll(users, limit, offset, search, order)|
    ensures Skip(offset) + i < |OrderedUsers(users, search, order)|
    ensures FindAll(users, limit, offset, search, order)[i] == View(OrderedUsers(users, search, order)[Skip(offset) + i])
  {
    var ordered := OrderedUsers(users, search, order);
    var page := Slice(ordered, Skip(offset), Take(limit));
    assert FindAll(users, limit, offset, search, order) == Views(page);
    SliceAt(ordered, Skip(offset), Take(limit), i);
  }

  /** Paging loses no account: the account at position `k` of the ordered selection is listed
      as entry `k % limit` of the page whose offset is the multiple of `limit` just below `k`,
      the offset the handler computes for page `k / limit + 1`. */
  lemma EveryAccountOnItsPage(users: seq<User>, search: Option<string>, order: SortOrder,
                              limit: int, k: int)
    requires limit >= 1 && 0 <= k < |OrderedUsers(users, search, order)|
    ensures (k / limit) * limit >= 0
    ensures var r := FindAll(users, Some(limit), Some((k / limit) * limit), search, order);
            k % limit < |r| && r[k % limit] == View(OrderedUsers(users, search, order)[k])
  {
    PositionOnPage(k, limit);
    AccountOnPage(users, search, order, limit, (k / limit) * limit, k % limit, k);
  }

  /** The multiple of `limit` just below `k`, plus `k % limit`, is `k`. */
  lemma PositionOnPage(k: int, limit: int)
    requires k >= 0 && limit >= 1
    ensures (k / limit) * limit >= 0 && (k / limit) * limit + k % limit == k
    ensures 0 <= k % limit < limit
  {
    assert k == (k / limit) * limit + k % limit;
  }

  /** The account at position `k` is entry `idx` of the page whose offset is `k - idx`. */
  lemma AccountOnPage(users: seq<User>, search: Option<string>, order: SortOrder,
                      limit: int, offset: int, idx: int, k: int)
    requires limit >= 1 && offset >= 0 && 0 <= idx < limit && offset + idx == k
    requires k < |OrderedUsers(users, search, order)|
    ensures var r := FindAll(users, Some(limit), Some(offset), search, order);
            idx < |r| && r[idx] == View(OrderedUsers(users, search, order)[k])
  {
    var ordered := OrderedUsers(users, search, order);
    var r := FindAll(users, Some(limit), Some(offset), search, order);
    assert Take(Some(limit)) == limit && Skip(Some(offset)) == offset;
    assert |r| == Min(limit, |ordered| - offset);
    FindAllAt(users, Some(limit), Some(offset), search, order, idx);
    assert r[idx] == View(ordered[offset + idx]);
  }

  /** The listed accounts are in `DEFAULT_SORT_ORDER` of `createdAt`. */
  lemma FindAllSorted(users: seq<User>, limit: Option<int>, offset: Option<int>,
                      search: Option<string>, order: SortOrder)
    requires Take(limit) >= 0 && Skip(offset) >= 0
    ensures var r := FindAll(users, limit, offset, search, order);
            forall i, j :: 0 <= i < j < |r| ==> Before(r[i].createdAt, r[j].createdAt, order)
  {
    var r := FindAll(users, limit, offset, search, order);
    var ordered := OrderedUsers(users, search, order);
    var skip := Skip(offset);
    forall i, j | 0 <= i < j < |r|
      ensures Before(r[i].createdAt, r[j].createdAt, order)
    {
      FindAllAt(users, limit, offset, search, order, i);
      FindAllAt(users, limit, offset, search, order, j);
      OrderedUsersSorted(users, search, order);
      SortedAt(ordered, UserCreatedAt, order, skip + i, skip + j);
    }
  }

  /** Each listed account is the view of an account that the search selects. */
  lemma FindAllSelected(users: seq<User>, limit: Option<int>, offset: Option<int>,
                        search: Option<string>, order: SortOrder)
    requires Take(limit) >= 0 && Skip(offset) >= 0
    ensures var r := FindAll(users, limit, offset, search, order);
            forall i :: 0 <= i < |r| ==> exists u :: u in users && UserMatches(u, search) && r[i] == View(u)
  {
    var r := FindAll(users, limit, offset, search, order);
    forall i | 0 <= i < |r|
      ensures exists u :: u in users && UserMatches(u, search) && r[i] == View(u)
    {
      FindAllAt(users, limit, offset, search, order, i);
      OrderedUsersSelected(users, search, order);
      var u := OrderedUsers(users, search, order)[Skip(offset) + i];
      assert u in users && UserMatches(u, search) && r[i] == View(u);
    }
  }

  /** `count(search)`: the number of accounts the search selects. */
  function Count(users: seq<User>, search: Option<string>): (n: int)
    ensures 0 <= n <= |users|
    ensures !Truthy(search) ==> n == |users|
  {
    if !Truthy(search) then
      FilterAll(users, MatchesSearch(search));
      |Selected(users, search)|
    else
      |Selected(users, search)|
  }

  /** The count and the listing use the same condition: asking from position 0 for at least
      `count` accounts lists exactly `count` of them, and any page lists at most `count`. */
  lemma CountAgreesWithFindAll(users: seq<User>, limit: int, offset: int, search: Option<string>,
                               order: SortOrder)
    requires limit >= 0 && offset >= 0
    ensures |FindAll(users, Some(limit), Some(offset), search, order)| <= Count(users, search)
    ensures limit >= Count(users, search) ==>
              |FindAll(users, Some(limit), Some(0), search, order)| == Count(users, search)
  {
  }

  /** `findById(id)`: the account with that id, without its password. */
  function FindById(users: seq<User>, id: int): (r: Option<UserView>)
    ensures r.Some? ==> r.value.id == id && exists u :: u in users && u.id == id && r.value == View(u)
    ensures r.None? <==> forall u :: u in users ==> u.id != id
  {
    match UserWithId(users, id)
    case Some(u) => Some(View(u))
    case None => None
  }

  /** `findByEmail(email)`: the full account with that email. */
  function FindByEmail(users: seq<User>, email: string): (r: Option<User>)
    ensures r.Some? ==> r.value in users && r.value.email == email
    ensures r.None? <==> forall u :: u in users ==> u.email != email
  {
    UserWithEmail(users, email)
  }

  /** With unique ids and emails the lookups find exactly the account that has the key. */
  lemma LookupsFindTheAccount(users: seq<User>, u: User)
    requires UniqueAccounts(users)
    ensures FindById(users, u.id) == Some(View(u)) <== u in users
    ensures FindByEmail(users, u.email) == Some(u) <==> u in users
  {
    UserWithIdUnique(users, u);
    UserWithEmailUnique(users, u);
  }

  /** The search text "doe" selects an account whose last name is "Doe". */
  lemma SearchMatchesExample(a: User)
    requires a.lastName == "Doe"
    ensures UserMatches(a, Some("doe"))
  {
    assert Lower("Doe") == "doe";
    assert Lower("doe") == "doe";
    assert IsSubstring("doe", "doe");
  }

  /** A search text with a letter that occurs, in either case, in none of the four searched
      fields does not select the account. */
  lemma AbsentLetterExcludesUser(u: User, text: string, c: char)
    requires c in text && 'a' <= c <= 'z'
    requires var C := (c as int - 32) as char;
             && c !in u.firstName && C !in u.firstName && c !in u.lastName && C !in u.lastName
             && c !in u.email && C !in u.email && c !in u.username && C !in u.username
    ensures !UserMatches(u, Some(text))
  {
    AbsentLetterExcludes(u.firstName, text, c);
    AbsentLetterExcludes(u.lastName, text, c);
    AbsentLetterExcludes(u.email, text, c);
    AbsentLetterExcludes(u.username, text, c);
  }

  /** ... and excludes an account in none of whose searched fields a 'd' or 'D' occurs. */
  lemma SearchExcludesExample(b: User)
    requires b.firstName == "Jane" && b.lastName == "Smith" && b.email == "jane@mail.com" && b.username == "jane"
    ensures !UserMatches(b, Some("doe"))
  {
    assert 'd' in "doe" by {
      assert "doe"[0] == 'd';
    }
    assert 'd' !in "Jane" && 'D' !in "Jane";
    assert 'd' !in "Smith" && 'D' !in "Smith";
    assert 'd' !in "jane@mail.com" && 'D' !in "jane@mail.com";
    AbsentLetterExcludesUser(b, "doe", 'd');
  }

  /** The fields `create` receives. */
  datatype NewUser = NewUser(firstName: string, lastName: string, email: string, username: string,
                             password: string, role: string, status: string)

  /** The account the store is assumed to make from the data: the next id, KYC not verified,
      created and updated `now`. These column defaults belong to the database schema, which is
      not part of this model. */
  function Inserted(data: NewUser, id: int, now: Timestamp): (u: User)
    ensures u.id == id && u.email == data.email && u.username == data.username
    ensures u.firstName == data.firstName && u.lastName == data.lastName && u.password == data.password
    ensures u.role == data.role && u.status == data.status
    ensures !u.isKycVerified && u.createdAt == now && u.updatedAt == now
  {
    User(id, data.firstName, data.lastName, data.email, data.username, data.password, data.role,
         data.status, false, now, now)
  }

  /** The accounts table, the one piece of store state this core writes. */
  class UserTable {
    var users: seq<User>
    var nextId: int

    /** Keys are unique and every id is below the next one to be assigned. */
    predicate Valid()
      reads this
    {
      UniqueAccounts(users) && forall u :: u in users ==> u.id < nextId
    }

    constructor ()
      ensures Valid() && users == [] && nextId == 1
    {
      users := [];
      nextId := 1;
    }

    /** `create({ data })`: the data appended as a new account, or a failure, with the table
        unchanged, when the email or the username is taken. Unique emails and usernames, and a
        failed insert using up no id, are assumptions about the schema. */
    method Create(data: NewUser, now: Timestamp) returns (r: Result<User>)
      requires Valid()
      modifies this
      ensures Valid()
      ensures (exists u :: u in old(users) && (u.email == data.email || u.username == data.username)) ==>
                r.Failure? && users == old(users) && nextId == old(nextId)
      ensures (forall u :: u in old(users) ==> u.email != data.email && u.username != data.username) ==>
                && r == Success(Inserted(data, old(nextId), now))
                && users == old(users) + [r.value] && nextId == old(nextId) + 1
      ensures r.Success? ==> FindByEmail(users, data.email) == Some(r.value)
    {
      if exists u :: u in users && (u.email == data.email || u.username == data.username) {
        return Failure("Unique constraint failed");
      }
      var u := Inserted(data, nextId, now);
      users := users + [u];
      nextId := nextId + 1;
      r := Success(u);
      UserWithEmailUnique(users, u);
    }
  }
}
