/** `UserController`: the account listing behind `GET /api/v1/users` and the profile behind
    `GET /api/v1/auth/me`. */
module UserController {
  import opened Wrappers
  import opened JsNumber
  import opened Query
  import opened Records
  import opened Responses
  import UserRepository

  /** The `data` of a listing. */
  datatype UsersPage = UsersPage(users: seq<UserView>, totalCount: int, totalPages: int, currentPage: int)

  /** `limit = parseInt(limit, 10) || 10`. */
  function Limit(query: QueryString): (limit: int)
    ensures limit != 0
  {
    OrDefault(ParseParam(Param(query, "limit"), 10), 10)
  }

  /** `page = parseInt(page, 10) || 1`. */
  function PageOf(query: QueryString): (page: int)
    ensures page != 0
  {
    OrDefault(ParseParam(Param(query, "page"), 10), 1)
  }

  /** `offset = (page - 1) * limit`. */
  function Offset(query: QueryString): int {
    (PageOf(query) - 1) * Limit(query)
  }

  /** `getUsers`: a page of accounts in `order` of `createdAt` (the configured
      `DEFAULT_SORT_ORDER`), with the number of accounts and of pages. `offset / limit + 1`
      divides exactly, so integer division computes it. */
  function GetUsers(state: StoreState, query: QueryString, order: SortOrder): Response<UsersPage> {
    var limit := Limit(query);
    var offset := Offset(query);
    match state
    case Failing(error) => Fail(500, "Failed to fetch users", Some(FailureDetail(error)))
    case Available(store) =>
      if limit >= 0 && offset >= 0 then Ok(Listing(store.users, limit, offset, order), "Users fetched successfully")
      else Unspecified
  }

  /** The `data` of a listing of `limit` accounts from position `offset`. */
  function Listing(users: seq<User>, limit: int, offset: int, order: SortOrder): UsersPage
    requires limit >= 1 && offset >= 0
  {
    var count := UserRepository.Count(users, None);
    UsersPage(UserRepository.FindAll(users, Some(limit), Some(offset), None, order),
              count, CeilDiv(count, limit), offset / limit + 1)
  }

  /** A listing from a readable store: every account counts, `totalPages` is
      `Math.ceil(count / limit)` (the fewest pages of `limit` that hold them all, as `CeilDiv`
      states), and the page lists the accounts from position `offset` on. */
  lemma ListingPage(store: Store, query: QueryString, order: SortOrder)
    requires Limit(query) >= 0 && Offset(query) >= 0
    ensures var r := GetUsers(Available(store), query, order);
            && r.Ok? && r.message == "Users fetched successfully"
            && r.data.totalCount == |store.users|
            && r.data.totalPages == CeilDiv(|store.users|, Limit(query))
            && r.data.users == UserRepository.FindAll(store.users, Some(Limit(query)), Some(Offset(query)), None, order)
  {
    assert GetUsers(Available(store), query, order)
        == Ok(Listing(store.users, Limit(query), Offset(query), order), "Users fetched successfully");
  }

  /** `currentPage` is the page asked for, and the page holds at most `limit` accounts. */
  lemma ListingCurrentPage(store: Store, query: QueryString, order: SortOrder)
    requires Limit(query) >= 0 && Offset(query) >= 0
    ensures var r := GetUsers(Available(store), query, order);
            && r.Ok? && r.data.currentPage == PageOf(query) >= 1 && |r.data.users| <= Limit(query)
  {
    var limit := Limit(query);
    var page := PageOf(query);
    PagingArithmetic(page, limit);
    ListingOfPage(store.users, limit, page, order);
    assert GetUsers(Available(store), query, order)
        == Ok(Listing(store.users, limit, (page - 1) * limit, order), "Users fetched successfully");
  }

  lemma ListingOfPage(users: seq<User>, limit: int, page: int, order: SortOrder)
    requires limit >= 1 && page >= 1
    ensures (page - 1) * limit >= 0
    ensures Listing(users, limit, (page - 1) * limit, order).currentPage == page
    ensures |Listing(users, limit, (page - 1) * limit, order).users| <= limit
  {
    ProductBounds(page - 1, limit);
    ExactDivision(page - 1, limit);
  }

  /** A limit that is not negative is positive, and a non-negative offset then means a
      positive page. */
  lemma PagingArithmetic(page: int, limit: int)
    requires limit != 0 && limit >= 0 && (page - 1) * limit >= 0
    ensures limit >= 1 && page >= 1
  {
    ProductBounds(page - 1, limit);
  }

  /** A non-zero multiple of `b` is at least `b` away from 0. */
  lemma ProductBounds(a: int, b: int)
    requires b >= 1
    ensures a >= 1 ==> a * b >= b
    ensures a <= -1 ==> a * b <= -b
  {
  }

  lemma ExactDivision(q: int, b: int)
    requires b >= 1
    ensures q * b / b == q
  {
    var x := q * b;
    var r := x / b;
    var m := x % b;
    assert x == r * b + m && 0 <= m < b;
    assert (q - r) * b == m;
    ProductBounds(q - r, b);
  }

  /** A failing store answers 500 with the error's message. */
  lemma ListingFailure(error: Option<string>, query: QueryString, order: SortOrder)
    ensures GetUsers(Failing(error), query, order)
         == Fail(500, "Failed to fetch users", Some(FailureDetail(error)))
  {
  }

  /** Without parameters: ten accounts from position 0, on page 1. */
  lemma NoParamsFirstPage(query: QueryString)
    requires "limit" !in query && "page" !in query
    ensures Limit(query) == 10 && PageOf(query) == 1 && Offset(query) == 0
  {
    AbsentParamIsNaN();
  }

  /** Page `n` of `limit` starts at position `(n - 1) * limit`. */
  lemma ExplicitPaging(query: QueryString, page: int, limit: int)
    requires "page" in query && query["page"] == IntString(page) && page != 0
    requires "limit" in query && query["limit"] == IntString(limit) && limit != 0
    ensures PageOf(query) == page && Limit(query) == limit && Offset(query) == (page - 1) * limit
  {
    ParseIntDecimal(page, "");
    ParseIntDecimal(limit, "");
    assert IntString(page) + "" == IntString(page);
    assert IntString(limit) + "" == IntString(limit);
  }

  /** `getMe`: the signed-in account's profile, 404 when no account has its id. */
  function GetMe(state: StoreState, userId: int): Response<UserView> {
    match state
    case Failing(error) => Fail(500, "Failed to fetch user profile", Some(FailureDetail(error)))
    case Available(store) =>
      match UserRepository.FindById(store.users, userId)
      case None => Fail(404, "User not found", None)
      case Some(user) => Ok(user, "User profile fetched successfully")
  }

  /** The profile is found exactly when an account has the id, and it is that account without
      its password. */
  lemma ProfileOutcome(store: Store, userId: int)
    ensures GetMe(Available(store), userId) == Fail(404, "User not found", None)
            <==> forall u :: u in store.users ==> u.id != userId
    ensures GetMe(Available(store), userId).Ok? ==>
              GetMe(Available(store), userId).message == "User profile fetched successfully"
              && exists u :: u in store.users && u.id == userId && GetMe(Available(store), userId).data == View(u)
  {
  }

  /** With unique ids, a signed-in account always gets its own profile. */
  lemma OwnProfile(store: Store, u: User)
    requires UniqueAccounts(store.users) && u in store.users
    ensures GetMe(Available(store), u.id) == Ok(View(u), "User profile fetched successfully")
  {
    UserRepository.LookupsFindTheAccount(store.users, u);
  }

  /** A failing store answers 500 with the error's message. */
  lemma ProfileFailure(error: Option<string>, userId: int)
    ensures GetMe(Failing(error), userId) == Fail(500, "Failed to fetch user profile", Some(FailureDetail(error)))
  {
  }
}
