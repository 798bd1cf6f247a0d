/**
 * The records the store holds, the projections the repositories return, and the store as the
 * core sees it: three tables that a request either reads whole or fails to read.
 */
module Records {
  import opened Wrappers
  import opened Calendar

  /** An account. `role` is "ADMIN" or "USER", `status` "Active" or "Suspended". */
  datatype User = User(
    id: int,
    firstName: string,
    lastName: string,
    email: string,
    username: string,
    password: string,
    role: string,
    status: string,
    isKycVerified: bool,
    createdAt: Timestamp,
    updatedAt: Timestamp)

  /** A deposit or a withdrawal: `txId` is the `depositId` or the `withdrawId`, `userId` the
      owning account. `status` is "PENDING", "SUCCESS" or "REJECTED". */
  datatype Transaction = Transaction(
    id: int,
    txId: string,
    asset: string,
    amount: int,
    amountNett: int,
    status: string,
    userId: int,
    createdAt: Timestamp)

  /** The account fields selected for a listing or a profile: everything but the password. */
  datatype UserView = UserView(
    id: int,
    firstName: string,
    lastName: string,
    email: string,
    username: string,
    role: string,
    status: string,
    isKycVerified: bool,
    createdAt: Timestamp,
    updatedAt: Timestamp)

  /** The owner fields included with a transaction: `id`, `firstName`, `lastName`, `email`. */
  datatype UserSummary = UserSummary(id: int, firstName: string, lastName: string, email: string)

  /** The `select` of the account listing and of the profile lookup. */
  function View(u: User): UserView {
    UserView(u.id, u.firstName, u.lastName, u.email, u.username, u.role, u.status,
             u.isKycVerified, u.createdAt, u.updatedAt)
  }

  /** The sort key of `orderBy: { createdAt }`. */
  function UserCreatedAt(u: User): Timestamp {
    u.createdAt
  }

  function TxCreatedAt(t: Transaction): Timestamp {
    t.createdAt
  }

  /** The `select` of a transaction's owner. */
  function Summary(u: User): (s: UserSummary)
    ensures s.id == u.id && s.firstName == u.firstName && s.lastName == u.lastName
    ensures s.email == u.email
  {
    UserSummary(u.id, u.firstName, u.lastName, u.email)
  }

  /** Ids, emails and usernames are unique among the accounts. */
  predicate UniqueAccounts(users: seq<User>) {
    forall i, j :: 0 <= i < j < |users| ==>
      users[i].id != users[j].id && users[i].email != users[j].email
      && users[i].username != users[j].username
  }

  /** `findUnique({ where: { id } })`: the first account with that id, if any. */
  function UserWithId(users: seq<User>, id: int): (r: Option<User>)
    ensures r.Some? ==> r.value in users && r.value.id == id
    ensures r.None? ==> forall u :: u in users ==> u.id != id
  {
    if users == [] then None
    else if users[0].id == id then Some(users[0])
    else UserWithId(users[1..], id)
  }

  /** `findUnique({ where: { email } })`: the first account with that email, if any. */
  function UserWithEmail(users: seq<User>, email: string): (r: Option<User>)
    ensures r.Some? ==> r.value in users && r.value.email == email
    ensures r.None? ==> forall u :: u in users ==> u.email != email
  {
    if users == [] then None
    else if users[0].email == email then Some(users[0])
    else UserWithEmail(users[1..], email)
  }

  /** With unique ids, looking up an id finds exactly the account that has it. */
  lemma {:induction false} UserWithIdUnique(users: seq<User>, u: User)
    requires UniqueAccounts(users)
    ensures UserWithId(users, u.id) == Some(u) <==> u in users
  {
    if users != [] && users[0].id != u.id {
      assert UniqueAccounts(users[1..]) by {
        forall i, j | 0 <= i < j < |users[1..]|
          ensures users[1..][i].id != users[1..][j].id
        {
          assert users[1..][i] == users[i + 1] && users[1..][j] == users[j + 1];
        }
      }
      UserWithIdUnique(users[1..], u);
    }
  }

  /** With unique emails, looking up an email finds exactly the account that has it. */
  lemma {:induction false} UserWithEmailUnique(users: seq<User>, u: User)
    requires UniqueAccounts(users)
    ensures UserWithEmail(users, u.email) == Some(u) <==> u in users
  {
    if users != [] && users[0].email != u.email {
      assert UniqueAccounts(users[1..]) by {
        forall i, j | 0 <= i < j < |users[1..]|
          ensures users[1..][i].email != users[1..][j].email
        {
          assert users[1..][i] == users[i + 1] && users[1..][j] == users[j + 1];
        }
      }
      UserWithEmailUnique(users[1..], u);
    }
  }

  /** The three tables. */
  datatype Store = Store(users: seq<User>, deposits: seq<Transaction>, withdraws: seq<Transaction>)

  /** A request's view of the store: readable, or failing with the thrown value's message
      (`None` when the thrown value is not an `Error`). */
  datatype StoreState = Available(store: Store) | Failing(error: Option<string>)

  /** The detail a controller reports for a failure: the error's message, or "Unknown error". */
  function FailureDetail(error: Option<string>): (d: string)
    ensures error.Some? ==> d == error.value
    ensures error.None? ==> d == "Unknown error"
  {
    error.GetOr("Unknown error")
  }
}
