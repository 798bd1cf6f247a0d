# Admin dashboard backend: query shaping and monthly aggregation

This project models the core of an administrative dashboard backend for a financial platform,
written in TypeScript on Express and Prisma. It covers the read side:

- **Listings.** Accounts, deposits and withdrawals are listed with paging. A search text is
  matched case-insensitively, and the categorical filters `asset` and `status` narrow the listing.
  Each request also counts every match and returns the pagination metadata.
- **Dashboard.** The metrics of one month: the IDR deposit and withdrawal totals and counts, the
  accounts registered and KYC-verified in the month, and a chart. The chart has one bucket per
  calendar day and holds that day's IDR deposit and withdrawal sums.
- **Request handlers.** They read the query string the way `parseInt` and `||` read it, call
  the repositories, and choose the success or error answer.

Each store table is a sequence of records, and each store call is a function of that sequence:

- `where` objects are a `Condition` datatype evaluated by `Holds`.
- `findMany` is `Filter`, `SortBy`, then `Slice`.
- `aggregate` and `count` are sums and lengths of the filtered records.
- `groupBy` is `GroupByCreatedAt`.

The chart is built as the source builds it: an array of `daysInMonth` points is allocated, and
two loops add each grouped row into the bucket of its day (`StatsRepository.BuildChart`).
Creating an account is a method that appends to the accounts table (`UserRepository.UserTable`).
Everything else is pure.

Failures are modelled as follows:

- A store that cannot be read is `StoreState.Failing`, carrying the thrown error's message.
- A request that hands the store arguments whose outcome the code does not determine gets the
  response `Unspecified`. This covers a negative `skip` or `take`.
- `today` (from `new Date()`) and the locale's month names (from `toLocaleString('id-ID')`) are
  parameters.

Three behaviours of the handlers are easy to miss:

- **Month range.** The month is not range-checked anywhere. `new Date(year, month - 1, 1)`
  carries month 13 into January of the next year, and a year 0..99 into 19xx. `MonthPeriod` and
  `DaysInMonth` normalise the same way, and `LeapFebruaryExamples` records one such case. The
  dashboard is defined for every integer month, not only 1..12.
- **Zero parameters.** A parameter of `0` falls back to its default, like an unparsable one,
  because of the `|| default` in the handlers. `ExplicitPaging` and `ExplicitMonth` state this.
- **Negative page or limit.** These are not treated as absent. They reach the store as a
  negative `skip` or `take`, and the model answers `Unspecified` for them.

Some definitions spell out a single source expression and have no property of their own. Each
is pinned down by the rows that use it:

- `Calendar.FullYear` is the 19xx reading of a year argument 0..99 (`NewDateExamples`).
- `Records.Summary` is the `include: { user: { select } }` projection (`TransactionQuery.ItemOwner`).
- `Records.FailureDetail` is `error instanceof Error ? error.message : 'Unknown error'`
  (`DepositController.GetDepositsOutcome` and the other failure rows).
- `Responses.Param` is `req.query.name` (`DepositController.NoParamsFirstPage`,
  `DepositController.ExplicitPaging`).
- `TransactionQuery.WithOwners` pairs each record with its owner (`TransactionQuery.FindAllAt`,
  `TransactionQuery.ItemOwner`).
- `UserRepository.Views` drops the password (`UserRepository.FindAllAt`).
- `UserRepository.Inserted` builds the new account (`UserRepository.UserTable.Create`).

## Model

| member | source | states |
|---|---|---|
| JsNumber.ParseIntDecimal | src/controllers/UserController.ts:56-57 | `parseInt(text, 10)` reads back any integer written in decimal, whatever non-digit follows it |
| JsNumber.ParseIntWithoutRadix | src/controllers/DepositController.ts:69-70 | `parseInt(text)` without a radix reads back any decimal integer, as long as a `0` is not followed by `x` |
| JsNumber.ParseIntHexPrefix | src/controllers/DepositController.ts:69-70 | without a radix, a `0x` prefix makes `parseInt` read the following digits in base 16 |
| JsNumber.ParseIntSkipsWhiteSpace | src/controllers/DepositController.ts:69-70 | leading white space never changes the number `parseInt` reads |
| JsNumber.AbsentParamIsNaN | src/controllers/DepositController.ts:69-70 | an absent parameter (read as the text `undefined`) parses to NaN with and without a radix |
| JsNumber.ParseDecimalExamples | src/controllers/UserController.ts:56 | with `|| 10`, `abc` and `0` both give the default 10, and `12x` gives 12 |
| JsNumber.ParseHexExamples | src/controllers/DepositController.ts:70 | `0x10` is 16 without a radix and 0, hence the default, with radix 10 |
| JsNumber.ParseSignExample | src/controllers/DepositController.ts:69 | a leading `-` is a sign: `-2` stays -2 and is not replaced by the default |
| JsNumber.OrDefault | src/controllers/DepositController.ts:69-70 | `parsed || fallback` is the parsed number when it is a number other than 0, and the fallback otherwise; with a non-zero fallback the result is never 0 |
| JsNumber.NatStringValue | src/repositories/StatsRepository.ts:110 | the decimal text of a day number, as the template literal writes it, reads back as that number |
| JsNumber.CeilDiv | src/repositories/DepositRepository.ts:59 | `Math.ceil(a / b)` is the least `q` with `a <= q * b` for a positive `b` (and the mirror bound for a negative `b`) |
| JsNumber.CeilDivOfCount | src/repositories/DepositRepository.ts:59 | for a count and a positive limit, the page count is not negative and is 0 exactly when the count is 0 |
| Calendar.AtOrBeforeTotal | src/repositories/DepositRepository.ts:46 | any two timestamps are ordered one way or the other |
| Calendar.AtOrBeforeTransitive | src/repositories/DepositRepository.ts:46 | the timestamp order is transitive |
| Calendar.AtOrBeforeFieldwise | src/repositories/StatsRepository.ts:19-22 | `AtOrBefore` compares year, then month, day, hour, minute, second and millisecond |
| Calendar.NewDateExamples | src/repositories/StatsRepository.ts:5-6 | `new Date(99, 12, 1)` is 1 January 2000 (year 99 read as 1999, then month 12 carried), `new Date(0, 2, 0)` is 28 February 1900, `new Date(24, 2, 0)` is 29 February 1924, and years 100 and -1 are taken as written |
| Calendar.MonthOfIndex | src/repositories/StatsRepository.ts:5 | a month index outside 0..11 carries into the year, and the result denotes the same absolute month |
| Calendar.LastDay | src/repositories/StatsRepository.ts:6 | the last day of a month is a valid date of that month |
| Calendar.NextDayPreviousDay | src/repositories/StatsRepository.ts:6 | stepping a day back and a day forward are inverse to each other |
| Calendar.MakeDate | src/repositories/StatsRepository.ts:5-6 | `new Date(year, monthIndex, day)` always denotes a valid date |
| Calendar.DayZeroIsLastDay | src/repositories/StatsRepository.ts:6 | day 0 of the next month index is the last day of the month, which is how `endDate` finds it |
| Calendar.FirstDayOfMonth | src/repositories/StatsRepository.ts:5 | `new Date(year, month - 1, 1)` is day 1 of the normalised month |
| Calendar.DaysInMonth | src/repositories/StatsRepository.ts:104 | `new Date(year, month, 0).getDate()` is the Gregorian length of the normalised month, 28..31 |
| Calendar.DaysInMonthLeapRule | src/repositories/StatsRepository.ts:104 | a month has 29 days exactly in February of a leap year, 28 exactly in February of a common year, and at least 30 otherwise |
| Calendar.LeapFebruaryExamples | src/repositories/StatsRepository.ts:104 | February 2024 has 29 days, 2023 and 1900 have 28, 2000 has 29, and month 13 of 2023 (January 2024) has 31 |
| Calendar.MonthPeriod | src/repositories/StatsRepository.ts:5-6 | the period runs from day 1 at 00:00:00.000 to the last day at 23:59:59.999 of the normalised month |
| Calendar.InMonthPeriod | src/repositories/StatsRepository.ts:19-22 | a timestamp in the period lies in the month on a day 1..daysInMonth; a valid timestamp is in the period exactly when it is in the month |
| Query.IsSubstringAt | src/repositories/DepositRepository.ts:18 | `contains` holds exactly when the text starts at some position of the field |
| Query.SubstringKeepsCharacters | src/repositories/DepositRepository.ts:18 | every character of a contained text is a character of the field |
| Query.AbsentLetterExcludes | src/repositories/DepositRepository.ts:18 | a text with a letter that occurs in neither case in the field is not contained in it, case ignored |
| Query.Filter | src/repositories/DepositRepository.ts:34-35 | the `where` selection keeps only records of the table that satisfy it, and never adds any |
| Query.FilterCounts | src/repositories/DepositRepository.ts:34-35 | each record is selected as often as it occurs when it satisfies the condition, and never otherwise |
| Query.FilterMonotone | src/repositories/DepositRepository.ts:25-31 | a stronger condition never selects more records |
| Query.FilterConcat | src/repositories/DepositRepository.ts:34-35 | filtering a concatenation is filtering each part |
| Query.FilterSkips | src/repositories/StatsRepository.ts:17-24 | a record that fails the condition can be removed from anywhere without changing the selection |
| Query.FilterNone | src/repositories/StatsRepository.ts:17-24 | when no record satisfies the condition, nothing is selected |
| Query.FilterExtensional | src/repositories/DepositRepository.ts:14-31 | conditions that agree on every record select the same records |
| Query.FilterAll | src/repositories/DepositRepository.ts:14 | the empty `where` selects the whole table, in order |
| Query.Insert | src/repositories/DepositRepository.ts:46 | inserting a record into a sorted sequence keeps it sorted and adds exactly that record |
| Query.SortBy | src/repositories/DepositRepository.ts:46 | `orderBy: { createdAt }` yields a sorted permutation of the selection |
| Query.Slice | src/repositories/DepositRepository.ts:47-48 | `skip` then `take` keeps `min(take, n - skip)` records from position `skip` on, in place |
| Records.UserWithId | src/repositories/UserRepository.ts:56-57 | `findUnique({ where: { id } })` returns an account with that id, or none when no account has it |
| Records.UserWithEmail | src/repositories/UserRepository.ts:51-53 | `findUnique({ where: { email } })` returns an account with that email, or none when no account has it |
| Records.UserWithIdUnique | src/repositories/UserRepository.ts:55-57 | with unique ids, looking up an account's id returns exactly that account |
| Records.UserWithEmailUnique | src/repositories/UserRepository.ts:51-53 | with unique emails, looking up an account's email returns exactly that account |
| TransactionQuery.SearchPartMeans | src/repositories/DepositRepository.ts:16-23 | the `OR` part holds exactly when the search, if truthy, occurs case-insensitively in the id or the owner's first name, last name or email |
| TransactionQuery.EqualsPartMeans | src/repositories/DepositRepository.ts:25-31 | an equality part holds exactly when the value, if truthy, is the field's value |
| TransactionQuery.WhereMeansMatches | src/repositories/DepositRepository.ts:14-31 | the `where` object holds for a record exactly when `Matches` does |
| TransactionQuery.WhereSelectsMatching | src/repositories/DepositRepository.ts:34-35 | the store, given that `where`, selects exactly the matching records, in table order |
| TransactionQuery.Skip | src/repositories/DepositRepository.ts:12 | `skip = (page - 1) * limit` is never negative for a positive page and limit |
| TransactionQuery.OwnerSummary | src/repositories/DepositRepository.ts:36-45 | the included user exists exactly when the owning account exists, and it is that account's summary |
| TransactionQuery.Matching | src/repositories/DepositRepository.ts:50 | every counted record is a record of the table that matches the request |
| TransactionQuery.MatchingCounts | src/repositories/DepositRepository.ts:50 | each matching record is counted as often as it occurs in the table, and no other record is counted |
| TransactionQuery.Ordered | src/repositories/DepositRepository.ts:46 | the listed order is a permutation of the matching records |
| TransactionQuery.OrderedNewestFirst | src/repositories/DepositRepository.ts:46 | the listed order is newest first |
| TransactionQuery.FindAll | src/repositories/DepositRepository.ts:11-61 | `total` counts every match, `page` and `limit` are echoed, `totalPages = ceil(total / limit)`, and the items are the newest-first matches from position `skip` on, at most `limit` of them |
| TransactionQuery.FindAllAt | src/repositories/DepositRepository.ts:46-48 | every match at a position `skip + i` with `i < limit` is on the page, as item `i`, with its owner |
| TransactionQuery.FindAllBounded | src/repositories/DepositRepository.ts:47-48 | a page holds at most `limit` items and at most `total`, and a page starting at or past `total` is empty |
| TransactionQuery.FindAllSelects | src/repositories/DepositRepository.ts:34-45 | every item is a matching record of the table carrying its owner's summary |
| TransactionQuery.FindAllNewestFirst | src/repositories/DepositRepository.ts:46 | the items of a page are newest first |
| TransactionQuery.PagePastEnd | src/repositories/DepositRepository.ts:47-59 | a page beyond the last one is empty while `total` still counts every match |
| TransactionQuery.EveryMatchOnItsPage | src/repositories/DepositRepository.ts:12 | paging loses nothing: match `k` is item `k % limit` of page `k / limit + 1` |
| TransactionQuery.MatchOnPage | src/repositories/DepositRepository.ts:12 | the match at position `k` is item `idx` of the page whose skip is `k - idx` |
| TransactionQuery.PageOfPosition | src/repositories/DepositRepository.ts:12 | position `k` lies on page `k / limit + 1`, at offset `k % limit` |
| TransactionQuery.NoFiltersSelectAll | src/repositories/DepositRepository.ts:14-31 | with no truthy `search`, `asset` or `status`, every record matches |
| TransactionQuery.SameSelectionSamePage | src/repositories/DepositRepository.ts:11-61 | two requests for the same page whose conditions select the same records get the same answer |
| TransactionQuery.EmptyParamIsAbsent | src/repositories/DepositRepository.ts:16-31 | an empty `search`, `asset` or `status` gives the same answer as an absent one (`if (search)`) |
| TransactionQuery.AssetFilterNarrows | src/repositories/DepositRepository.ts:25-27 | adding an `asset` filter never raises the count |
| TransactionQuery.ItemOwner | src/repositories/DepositRepository.ts:36-45 | with unique account ids, an item carries the summary of the account that owns it |
| DepositRepository.FindAll | src/repositories/DepositRepository.ts:4-62 | a page of deposits: the pagination; exactly `min(limit, total - skip)` items, item `i` being the newest-first match at `skip + i`; each a matching deposit with its owner; empty past the end |
| WithdrawRepository.FindAll | src/repositories/WithdrawRepository.ts:4-62 | the same for withdrawals: exact length, item `i` the newest-first match at `skip + i`, with its owner |
| UserRepository.SearchWhereMeans | src/repositories/UserRepository.ts:6-15 | the `OR` over first name, last name, email and username holds exactly when `UserMatches` does |
| UserRepository.Selected | src/repositories/UserRepository.ts:17-18 | the selection keeps only accounts of the table that the search matches |
| UserRepository.SelectedCounts | src/repositories/UserRepository.ts:17-18 | each matching account is selected as often as it occurs, and no other account is selected |
| UserRepository.SearchWhereSelects | src/repositories/UserRepository.ts:17-18 | the store, given that `where`, selects exactly the matching accounts |
| UserRepository.OrderedUsers | src/repositories/UserRepository.ts:31-33 | ordering is a permutation of the selection: every selected account is kept, as often as it is selected |
| UserRepository.OrderedUsersSelected | src/repositories/UserRepository.ts:31-33 | the ordered accounts are accounts of the table that the search selects |
| UserRepository.OrderedUsersSorted | src/repositories/UserRepository.ts:31-33 | the ordered accounts are in `DEFAULT_SORT_ORDER` of `createdAt` |
| UserRepository.FindAll | src/repositories/UserRepository.ts:5-37 | a listing holds `min(limit, total - offset)` accounts, or none from an offset at or past the total |
| UserRepository.FindAllAt | src/repositories/UserRepository.ts:34-35 | account `i` of a listing is the view of the ordered account at `offset + i` |
| UserRepository.EveryAccountOnItsPage | src/controllers/UserController.ts:58 | paging loses no account: account `k` of the ordered selection is entry `k % limit` of the listing at offset `(k / limit) * limit`, the offset of page `k / limit + 1` |
| UserRepository.AccountOnPage | src/repositories/UserRepository.ts:34-35 | the account at position `k` is entry `idx` of the listing whose offset is `k - idx`, for any `idx` below the limit |
| UserRepository.FindAllSorted | src/repositories/UserRepository.ts:31-33 | a listing is in `DEFAULT_SORT_ORDER` of `createdAt` |
| UserRepository.FindAllSelected | src/repositories/UserRepository.ts:8-18 | each listed account is the view of an account of the table that the search selects |
| UserRepository.Count | src/repositories/UserRepository.ts:73-85 | the count is at most the number of accounts, and all of them without a truthy search |
| UserRepository.CountAgreesWithFindAll | src/repositories/UserRepository.ts:5-37 | no listing holds more than the count, and a listing from 0 with a limit of at least the count holds exactly the count |
| UserRepository.FindById | src/repositories/UserRepository.ts:55-71 | the profile is the view of an account with that id, and is absent exactly when no account has the id |
| UserRepository.FindByEmail | src/repositories/UserRepository.ts:51-53 | the full account with that email, absent exactly when no account has it |
| UserRepository.LookupsFindTheAccount | src/repositories/UserRepository.ts:51-71 | with unique keys, each lookup finds exactly the account that has the key |
| UserRepository.SearchMatchesExample | src/repositories/UserRepository.ts:9-14 | the search `doe` selects an account whose last name is `Doe` |
| UserRepository.AbsentLetterExcludesUser | src/repositories/UserRepository.ts:9-14 | a search with a letter found, in neither case, in any of the four fields does not select the account |
| UserRepository.SearchExcludesExample | src/repositories/UserRepository.ts:9-14 | the search `doe` does not select Jane Smith, jane@mail.com, `jane` |
| UserRepository.UserTable.constructor | src/repositories/UserRepository.ts:39-49 | the table starts empty and valid, with the next id 1 |
| UserRepository.UserTable.Create | src/repositories/UserRepository.ts:39-49 | under the schema assumptions listed below: a taken email or username fails and changes nothing; otherwise the account is appended with the next id, the keys stay unique, and its email finds it |
| StatsRepository.Scoped | src/repositories/StatsRepository.ts:17-24 | the aggregated records are IDR records of the table created in the period |
| StatsRepository.AggregateMeans | src/repositories/StatsRepository.ts:17-31 | `_count` is the number of records, and `_sum` is null exactly when there is none and is otherwise their total |
| StatsRepository.VerifiedAtMostRegistered | src/repositories/StatsRepository.ts:52-70 | the KYC-verified count never exceeds the registered count |
| StatsRepository.CountedAccounts | src/repositories/StatsRepository.ts:52-70 | the registered accounts were created in the period, and the verified ones are also KYC-verified |
| StatsRepository.AddToGroupsSum | src/repositories/StatsRepository.ts:73-85 | grouping in one more record adds its amount to every sum that selects its date |
| StatsRepository.AddToGroupsKeys | src/repositories/StatsRepository.ts:73-74 | grouping in one more record adds its date to the groups' keys |
| StatsRepository.AddToGroupsDistinct | src/repositories/StatsRepository.ts:73-74 | grouping keeps one row per `createdAt` |
| StatsRepository.GroupByKeys | src/repositories/StatsRepository.ts:73-74 | `groupBy createdAt` returns one row for each distinct `createdAt` of the records, and no other |
| StatsRepository.GroupBySums | src/repositories/StatsRepository.ts:82-84 | any sum over the grouped rows equals the same sum over the records |
| StatsRepository.RowOfKey | src/repositories/StatsRepository.ts:73-74 | with distinct keys, the sum that selects one row's date is that row's own sum |
| StatsRepository.GroupSum | src/repositories/StatsRepository.ts:73-85 | the row of a `createdAt` holds the total amount of the records created at that instant |
| StatsRepository.BuildChart | src/repositories/StatsRepository.ts:107-131 | the array and its two loops produce `ChartSpec`: bucket `i` is labelled `${i+1} ${monthName}` and holds the sums of the rows dated on day `i + 1`; rows with no bucket are skipped |
| StatsRepository.ColumnsSumDays | src/repositories/StatsRepository.ts:107-131 | a chart column adds up to the rows dated on days `1..n` |
| StatsRepository.OutOfRangeRowIgnored | src/repositories/StatsRepository.ts:121 | a row whose day has no bucket changes no bucket |
| StatsRepository.RowsSumPermutation | src/repositories/StatsRepository.ts:119-131 | the order of the grouped rows does not change any sum |
| StatsRepository.ChartIgnoresRowOrder | src/repositories/StatsRepository.ts:119-131 | the chart does not depend on the order in which `groupBy` returns its rows |
| StatsRepository.GetDashboardMetrics | src/repositories/StatsRepository.ts:4-142 | the method computes `DashboardSpec`: totals with `|| 0`, counts, both user counts, and the chart over `daysInMonth` buckets |
| StatsRepository.ChartHasEveryDay | src/repositories/StatsRepository.ts:104-114 | the chart has exactly `daysInMonth` buckets, in day order, each named `${day} ${monthName}` |
| StatsRepository.ChartBucket | src/repositories/StatsRepository.ts:119-131 | each bucket holds the total amount of that day's IDR deposits and withdrawals of the month |
| StatsRepository.TxSumAgree | src/repositories/StatsRepository.ts:17-24 | selections that agree on every record give the same sum |
| StatsRepository.ScopedSumIsDaysSum | src/repositories/StatsRepository.ts:104-131 | every scoped record of the month falls on a day that has a bucket |
| StatsRepository.ColumnsMatchTotals | src/repositories/StatsRepository.ts:119-136 | the deposit column adds up to `totalDeposit` and the withdraw column to `totalWithdraw`: nothing is counted twice and no day is left out |
| StatsRepository.CountsOfTheMonth | src/repositories/StatsRepository.ts:133-139 | the counts are the numbers of the month's IDR records, and no more accounts are verified than registered |
| StatsRepository.OutOfScopeIgnored | src/repositories/StatsRepository.ts:17-24 | a record in another asset or outside the period changes no metric, wherever it sits in its table |
| StatsRepository.OtherAssetIgnored | src/repositories/StatsRepository.ts:23 | a deposit that is not IDR (for example BTC) is not in the totals, the counts or the chart |
| StatsRepository.QuietMonth | src/repositories/StatsRepository.ts:133-141 | a month without IDR records or registrations shows zeros everywhere, chart included |
| StatsRepository.FebruaryChart | src/repositories/StatsRepository.ts:104-107 | February 2024 has a 29-bucket chart and February 2023 a 28-bucket one |
| StatsRepository.SingleDepositOnDay15 | src/repositories/StatsRepository.ts:119-134 | a lone IDR deposit on day 15 is the month's deposit total and sits in bucket 14 alone |
| DepositController.DepositParams | src/controllers/DepositController.ts:69-81 | page and limit are never 0, and `search`, `asset` and `status` are forwarded as given |
| DepositController.GetDepositsOutcome | src/controllers/DepositController.ts:67-92 | a failing store answers 500 `Failed to retrieve deposits` with the error's message; a readable one answers the page with `Deposits retrieved successfully` |
| DepositController.NoParamsFirstPage | src/controllers/DepositController.ts:69-81 | with no parameters, the answer is page 1 of 10 deposits, unfiltered |
| DepositController.ExplicitPaging | src/controllers/DepositController.ts:69-70 | a decimal page and limit are used as written, and `0` falls back to 1 and 10 |
| WithdrawController.WithdrawParams | src/controllers/WithdrawController.ts:69-81 | the same parameters for withdrawals |
| WithdrawController.GetWithdrawsOutcome | src/controllers/WithdrawController.ts:67-92 | a failing store answers 500 `Failed to retrieve withdraws`; a readable one answers the page with `Withdraws retrieved successfully` |
| WithdrawController.NoParamsFirstPage | src/controllers/WithdrawController.ts:69-81 | with no parameters, the answer is page 1 of 10 withdrawals, unfiltered |
| WithdrawController.ExplicitPaging | src/controllers/WithdrawController.ts:69-70 | a decimal page and limit are used as written, and `0` falls back to 1 and 10 |
| UserController.Limit | src/controllers/UserController.ts:56 | the limit is never 0 |
| UserController.PageOf | src/controllers/UserController.ts:57 | the page is never 0 |
| UserController.ListingPage | src/controllers/UserController.ts:58-75 | a readable store answers `Users fetched successfully`; `totalCount` counts every account, `totalPages = ceil(count / limit)`, and the users are the listing from `offset` |
| UserController.ListingCurrentPage | src/controllers/UserController.ts:58-72 | `currentPage = offset / limit + 1` is the page asked for, and the page holds at most `limit` accounts |
| UserController.ListingOfPage | src/controllers/UserController.ts:58-72 | for page `n` of `limit`, the listing starts at `(n - 1) * limit` and `currentPage` is `n` |
| UserController.PagingArithmetic | src/controllers/UserController.ts:56-58 | a limit that is not negative is positive, and a non-negative offset then means a positive page |
| UserController.ListingFailure | src/controllers/UserController.ts:76-83 | a failing store answers 500 `Failed to fetch users` with the error's message |
| UserController.NoParamsFirstPage | src/controllers/UserController.ts:56-58 | with no parameters, the limit is 10, the page 1 and the offset 0 |
| UserController.ExplicitPaging | src/controllers/UserController.ts:56-58 | a decimal page and limit other than 0 are used as written, and the offset is `(page - 1) * limit` |
| UserController.ProfileOutcome | src/controllers/UserController.ts:110-119 | the answer is 404 `User not found` exactly when no account has the id; otherwise it is that account without its password |
| UserController.OwnProfile | src/controllers/UserController.ts:112-119 | with unique ids, a signed-in account gets its own profile with `User profile fetched successfully` |
| UserController.ProfileFailure | src/controllers/UserController.ts:120-127 | a failing store answers 500 `Failed to fetch user profile` with the error's message |
| StatsController.DashboardOutcome | src/controllers/StatsController.ts:35-51 | a readable store answers `Dashboard statistics fetched successfully` with a chart of `daysInMonth` buckets whose columns add up to the totals; a failing one answers 500 `Failed to fetch dashboard statistics` |
| StatsController.NoParamsThisMonth | src/controllers/StatsController.ts:37-38 | without parameters, the month and the year are today's |
| StatsController.ExplicitMonth | src/controllers/StatsController.ts:37-38 | a decimal month and year are used as written, unchecked, and `0` falls back to today's |

## Left out

- Parsing: `Number` values are unbounded integers. Floating-point amounts, `parseInt` results
  beyond 2^53, and `Infinity` are not modelled.
- Timezones: timestamps are already split into local calendar fields. The store and the
  `getDate()` in the chart loops are assumed to use the same calendar.
- `Promise.all`: the model has no concurrency. The six aggregate queries, and the listing and
  its count, all read the same snapshot of the store.
- Store internals: the connection, transactions and error codes of Prisma are not modelled.
  A failing call is a `Failing` store state with an optional message.
- Prisma `skip` and `take` below 0 are not modelled. Neither the repositories nor the handlers
  check for them, and the store decides what they mean. The handlers answer `Unspecified` for
  them.
- Case folding: `mode: 'insensitive'` is modelled as ASCII case folding. The database's Unicode
  collation is not modelled.
- Sort ties: records with equal `createdAt` may come in any order in the store, and `createdAt`
  is not a unique key (the seeds put many records at midnight of the same day). `SortBy` fixes
  one stable order. Every property of a single request holds for any sorted permutation.
- TransactionQuery.EveryMatchOnItsPage, UserRepository.EveryAccountOnItsPage,
  TransactionQuery.SameSelectionSamePage and TransactionQuery.EmptyParamIsAbsent compare two
  separate requests. They assume the store breaks `createdAt` ties the same way in every
  request, which it does not promise. Under `LIMIT`/`OFFSET` with tied keys, a record may show
  up on two pages or on none.
- `DEFAULT_SORT_ORDER` (from `src/constants`, which is not part of this model) is a parameter,
  `order`.
- Locale: `toLocaleString('id-ID', { month: 'short' })` is the parameter `monthName`.
- `new Date()` in the stats handler is the parameter `today`.
- The withdrawal aggregate's `_sum.amountNett` is fetched but never used, so it is not modelled.
- The HTTP envelope (`src/utils/ApiResponse.ts`), Express routing, and the authentication
  middleware that sets `req.user` are not part of this model. `getMe` receives the id.
- Query string values that are arrays (`?page=1&page=2`) are not modelled. Each parameter is
  one text value.
- `create`: the database schema is not part of this model, so its behaviour is assumed. The
  model assumes these schema defaults: the next id, `isKycVerified = false` (the seeds always
  set the flag explicitly), and `createdAt` and `updatedAt` set to the clock, passed in as the
  parameter `now`.
- `create`: the model assumes unique emails and usernames (`UniqueAccounts`). In the source,
  only `id` and `email` are visibly unique, because `findUnique` needs a unique key.
- `create`: the model assumes a failed insert uses up no id. An autoincrement sequence may skip
  values instead.
- `create`: uniqueness failures carry a fixed message instead of Prisma's.
- `prisma/seed.ts` is not part of this model.
- `status` and `asset` are modelled as free strings compared for equality. An unknown value
  gives an empty page. If the database column is an enum (the API docs at `src/controllers/DepositController.ts:43` list `PENDING`,
  `SUCCESS` and `REJECTED` for `status`), Prisma would reject an unknown value and the handler
  would answer 500 instead.
- StatsController.DashboardOutcome (and StatsController.GetDashboardStats): dates outside the
  range of JavaScript's `Date` are not modelled. That range runs from April of year -271821 to
  September of year 275760. Outside it, `new Date(year, month - 1, 1)` is an Invalid Date. The store would
  reject it and the handler would answer 500, and `getDate()` would give NaN and an empty chart.
  The model treats every integer year as a calendar year and answers with a 28..31-day chart.
- UserController.ListingPage: `totalPages` is stated as `CeilDiv(count, limit)`. The bounds that
  make it the fewest pages holding every account are `CeilDiv`'s own contract, not repeated in
  the lemma.
