/** `DepositController.getDeposits`: the deposit listing behind `GET /api/v1/deposits`. */
module DepositController {
  import opened Wrappers
  import opened JsNumber
  import opened Records
  import opened TransactionQuery
  import opened Responses
  import DepositRepository

  /** `page = parseInt(page) || 1`, `limit = parseInt(limit) || 10` (no radix, so `0x` is
      read as hexadecimal); `search`, `asset` and `status` are passed on as given. */
  function DepositParams(query: QueryString): (p: FindAllParams)
    ensures PageNumber(p) != 0 && PageSize(p) != 0
    ensures p.search == Param(query, "search") && p.asset == Param(query, "asset")
    ensures p.status == Param(query, "status")
  {
    FindAllParams(
      Some(OrDefault(ParseParam(Param(query, "page"), NoRadix), 1)),
      Some(OrDefault(ParseParam(Param(query, "limit"), NoRadix), 10)),
      Param(query, "search"),
      Param(query, "asset"),
      Param(query, "status"))
  }

  function GetDeposits(state: StoreState, query: QueryString): Response<Page> {
    var p := DepositParams(query);
    match state
    case Failing(error) => Fail(500, "Failed to retrieve deposits", Some(FailureDetail(error)))
    case Available(store) =>
      if PageNumber(p) >= 1 && PageSize(p) >= 1 then
        Ok(DepositRepository.FindAll(store, p), "Deposits retrieved successfully")
      else Unspecified
  }

  /** A failing store answers 500 with the error's message; a readable store with positive
      page and limit answers with that page of deposits. */
  lemma GetDepositsOutcome(state: StoreState, query: QueryString)
    ensures var p := DepositParams(query);
            match state
            case Failing(error) =>
              GetDeposits(state, query) == Fail(500, "Failed to retrieve deposits", Some(FailureDetail(error)))
            case Available(store) =>
              PageNumber(p) >= 1 && PageSize(p) >= 1 ==>
                GetDeposits(state, query) == Ok(DepositRepository.FindAll(store, p), "Deposits retrieved successfully")
  {
  }

  /** Without parameters, the first page of ten deposits, unfiltered. */
  lemma NoParamsFirstPage(store: Store)
    ensures GetDeposits(Available(store), map[])
         == Ok(DepositRepository.FindAll(store, FindAllParams(Some(1), Some(10), None, None, None)),
               "Deposits retrieved successfully")
  {
    AbsentParamIsNaN();
  }

  /** A decimal page and limit are read as written; `0` falls back to the default. */
  lemma ExplicitPaging(query: QueryString, page: int, limit: int)
    requires "page" in query && query["page"] == IntString(page)
    requires "limit" in query && query["limit"] == IntString(limit)
    ensures PageNumber(DepositParams(query)) == if page == 0 then 1 else page
    ensures PageSize(DepositParams(query)) == if limit == 0 then 10 else limit
  {
    ParseIntWithoutRadix(page, "");
    ParseIntWithoutRadix(limit, "");
    assert IntString(page) + "" == IntString(page);
    assert IntString(limit) + "" == IntString(limit);
  }
}
