/**
 * The checks of the dashboard's form views (apps/dashboard/views.py): the
 * POST branch of `create_transaction_view` before it saves the transaction,
 * and `process_approval_view` before it calls `approve` or `reject`.
 */
module DashboardViews {
  import opened Wrappers
  import opened Money
  import opened Accounts
  import opened Cities
  import opened AdminPanel
  import opened Transactions
  import opened Approvals
  import opened Refusals

  /**
   * `Account.objects.filter(city=city).first()`: accounts are ordered by
   * `-created_at`, so this is the newest account of the city, the last one
   * of the table.
   */
  function AccountForCity(accounts: seq<Account>, city: CityId): (r: Option<nat>)
    ensures r.None? <==> forall i :: 0 <= i < |accounts| ==> accounts[i].city != city
    ensures r.Some? ==> r.value < |accounts| && accounts[r.value].city == city
                        && forall j :: r.value < j < |accounts| ==> accounts[j].city != city
  {
    if accounts == [] then None
    else if accounts[|accounts| - 1].city == city then Some(|accounts| - 1)
    else AccountForCity(accounts[..|accounts| - 1], city)
  }

  /** What the form creates: the type string as entered, the amount, the description and the account's position. */
  datatype Draft = Draft(kind: TxType, amount: Cents, description: string, account: nat)

  predicate Given(field: Option<string>)
  {
    field.Some? && field.value != ""
  }

  /**
   * The POST checks of `create_transaction_view`, in order: initiator role
   * (before any field is read), the three fields present and non-empty, the
   * amount a decimal above zero, a city, an account in that city, and for
   * the exact type string `WITHDRAWAL` a balance that covers the amount.
   * Any other type string is accepted unchecked.
   */
  function CreateGate(u: User, kind: Option<string>, amount: Option<string>, description: Option<string>,
                      accounts: seq<Account>): (r: Result<Draft, Refusal>)
    ensures !CanCreateRequests(u) ==> r == Err(Forbidden)
    ensures CanCreateRequests(u) && !(Given(kind) && Given(amount) && Given(description)) ==> r == Err(MissingFields)
    ensures r.Ok? <==>
              CanCreateRequests(u) && Given(kind) && Given(amount) && Given(description)
              && ParseAmount(amount.value).Some? && ParseAmount(amount.value).value > 0
              && u.city.Some? && AccountForCity(accounts, u.city.value).Some?
              && (kind.value == WITHDRAWAL
                  ==> CanWithdraw(accounts[AccountForCity(accounts, u.city.value).value], ParseAmount(amount.value).value))
    ensures r.Ok? ==> r.value.kind == kind.value && r.value.description == description.value
                      && r.value.amount == ParseAmount(amount.value).value > 0
                      && r.value.account == AccountForCity(accounts, u.city.value).value
  {
    if !CanCreateRequests(u) then Err(Forbidden)
    else if !(Given(kind) && Given(amount) && Given(description)) then Err(MissingFields)
    else match ParseAmount(amount.value)
      case None => Err(InvalidAmount)
      case Some(value) =>
        if value <= 0 then Err(InvalidAmount)
        else if u.city.None? then Err(NoCity)
        else match AccountForCity(accounts, u.city.value)
          case None => Err(NoAccount)
          case Some(i) =>
            if kind.value == WITHDRAWAL && !CanWithdraw(accounts[i], value) then Err(InsufficientBalance)
            else Ok(Draft(kind.value, value, description.value, i))
  }

  /** What `process_approval_view` looks up: the transaction, its account and the user's PENDING record on it. */
  datatype Target = Target(t: Transaction, acct: Account, pending: Approval)

  /**
   * The checks of `process_approval_view`: a POST, an approver-role user,
   * the transaction and the user's PENDING record on it (`found`); then for
   * `approve` the record must be processable and a WITHDRAWAL covered by the
   * account; `reject` goes straight through; any other action refuses. The
   * result is the decision to apply to the record.
   */
  function ProcessGate(u: User, isPost: bool, found: Option<Target>, action: Option<string>)
    : (r: Result<ApprovalStatus, Refusal>)
    ensures !isPost ==> r == Err(MethodNotAllowed)
    ensures isPost && !CanApproveRequests(u) ==> r == Err(Forbidden)
    ensures isPost && CanApproveRequests(u) && found.None? ==> r == Err(NotFound)
    ensures r.Ok? <==> isPost && CanApproveRequests(u) && found.Some?
                       && (action == Some("reject")
                           || (action == Some("approve") && CanBeProcessed(found.value.pending)
                               && (found.value.t.kind != WITHDRAWAL || CanWithdraw(found.value.acct, found.value.t.amount))))
    ensures r.Ok? ==> r.value == if action == Some("approve") then ApprovalStatus.Approved else ApprovalStatus.Rejected
  {
    if !isPost then Err(MethodNotAllowed)
    else if !CanApproveRequests(u) then Err(Forbidden)
    else if found.None? then Err(NotFound)
    else if action == Some("approve") then
      if !CanBeProcessed(found.value.pending) then Err(NotProcessable)
      else if found.value.t.kind == WITHDRAWAL && !CanWithdraw(found.value.acct, found.value.t.amount) then Err(InsufficientBalance)
      else Ok(ApprovalStatus.Approved)
    else if action == Some("reject") then Ok(ApprovalStatus.Rejected)
    else Err(InvalidAction)
  }
}
