/**
 * The checks of the transaction API views (apps/transactions/views.py):
 * creation, deletion, cancellation and the approval-progress endpoint.
 * `Wallet` applies the successful outcomes to its tables.
 */
module TransactionViews {
  import opened Wrappers
  import opened Money
  import opened Accounts
  import opened Cities
  import opened AdminPanel
  import opened Transactions
  import opened Approvals
  import opened Workflow
  import opened Refusals
  import opened TransactionSerializers
  import opened Text

  /**
   * `TransactionListView.create`: a user who is not an initiator is
   * refused before the request data is read; then the serializer checks the
   * fields (`account` must name an existing account).
   */
  function ApiCreateGate(u: User, a: Option<Account>, kind: string, amount: Cents, description: string,
                         metadata: map<string, string>): (r: Result<NewTransaction, Refusal>)
    ensures !CanCreateRequests(u) ==> r == Err(Forbidden)
    ensures r.Ok? <==> CanCreateRequests(u) && a.Some? && ValidateCreate(u, a.value, kind, amount, description, metadata).Ok?
    ensures r.Ok? ==> r == ValidateCreate(u, a.value, kind, amount, description, metadata)
  {
    if !CanCreateRequests(u) then Err(Forbidden)
    else if a.None? then Err(NotFound)
    else ValidateCreate(u, a.value, kind, amount, description, metadata)
  }

  /**
   * Only initiators get past the role check, and an initiator's role is
   * never ADMIN, so every transaction created through the API uses an
   * account of the creator's own city: the ADMIN exemption of
   * `validate_account` cannot take effect on this path.
   */
  lemma ApiCreateSameCity(u: User, a: Option<Account>, kind: string, amount: Cents, description: string,
                          metadata: map<string, string>)
    requires ApiCreateGate(u, a, kind, amount, description, metadata).Ok?
    ensures u.city == Some(a.value.city)
    ensures ApiCreateGate(u, a, kind, amount, description, metadata).value.city == u.city.value
  {
  }

  /** The transaction is in `get_user_visible_transactions(user)`. */
  predicate Visible(u: User, t: Transaction, records: seq<Approval>)
  {
    InUserCity(u, t) && VisibleByRole(u, t, records)
  }

  /**
   * `TransactionDetailView.update`: the transaction is looked up in the
   * user's visible set, then the update serializer decides; `partial` is
   * set for a PATCH and clear for a PUT.
   */
  function UpdateGate(u: User, t: Option<Transaction>, records: seq<Approval>,
                      description: Option<string>, metadata: Option<map<string, string>>, partial: bool)
    : (r: Result<Transaction, Refusal>)
    ensures t.None? || !Visible(u, t.value, records) ==> r == Err(NotFound)
    ensures r.Ok? <==> t.Some? && Visible(u, t.value, records) && t.value.status == TxStatus.Pending
                       && (partial || description.Some?)
                       && (description.Some? ==> !AllSpace(description.value) && '\0' !in description.value)
    ensures r.Ok? ==> r == ValidateUpdate(t.value, description, metadata, partial)
  {
    if t.None? || !Visible(u, t.value, records) then Err(NotFound)
    else ValidateUpdate(t.value, description, metadata, partial)
  }

  /**
   * `TransactionDetailView.destroy`: the transaction must be visible to
   * the user (it is looked up in the visible set), and only a PENDING one
   * may be deleted.
   */
  function DestroyGate(u: User, t: Option<Transaction>, records: seq<Approval>): (r: Result<Transaction, Refusal>)
    ensures r.Ok? <==> t.Some? && Visible(u, t.value, records) && t.value.status == TxStatus.Pending
    ensures t.Some? && Visible(u, t.value, records) && t.value.status != TxStatus.Pending ==> r == Err(NotPending)
    ensures r.Ok? ==> r.value == t.value
  {
    if t.None? || !Visible(u, t.value, records) then Err(NotFound)
    else if t.value.status != TxStatus.Pending then Err(NotPending)
    else Ok(t.value)
  }

  /**
   * `cancel_transaction`, in order: the transaction must exist, the user
   * must be allowed by `can_user_cancel_transaction`, and the cancel
   * serializer must accept the reason and the transaction (PENDING only).
   */
  function CancelGate(u: User, t: Option<Transaction>, records: seq<Approval>, reason: Option<string>)
    : (r: Result<Transaction, Refusal>)
    ensures t.None? ==> r == Err(NotFound)
    ensures t.Some? && !CanUserCancel(u, t.value, records) ==> r == Err(Forbidden)
    ensures r.Ok? <==> t.Some? && CanUserCancel(u, t.value, records) && CanBeCancelled(t.value)
                       && (reason.Some? ==> '\0' !in reason.value)
    ensures r.Ok? ==> r.value == t.value
  {
    if t.None? then Err(NotFound)
    else if !CanUserCancel(u, t.value, records) then Err(Forbidden)
    else match ValidateCancel(t.value, reason)
      case Err(e) => Err(e)
      case Ok(_) => Ok(t.value)
  }

  const NoReasonGiven: string := "No reason provided"

  /**
   * The reason `cancel_transaction` passes to `cancel`: the validated one,
   * which the text field has stripped and which may therefore be "", or
   * `No reason provided` when the field is absent.
   */
  function CancelReason(reason: Option<string>): (r: string)
    ensures reason.Some? ==> r == Strip(reason.value)
    ensures reason.Some? ==> (r == "" <==> AllSpace(reason.value))
    ensures reason.None? ==> r != ""
  {
    if reason.Some? then (StripEmpty(reason.value); Strip(reason.value)) else NoReasonGiven
  }

  /**
   * A reason made only of whitespace reaches `cancel` as "", so the
   * transaction is cancelled with no `cancellation_reason` in its metadata,
   * while an absent reason stores `No reason provided`.
   */
  lemma BlankReasonStoresNothing(t: Transaction, s: string)
    requires CanBeCancelled(t) && AllSpace(s)
    ensures Cancel(t, Some(CancelReason(Some(s)))) == (t.(status := TxStatus.Cancelled), true)
    ensures Cancel(t, Some(CancelReason(None))).0.metadata == t.metadata[CancellationReasonKey := NoReasonGiven]
  {
  }

  /**
   * `transaction_approval_progress`: the transaction must exist and
   * `can_user_view_transaction` must hold; then the progress of its records.
   */
  function ProgressView(u: User, t: Option<Transaction>, records: seq<Approval>, configs: seq<Config>, users: seq<User>)
    : (r: Result<Progress, Refusal>)
    requires UniqueKinds(configs)
    ensures t.None? ==> r == Err(NotFound)
    ensures r.Ok? <==> t.Some? && CanUserView(u, t.value, records)
    ensures r.Ok? ==> r.value == ApprovalProgress(records, configs, users, t.value)
  {
    if t.None? then Err(NotFound)
    else if !CanUserView(u, t.value, records) then Err(Forbidden)
    else Ok(ApprovalProgress(records, configs, users, t.value))
  }
}
