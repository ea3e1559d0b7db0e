/**
 * The transaction serializers of the API (apps/transactions/serializers.py):
 * field validation on creation, the fields `create` fills in, and the
 * validators of the update and cancel serializers. One refusal tag stands
 * for the serializer's error dictionary.
 */
module TransactionSerializers {
  import opened Wrappers
  import opened Money
  import opened Accounts
  import opened Cities
  import opened AdminPanel
  import opened Transactions
  import opened Refusals
  import opened Text

  /** `validate_amount`: the amount must be above zero. */
  function ValidateAmount(amount: Cents): (r: Result<Cents, Refusal>)
    ensures r.Ok? <==> amount > 0
    ensures r.Ok? ==> r.value == amount
  {
    if amount <= 0 then Err(InvalidAmount) else Ok(amount)
  }

  /** `max_digits=15, decimal_places=2`: at most 13 digits before the point. */
  predicate FitsAmountField(amount: Cents)
  {
    -1_000_000_000_000_000 < amount < 1_000_000_000_000_000
  }

  /** `validate_account`: a user whose role is not ADMIN may only use an account of their own city. */
  function ValidateAccount(u: User, a: Account): (r: Result<Account, Refusal>)
    ensures r.Ok? <==> u.role == Admin || u.city == Some(a.city)
    ensures r.Ok? ==> r.value == a
  {
    if u.role != Admin && u.city != Some(a.city) then Err(WrongCity) else Ok(a)
  }

  /** The `choices` of the model's `type` field, which the serializer enforces. */
  function ValidateType(kind: string): (r: Result<TxType, Refusal>)
    ensures r.Ok? <==> kind == DEPOSIT || kind == WITHDRAWAL
    ensures r.Ok? ==> r.value == kind
  {
    if kind == DEPOSIT || kind == WITHDRAWAL then Ok(kind) else Err(InvalidType)
  }

  /** The row `create` saves: the validated fields plus the account's city and the requesting user. */
  datatype NewTransaction = NewTransaction(
    account: AccountId,
    city: CityId,
    createdBy: UserId,
    kind: TxType,
    amount: Cents,
    description: string,
    metadata: map<string, string>)

  /**
   * A DRF `CharField` with `trim_whitespace`: a blank value (nothing but
   * whitespace) is refused unless blank is allowed, and then becomes "";
   * otherwise the value is stripped and must not hold a NUL character.
   */
  function CleanText(s: string, allowBlank: bool): (r: Result<string, Refusal>)
    ensures r.Ok? <==> if AllSpace(s) then allowBlank else '\0' !in s
    ensures r.Ok? ==> r.value == Strip(s)
    ensures r.Ok? && !allowBlank ==> r.value != "" && !IsSpace(r.value[0])
  {
    StripEmpty(s);
    if Strip(s) == "" then (if allowBlank then Ok("") else Err(MissingFields))
    else
      StripKeepsChar(s, '\0');
      if '\0' in Strip(s) then Err(NullCharacter) else Ok(Strip(s))
  }

  /**
   * `TransactionCreateSerializer`: each writable field validated (the
   * account, the type choice, the amount above zero and within the field,
   * the description as a non-blank text field), then `create` sets `city`
   * to the account's city and `created_by` to the requester; the stored
   * description is the stripped one.
   */
  function ValidateCreate(u: User, a: Account, kind: string, amount: Cents, description: string,
                          metadata: map<string, string>): (r: Result<NewTransaction, Refusal>)
    ensures r.Ok? <==> ValidateAccount(u, a).Ok? && ValidateType(kind).Ok? && ValidateAmount(amount).Ok?
                       && FitsAmountField(amount) && !AllSpace(description) && '\0' !in description
    ensures r.Ok? ==> r.value.city == a.city && r.value.createdBy == u.id && r.value.account == a.id
    ensures r.Ok? ==> r.value.kind == kind && r.value.amount == amount
                      && r.value.description == Strip(description) && r.value.metadata == metadata
  {
    if ValidateAccount(u, a).Err? then Err(WrongCity)
    else if ValidateType(kind).Err? then Err(InvalidType)
    else if ValidateAmount(amount).Err? || !FitsAmountField(amount) then Err(InvalidAmount)
    else match CleanText(description, false)
      case Err(e) => Err(e)
      case Ok(d) => Ok(NewTransaction(a.id, a.city, u.id, kind, amount, d, metadata))
  }

  /**
   * `TransactionUpdateSerializer`: `description` is required unless the
   * update is partial (a PATCH) and is cleaned as a non-blank text field;
   * then only a PENDING transaction may change. Only `description` and
   * `metadata` are written, and a field left out keeps its value; the
   * status, the reference, `executed_at` and every other field stay as
   * they are.
   */
  function ValidateUpdate(t: Transaction, description: Option<string>, metadata: Option<map<string, string>>,
                          partial: bool)
    : (r: Result<Transaction, Refusal>)
    ensures r.Ok? <==> t.status == Pending && (partial || description.Some?)
                       && (description.Some? ==> !AllSpace(description.value) && '\0' !in description.value)
    ensures r.Ok? ==> r.value.(description := t.description, metadata := t.metadata) == t
    ensures r.Ok? ==> r.value.status == t.status && r.value.reference == t.reference && r.value.executedAt == t.executedAt
    ensures r.Ok? ==> r.value.description == (if description.Some? then Strip(description.value) else t.description)
                      && r.value.metadata == (if metadata.Some? then metadata.value else t.metadata)
  {
    if description.None? && !partial then Err(MissingFields)
    else if description.Some? && CleanText(description.value, false).Err? then Err(CleanText(description.value, false).error)
    else if t.status != Pending then Err(NotPending)
    else
      Ok(t.(description := if description.Some? then Strip(description.value) else t.description,
            metadata := if metadata.Some? then metadata.value else t.metadata))
  }

  /**
   * `TransactionCancelSerializer`: the optional `reason` is a text field
   * that may be blank (it must hold no NUL character), then `validate`
   * accepts only while `can_be_cancelled` holds. The result is the
   * validated reason: absent, or stripped.
   */
  function ValidateCancel(t: Transaction, reason: Option<string>): (r: Result<Option<string>, Refusal>)
    ensures r.Ok? <==> CanBeCancelled(t) && (reason.Some? ==> '\0' !in reason.value)
    ensures r.Ok? ==> r.value == (if reason.Some? then Some(Strip(reason.value)) else None)
  {
    if reason.Some? && CleanText(reason.value, true).Err? then Err(NullCharacter)
    else if !CanBeCancelled(t) then Err(NotPending)
    else if reason.Some? then Ok(Some(Strip(reason.value)))
    else Ok(None)
  }
}
