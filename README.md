# Municipal Wallet: approval workflow

This project models the core of the Municipal Wallet, a Django application. In it,
initiators in a city request deposits to and withdrawals from the city's account.
Approvers assigned to each transaction type approve or reject those requests. Once
enough approvals are in, the transaction executes against the account balance. An
administrator manages who approves which type and how many approvals each type needs.

The database is one object, `MunicipalWallet.Wallet`. It holds these tables as
sequences of rows, plus a primary-key counter for each:

- users;
- accounts;
- transactions;
- approval records (`RequestApproval`);
- approver assignments;
- approval configurations.

Every view and model method that writes is a method of that class. Its `modifies`
clause names only the tables it changes. Its `ensures` gives the new tables as a
function of the old ones. The class invariant `Valid()` keeps keys and references
consistent:

- primary keys increase and stay below their counters;
- every transaction names an existing account;
- every approval record names an existing transaction;
- each (transaction, approver) pair has at most one record;
- each (type, approver) pair has at most one assignment;
- each type has at most one configuration.

The decision logic lives in pure modules, one per source file:

- `Accounts`: roles, approval levels, role lookups, the user manager and `ensure_single_user_per_role`;
- `Cities`: balance checks, deposit and withdraw;
- `Transactions`: reference generation, execute and cancel;
- `Approvals`: approve and reject on one record;
- `AdminPanel`: assignment queries and the required-approvals lookup;
- `AdminViews`: the admin views and `init_approval_config`;
- `Workflow`: the progress count, the status recheck, approver resolution and the permission checks;
- `TransactionSerializers`;
- `ApprovalViews`, `DashboardViews` and `TransactionViews`: the request gates of the three view files;
- `Notifications`;
- `Audit`.

Other modelling choices:

- Money amounts are integers of cents (`Money`).
- `Digits` models the decimal text used for references and amounts.
- `Text` models Python's `str.strip()` and ASCII lower-casing, which the serializers' text fields and `normalize_email` apply.
- Times are an integer `now` that the caller passes in.
- Transaction types and status strings are compared as text, as the source does.

## Model

| member | source | states |
|---|---|---|
| Accounts.ApproverRole | apps/accounts/models.py:35-42 | levels 1..5 name the five approver roles of `ROLE_CHOICES`, none of them INITIATOR |
| Accounts.FullName | apps/accounts/models.py:77-79 | the first name, one space, the last name, each recoverable from the result |
| Accounts.CanApproveRequests | apps/accounts/models.py:85-87 | holds exactly for the five approver roles, and an approver can never create requests |
| Accounts.ApprovalLevel | apps/accounts/models.py:89-101 | a level exists iff the user can approve, and that level's role is the user's role |
| Accounts.GetUserByRole | apps/accounts/models.py:103-112 | nothing iff no active user holds the role; otherwise the first active holder in table order |
| Accounts.LastIndex | apps/accounts/models.py:12 | the last position of the character, found iff it occurs, with no occurrence after it (`rsplit(c, 1)`) |
| Accounts.NormalizeEmail | apps/accounts/models.py:12 | an email without `@` is kept as it was; otherwise the stripped email with everything after its last `@` lower-cased and everything up to it kept |
| Accounts.NormalizeIdempotent | apps/accounts/models.py:12 | normalizing a normalized email changes nothing |
| Accounts.CreateUserCheck | apps/accounts/models.py:9-16 | creation is refused exactly when the email is empty; otherwise the user gets the normalized email |
| Accounts.CreateSuperuserCheck | apps/accounts/models.py:18-28 | succeeds iff staff and superuser are not explicitly false and the email is given; the result is staff, superuser and ADMIN by default; each refusal names the flag at fault |
| Accounts.DeactivateSurplus | apps/accounts/models.py:128-131 | every active holder of the role after the first is deactivated; every other row is unchanged |
| Accounts.DeactivateSurplusCount | apps/accounts/models.py:128-131 | afterwards at most one active holder remains, and one does if there was any |
| Accounts.DeactivateSurplusOthers | apps/accounts/models.py:128-131 | the active count of every other role is unchanged |
| Accounts.EnsureRole | apps/accounts/models.py:118-131 | a pass for one role fails iff the role has no active holder and its default email is taken; a role with exactly one holder is left as it is |
| Accounts.EnsureRoleCounts | apps/accounts/models.py:118-131 | after a successful pass the role has exactly one active holder, and every other role keeps its count |
| Accounts.EnsureRolesCounts | apps/accounts/models.py:114-131 | when no pass fails, every role passed has exactly one active holder and other roles keep their counts |
| Accounts.EnsureRolesFailure | apps/accounts/models.py:114-131 | a failure names a role of the list that has no active holder and whose default email is taken |
| Accounts.EnsureRolesRows | apps/accounts/models.py:114-131 | user keys stay below the counter, and existing users are at most deactivated, never removed or otherwise changed |
| Accounts.EnsureRolesAdded | apps/accounts/models.py:119-127 | every row added is the default user of one of the roles passed |
| Accounts.SingleUserPerRole | apps/accounts/models.py:114-131 | on success every role of `ROLE_CHOICES` has exactly one active user |
| Accounts.AdminHoldersKept | apps/accounts/models.py:114-131 | on success the number of active ADMIN users is unchanged, since ADMIN is not in the list |
| Accounts.SyncRoles | apps/accounts/models.py:114-131 | the loop over the roles computes exactly the passes of `EnsureRoles`, and keeps keys below the counter |
| Accounts.SyncRole | apps/accounts/models.py:116-131 | one loop turn computes exactly `EnsureRole` |
| Cities.CityFullName | apps/cities/models.py:26-30 | name, state and country separated by ", ", with the state only when it is set |
| Cities.CityLabel | apps/cities/models.py:23-24 | name, then the state or else the country; equals the full name when there is no state |
| Cities.Credit | apps/cities/models.py:66-69 | the balance grows by exactly the amount and nothing else changes |
| Cities.Debit | apps/cities/models.py:71-77 | succeeds iff `can_withdraw`; the balance then drops by exactly the amount and stays non-negative; otherwise nothing changes |
| Cities.DepositThenWithdraw | apps/cities/models.py:66-77 | a withdrawal of what was just deposited succeeds and restores the account |
| Digits.ShowRoundTrip | apps/transactions/models.py:74 | reading back the decimal text of a number gives the number |
| Digits.ZeroPadRoundTrip | apps/transactions/models.py:74-81 | `int(f"{n:06d}") == n` for every width |
| Digits.LeadingZeros | apps/transactions/models.py:80-81 | leading zeros do not change the value read back |
| Money.FormatRoundTrip | apps/notifications/models.py:88 | `str` of a two-place amount reads back as the same amount |
| Money.NonNegativeRoundTrip | apps/notifications/models.py:88 | as above, for amounts of zero or more |
| Money.NegativeRoundTrip | apps/notifications/models.py:88 | as above, for negative amounts |
| Money.UnsignedRoundTrip | apps/notifications/models.py:88 | units, a point and two fraction digits read back as the same number of cents |
| Transactions.Prefix | apps/transactions/models.py:60 | DEP for deposits and WTH otherwise, three characters with no dash |
| Transactions.MaxSuffixIsMax | apps/transactions/models.py:63-77 | the loop's `max_num` bounds every parseable suffix under the prefix, and is one of them unless it is 0 |
| Transactions.NextReferenceReadsBack | apps/transactions/models.py:79-81 | the new reference starts with the prefix and a dash, and its suffix reads back as `max_num + 1` |
| Transactions.NextReferenceFresh | apps/transactions/models.py:57-81 | the new reference's suffix is above every parseable suffix in use, so it equals no existing reference |
| Transactions.SuffixOfFormatted | apps/transactions/models.py:72-81 | a reference formatted from `n` is read back by the loop's parse as `n` |
| Transactions.FirstDepositReference | apps/transactions/models.py:57-81 | with no earlier references the first deposit gets `DEP-000001` |
| Transactions.GenerateReference | apps/transactions/models.py:57-81 | the loop over existing references returns exactly `NextReference` |
| Transactions.ReferenceOnSave | apps/transactions/models.py:52-55 | a reference is generated only when the field is empty, and after saving it is never empty |
| Transactions.Execute | apps/transactions/models.py:91-105 | succeeds iff the transaction is APPROVED and is a deposit or a withdrawal the balance covers; it then becomes EXECUTED at `now`, a deposit credits and a withdrawal debits exactly the amount; otherwise nothing changes |
| Transactions.ExecuteInsufficientWithdrawal | apps/transactions/models.py:98-100 | an uncovered withdrawal stays APPROVED and the balance is untouched |
| Transactions.Cancel | apps/transactions/models.py:107-116 | succeeds iff PENDING; the status becomes CANCELLED and a non-empty reason is stored under `cancellation_reason`; otherwise nothing changes |
| Approvals.NewApproval | apps/approvals/models.py:17 | a new record is PENDING with no comments and no decision time |
| Approvals.Decide | apps/approvals/models.py:29-79 | goes through iff the record is PENDING and no other record of its pair is decided; the record then takes the status, the comments and `now`; otherwise it is unchanged |
| Approvals.UniqueMeansNotDecidedElsewhere | apps/approvals/models.py:35-42 | with one record per (transaction, approver) the defensive duplicate check never fires |
| Approvals.DecisionIsFinal | apps/approvals/models.py:31-32 | a second approve or reject on a decided record is refused and changes nothing |
| AdminPanel.LexTotal | apps/admin_panel/models.py:40 | the username order is total |
| AdminPanel.LexTrans | apps/admin_panel/models.py:40 | the username order is transitive |
| AdminPanel.Insert | apps/admin_panel/models.py:51 | insertion keeps every row and adds the new one (as a multiset) |
| AdminPanel.InsertSorted | apps/admin_panel/models.py:51 | insertion into a list sorted by username keeps it sorted |
| AdminPanel.SortByUsername | apps/admin_panel/models.py:51 | the result is a permutation of the input, sorted by approver username |
| AdminPanel.SelectRows | apps/admin_panel/models.py:48-50 | exactly the rows of the type, and only the active ones when asked |
| AdminPanel.ApproversFor | apps/admin_panel/models.py:46-51 | `get_approvers_for_transaction_type`: exactly the selected rows, as a permutation of the filter's result, ordered by approver username |
| AdminPanel.SelectRowsDistinct | apps/admin_panel/models.py:37 | with `unique_together` the active approvers of a type are distinct users |
| AdminPanel.PermutationDistinct | apps/admin_panel/models.py:51 | reordering rows keeps their approvers distinct |
| AdminPanel.ApproversForDistinct | apps/admin_panel/models.py:37-51 | the ordered approvers of a type are distinct users |
| AdminPanel.RequiredApproversCount | apps/admin_panel/models.py:53-56 | equals the number of active assignments of the type |
| AdminPanel.ConfigIndex | apps/admin_panel/models.py:85-89 | finds the configuration row of a type iff there is one |
| AdminPanel.RequiredApprovals | apps/admin_panel/models.py:108-116 | the active configuration's count, or else 3 for DEPOSIT and 5 for any other type |
| AdminPanel.SetRequired | apps/admin_panel/views.py:240-247 | `get_or_create` then `required_approvals = n`: the type's row gets count `n` (its active flag kept), a missing row is appended active, other rows are untouched and types stay unique |
| AdminPanel.SetRequiredIdempotent | apps/admin_panel/views.py:240-247 | writing the same count twice equals writing it once |
| AdminPanel.SetRequiredLookup | apps/admin_panel/models.py:108-116 | after the write the lookup returns the new count, except that an existing inactive row still yields the default |
| AdminPanel.SetRequiredOtherKind | apps/admin_panel/models.py:108-116 | writing one type never changes the count looked up for another |
| AdminPanel.AvailableApprovers | apps/admin_panel/views.py:25-35 | exactly the active approver-role users without an active assignment of the type |
| AdminPanel.Candidates | apps/transactions/utils.py:108-111 | exactly the active approver-role users outside the excluded ids, in table order |
| AdminPanel.WithRole | apps/admin_panel/views.py:25-28 | exactly the users holding the role |
| AdminPanel.ByRole | apps/admin_panel/views.py:28 | `order_by('role')` keeps exactly the same users |
| AdminViews.PairIndex | apps/admin_panel/views.py:77-81 | finds the row of a (type, approver) pair iff the pair has one |
| AdminViews.AssignmentIndex | apps/admin_panel/views.py:140 | finds the row with that primary key iff there is one |
| AdminViews.CountAppend | apps/admin_panel/views.py:89-99 | appending a row adds its weight (1 if active and of the type) to the active count |
| AdminViews.CountUpdate | apps/admin_panel/views.py:83-99 | replacing a row changes the active count by the difference of the two rows' weights |
| AdminViews.CountRemove | apps/admin_panel/views.py:145-151 | deleting a row takes its weight off the active count |
| AdminViews.AssignedExactlyOne | apps/admin_panel/views.py:77-93 | after an assign the pair has exactly one row and it is active (an existing row is reused, never duplicated); every other row stays and nothing else is added |
| AdminViews.AssignedCount | apps/admin_panel/views.py:77-99 | an assign raises the type's active count by one unless the pair was already active |
| AdminViews.RemovedExactlyOne | apps/admin_panel/views.py:140-145 | deletion removes exactly the row with that primary key and keeps every other row |
| AdminViews.Toggled | apps/admin_panel/views.py:187-189 | the row at the index has its active flag flipped and nothing else changed; every other row stays |
| AdminViews.ToggleTwice | apps/admin_panel/views.py:187-189 | toggling the same row twice restores the table |
| AdminViews.ToggleCount | apps/admin_panel/views.py:187-197 | a toggle moves its type's active count by exactly one, in the direction of the flip |
| AdminViews.Resync | apps/admin_panel/views.py:95-107 | afterwards the type's configuration equals its active assignment count (created active when missing), other types' rows are unchanged, and types stay unique |
| AdminViews.SyncedKept | apps/admin_panel/views.py:147-159 | resyncing one type keeps another type in sync |
| AdminViews.SetRequiredNoop | apps/admin_panel/views.py:101-107 | writing the count a row already has changes nothing |
| AdminViews.InitConfigs | apps/admin_panel/management/commands/init_approval_config.py:8-43 | the command keeps one configuration per type |
| AdminViews.InitConfigsSynced | apps/admin_panel/management/commands/init_approval_config.py:8-43 | after the command both DEPOSIT and WITHDRAWAL are in sync with their active counts |
| AdminViews.InitConfigsIdempotent | apps/admin_panel/management/commands/init_approval_config.py:8-43 | running the command twice gives the same configurations as running it once |
| AdminViews.AssignCheck | apps/admin_panel/views.py:66-75 | passes iff both fields are non-empty and the user exists (any role); a missing field is refused before the lookup |
| AdminViews.UpdateConfigCheck | apps/admin_panel/views.py:225-238 | passes iff the type is given and the count is an integer in 1..5; a missing count is a server error, a zero count is a missing field, and any other count is out of range |
| Text.LeadingSpace | apps/transactions/serializers.py:66 | the whitespace run at the start, followed by a non-space character or the end |
| Text.TrailingSpace | apps/transactions/serializers.py:66 | the whitespace run at the end, preceded by a non-space character or the start |
| Text.Strip | apps/transactions/serializers.py:66 | the middle of the text with only whitespace around it; a non-empty result starts and ends with a non-space character |
| Text.StripEmpty | apps/transactions/serializers.py:66 | the text strips to nothing iff it is all whitespace |
| Text.StripKeepsChar | apps/transactions/serializers.py:66 | a character that is not whitespace is in the stripped text iff it is in the text |
| Text.StripIdempotent | apps/transactions/serializers.py:66 | stripping twice strips nothing more |
| Text.Lower | apps/accounts/models.py:12 | same length, each ASCII capital lowered and every other character kept |
| Workflow.RecordsOf | apps/transactions/utils.py:22 | exactly the records of the transaction |
| Workflow.CountPositive | apps/transactions/utils.py:23-25 | a status count is positive iff some record has that status |
| Workflow.CountsAddUp | apps/transactions/utils.py:23-26 | the approved, rejected and pending counts add up to the number of records |
| Workflow.ApprovedCountGrows | apps/transactions/utils.py:23 | approving one PENDING record of a transaction raises its approved count by exactly one |
| Workflow.NamesWith | apps/transactions/utils.py:39-41 | one name per record with the status |
| Workflow.ApprovalProgress | apps/transactions/utils.py:11-42 | counts add up to the total; `required` is the configured count; complete iff approved reaches required; rejected iff some record is rejected; one name per counted record |
| Workflow.CheckStatus | apps/transactions/utils.py:66-85 | as written: rejected wins; complete means APPROVED and then `execute`, ending EXECUTED iff the deposit or covered withdrawal goes through; otherwise PENDING, whatever the prior status |
| Workflow.RejectionWins | apps/transactions/utils.py:72-73 | one rejected record makes the recheck write REJECTED, whatever the approvals |
| Workflow.RecheckCreditsAgain | apps/transactions/utils.py:74-80 | as written, a second recheck of an executed deposit credits the account a second time |
| Workflow.CancelledTransactionExecutes | apps/transactions/utils.py:74-80 | as written, a CANCELLED deposit with enough approvals is executed and credited |
| Workflow.CancelledTransactionReopens | apps/transactions/utils.py:81-82 | as written, a CANCELLED transaction without enough approvals is set back to PENDING |
| Workflow.GuardedCheckStatus | apps/transactions/utils.py:66-85 | as intended: the recheck of an open (PENDING or APPROVED) transaction, and no change to any other |
| Workflow.ReplayFinal | apps/transactions/utils.py:66-85 | any number of guarded rechecks leave a closed transaction and its account unchanged |
| Workflow.ExecutesAtMostOnce | apps/transactions/utils.py:66-85 | over any number of guarded rechecks the account is changed at most once, by exactly the transaction's effect, and only when it ends EXECUTED |
| Workflow.GuardedIdempotent | apps/transactions/utils.py:66-85 | a second guarded recheck with the same progress changes nothing |
| Workflow.Padded | apps/transactions/utils.py:106-117 | enough assigned approvers are kept as they are; otherwise the fallback pool's prefix is appended until the required count is reached or the pool runs out |
| Workflow.FillApprovers | apps/transactions/utils.py:106-117 | the fallback loop computes exactly `Padded` |
| Workflow.RoleFallback | apps/transactions/utils.py:129-134 | on success level `i` is the first active holder of `APPROVER_i` for each of the `n` levels; on failure the error names the first level with no holder (or above 5) |
| Workflow.RoleFallbackErrSticks | apps/transactions/utils.py:130-133 | once a level is missing, asking for more levels fails at the same level |
| Workflow.RoleFallbackLoop | apps/transactions/utils.py:129-134 | the loop computes exactly `RoleFallback` |
| Workflow.RoleFallbackDistinct | apps/transactions/utils.py:129-134 | the role-based approvers are distinct users |
| Workflow.PaddedDistinct | apps/transactions/utils.py:107-117 | padding with candidates outside the assigned ids keeps approvers distinct |
| Workflow.ResolvedDistinct | apps/transactions/utils.py:97-134 | the approvers resolved for a request are distinct, so no request gets two records for one approver |
| Workflow.PrimaryAtLeastRequired | apps/transactions/utils.py:106-120 | when assigned plus fallback approvers reach the required count, resolution succeeds with at least that many |
| Workflow.AssignedNeverCut | apps/transactions/utils.py:100-106 | with at least the required number of active assignments, every assigned approver is used, none is cut |
| Workflow.MayExceedRequired | apps/transactions/utils.py:100-106 | three assigned approvers with two required yield three approval records |
| Workflow.NextApprover | apps/transactions/utils.py:147-159 | nothing iff no record of the transaction is pending; otherwise the approver of its first pending record |
| Workflow.CanUserCancel | apps/transactions/utils.py:185-197 | holds iff the user is admin or is the initiator who created the transaction; whoever may cancel may view |
| Workflow.VisibleTransactions | apps/transactions/utils.py:200-229 | exactly the transactions of the user's city (admins: all) that the user's role may see |
| Workflow.VisibleImpliesViewable | apps/transactions/utils.py:162-229 | every transaction in the visible set passes `can_user_view_transaction` |
| Workflow.CanUserProcess | apps/transactions/utils.py:232-253 | holds iff the user can approve and has a PENDING record on the transaction; whoever may process may view |
| Workflow.PendingRecord | apps/dashboard/views.py:249-253 | finds the user's PENDING record on the transaction iff there is one |
| TransactionSerializers.ValidateAmount | apps/transactions/serializers.py:32-35 | accepts exactly the amounts above zero |
| TransactionSerializers.ValidateAccount | apps/transactions/serializers.py:37-42 | accepts iff the user is ADMIN or the account is in the user's city |
| TransactionSerializers.ValidateType | apps/transactions/models.py:11-14 | accepts exactly DEPOSIT and WITHDRAWAL |
| TransactionSerializers.CleanText | apps/transactions/serializers.py:66 | a text field: accepted iff it is blank and blank is allowed, or it is not blank and holds no NUL; the value kept is the stripped text, never empty when blank is not allowed |
| TransactionSerializers.ValidateCreate | apps/transactions/serializers.py:25-47 | accepts iff account, type, amount (also within the field) pass and the description is not blank and holds no NUL; the row takes the account's city, the requester as creator and the stripped description |
| TransactionSerializers.ValidateUpdate | apps/transactions/serializers.py:50-61 | accepts iff the transaction is PENDING, a full update carries a description, and a description given is not blank and holds no NUL; only the description (stripped) and the metadata change, a field left out keeps its value, and everything else stays |
| TransactionSerializers.ValidateCancel | apps/transactions/serializers.py:64-71 | accepts iff `can_be_cancelled` and a given reason holds no NUL; the validated reason is absent or stripped |
| ApprovalViews.ActionStatus | apps/approvals/views.py:212-230 | only `approve` and `reject` are actions, mapped to APPROVED and REJECTED |
| ApprovalViews.RequestDecisionGate | apps/approvals/views.py:181-230 | passes iff the record is the user's and PENDING, the user has decided nothing else on the transaction, and the action is a rejection or an approval that a withdrawal's balance covers; each refusal is the source's, in its order |
| ApprovalViews.LegacyDepositGate | apps/approvals/views.py:37-58 | passes iff the record is the user's, PENDING, and the action is valid |
| ApprovalViews.LegacyWithdrawalGate | apps/approvals/views.py:98-126 | as the deposit gate, but an approval needs a covering balance |
| ApprovalViews.GateAgreesWithLegacy | apps/approvals/views.py:43-230 | without an earlier decision by the user, the current gate lets through exactly what the legacy gate of the type does |
| DashboardViews.AccountForCity | apps/dashboard/views.py:122 | finds an account of the city iff there is one, and it is the newest (the last in the table) |
| DashboardViews.CreateGate | apps/dashboard/views.py:93-130 | passes iff the user is an initiator, the three fields are given, the amount is a decimal above zero, the user has a city with an account, and a `WITHDRAWAL` is covered; each refusal is the source's, in its order |
| DashboardViews.ProcessGate | apps/dashboard/views.py:237-285 | passes iff it is a POST by an approver with a PENDING record on the transaction, and the action is `reject` or an `approve` of a processable record whose withdrawal is covered |
| TransactionViews.ApiCreateGate | apps/transactions/views.py:37-47 | non-initiators are refused first; then it passes iff the account exists and the serializer accepts |
| TransactionViews.ApiCreateSameCity | apps/transactions/views.py:37-47 | every transaction created through the API is in its creator's own city; the ADMIN exemption of `validate_account` never applies there |
| TransactionViews.UpdateGate | apps/transactions/views.py:137-145 | a transaction outside the user's visible set is not found; otherwise the update serializer decides, with a description required for a PUT and optional for a PATCH |
| TransactionViews.DestroyGate | apps/transactions/views.py:162-170 | passes iff the transaction is visible to the user and PENDING; a visible non-PENDING one is refused as such |
| TransactionViews.CancelGate | apps/transactions/views.py:190-208 | not found, then forbidden unless `can_user_cancel_transaction`, then passes iff `can_be_cancelled` and a given reason holds no NUL |
| TransactionViews.CancelReason | apps/transactions/views.py:207-209 | the given reason stripped, which is empty iff it was all whitespace, or a non-empty default when the field is absent |
| TransactionViews.BlankReasonStoresNothing | apps/transactions/views.py:207-210 | a whitespace-only reason cancels the transaction without storing any `cancellation_reason`, while an absent one stores the default |
| TransactionViews.ProgressView | apps/transactions/views.py:236-258 | passes iff the transaction exists and the user may view it, and then answers its approval progress |
| Notifications.StatusNotificationType | apps/notifications/models.py:72-81 | the four outcome statuses map to `TRANSACTION_<status>`, any other text to `SYSTEM_ALERT` |
| Notifications.StatusTypes | apps/notifications/models.py:72-81 | every transaction status but PENDING has its own type; PENDING yields a system alert |
| Notifications.StatusMetadata | apps/notifications/models.py:85-90 | the four keys; the id and amount read back as the transaction's own |
| Notifications.ApprovalMetadata | apps/notifications/models.py:61-66 | the four keys; the id and amount read back as the transaction's own |
| Notifications.ReadState | apps/notifications/models.py:44-50 | afterwards the notification is read; only an unread one gets the read time |
| Notifications.ReadStateIdempotent | apps/notifications/models.py:44-50 | a second `mark_as_read` keeps the first read time |
| Notifications.Notification.ForApproval | apps/notifications/models.py:53-67 | an unread APPROVAL_REQUIRED notification with the approval metadata |
| Notifications.Notification.ForStatus | apps/notifications/models.py:70-91 | an unread notification typed by the status mapping, with the status metadata |
| Notifications.Notification.MarkAsRead | apps/notifications/models.py:44-50 | the flag and time become `ReadState` of the old ones |
| Audit.BeforeComma | apps/audit/models.py:78 | a prefix without commas, followed by a comma or the end of the text |
| Audit.ClientIp | apps/audit/models.py:74-81 | a non-empty forwarded header gives its first entry, untrimmed; otherwise the remote address, which may be missing |
| Audit.NewEntry | apps/audit/models.py:54-71 | without a request no address and no agent; with one, the client address and the agent (empty when missing); details default to empty |
| Audit.AuditTrail.LogAction | apps/audit/models.py:54-71 | appends exactly one entry and changes nothing else |
| MunicipalWallet.AccountById | apps/transactions/views.py:45-46 | finds an account iff its key exists |
| MunicipalWallet.TxById | apps/transactions/views.py:193 | finds a transaction iff its key exists |
| MunicipalWallet.NewRecords | apps/transactions/utils.py:137-141 | one PENDING record per approver, in order, under consecutive keys |
| MunicipalWallet.BuildRecords | apps/transactions/utils.py:137-141 | the loop builds exactly `NewRecords` |
| MunicipalWallet.NewRow | apps/transactions/serializers.py:44-47 | the saved row is PENDING, not executed, carries the validated fields, and its generated reference is not in use |
| MunicipalWallet.BuildRow | apps/transactions/models.py:52-55 | builds exactly `NewRow` |
| MunicipalWallet.SubmitOutcome | apps/transactions/utils.py:88-144 | succeeds iff the approvers resolve, and then adds their records; on error nothing is added |
| MunicipalWallet.FreshRequestOutcome | apps/transactions/utils.py:137-143 | a transaction with no records never meets a duplicate, so creating its records fails only when approvers cannot be resolved |
| MunicipalWallet.Decision | apps/approvals/models.py:29-79 | the record is decided iff PENDING with no other decided record of its pair; the transaction's status is then recomputed from the new records, whatever it was; otherwise no table changes; no transaction or account key is added or lost |
| MunicipalWallet.RecomputeKeepsKeys | apps/transactions/utils.py:66-85 | a recomputation changes no key and no transaction's account |
| MunicipalWallet.RecomputeCompleteDeposit | apps/transactions/utils.py:74-80 | a complete, unrejected deposit becomes EXECUTED and its account is credited, whatever its status was |
| MunicipalWallet.ApprovalAddsOne | apps/approvals/models.py:29-53 | approving a PENDING record adds exactly one approval to its transaction and no rejection |
| MunicipalWallet.CompletingApprovalCredits | apps/approvals/models.py:29-53 | an approval after which a deposit has enough approvals and no rejection executes it and credits the account, even when it was already EXECUTED or CANCELLED |
| MunicipalWallet.TwoApprovalsCreditTwice | apps/transactions/utils.py:74-80 | two approvals by different approvers of one deposit, the first of which completes it, both go through and credit the account twice |
| MunicipalWallet.FindTarget | apps/dashboard/views.py:247-255 | found iff the transaction exists and the user has a PENDING record on it |
| MunicipalWallet.WithoutTx | apps/transactions/views.py:181 | the cascade keeps exactly the records of other transactions |
| MunicipalWallet.WithoutTxOrdered | apps/transactions/views.py:181 | the cascade keeps record keys increasing |
| MunicipalWallet.WithoutTxUnique | apps/transactions/views.py:181 | the cascade keeps one record per (transaction, approver) |
| MunicipalWallet.RemoveKeepsValid | apps/transactions/views.py:181 | deleting a transaction with its records leaves no record pointing to a missing transaction |
| MunicipalWallet.InsertKeepsApprovalsValid | apps/transactions/utils.py:143 | inserting the records of distinct approvers keeps keys increasing and pairs unique |
| MunicipalWallet.AppendKeepsAssignmentsValid | apps/admin_panel/views.py:89-93 | adding an assignment for a new pair under the next key keeps the table valid |
| MunicipalWallet.RemovedKeepsAssignmentsValid | apps/admin_panel/views.py:145 | deleting an assignment keeps the table valid |
| MunicipalWallet.EnsureAssignments | apps/admin_panel/models.py:58-73 | every active approver gets a row for both types; existing rows are kept as they are; added rows are active; nothing is added when every pair already exists |
| MunicipalWallet.AssignEach | apps/admin_panel/models.py:68-73 | for one type, every approver's pair exists afterwards and only active rows of that type are added |
| MunicipalWallet.Wallet.constructor | apps/accounts/models.py:114 | a database holding just the given users and accounts |
| MunicipalWallet.Wallet.Deposit | apps/cities/models.py:66-69 | the account's balance grows by exactly the amount; every other account is untouched |
| MunicipalWallet.Wallet.Withdraw | apps/cities/models.py:71-77 | succeeds iff the balance covers the amount, and then the balance drops by exactly that amount; otherwise nothing changes |
| MunicipalWallet.Wallet.Execute | apps/transactions/models.py:91-105 | the transaction and its account become what `Transactions.Execute` gives; nothing else changes |
| MunicipalWallet.Wallet.Cancel | apps/transactions/models.py:107-116 | the transaction becomes what `Transactions.Cancel` gives |
| MunicipalWallet.Wallet.CheckTransactionStatus | apps/transactions/utils.py:66-85 | the transaction and its account become what `Workflow.CheckStatus` gives for the current progress, whatever the transaction's status was, and its new status is returned |
| MunicipalWallet.Wallet.ApproveAndExecute | apps/transactions/utils.py:74-80 | APPROVED and then `execute`: the result of `Transactions.Execute` on the approved transaction |
| MunicipalWallet.Wallet.SetStatus | apps/transactions/utils.py:73 | only the status of that transaction changes |
| MunicipalWallet.Wallet.Process | apps/approvals/models.py:29-79 | the tables and the result become what `Decision` gives |
| MunicipalWallet.Wallet.Approve | apps/approvals/models.py:29-53 | `Decision` with APPROVED |
| MunicipalWallet.Wallet.Reject | apps/approvals/models.py:55-79 | `Decision` with REJECTED |
| MunicipalWallet.Wallet.CreateRequestApprovals | apps/transactions/utils.py:88-144 | answers the resolved records or the error; the records are inserted only on success |
| MunicipalWallet.Wallet.InsertRecords | apps/transactions/utils.py:143 | the new records are appended under the next keys and returned |
| MunicipalWallet.Wallet.SelectApprovers | apps/transactions/utils.py:97-134 | the selection over the current tables computes exactly `ResolveApprovers` |
| MunicipalWallet.Wallet.Assign | apps/admin_panel/views.py:77-93 | the pair's row is reactivated, or a new active row is added under the next key |
| MunicipalWallet.Wallet.ResyncConfig | apps/admin_panel/views.py:95-107 | the type's configuration takes its active count, which is returned |
| MunicipalWallet.Wallet.AssignApprover | apps/admin_panel/views.py:63-112 | after the checks the pair is assigned and the type resynced, and the new active count is answered; a refusal changes nothing |
| MunicipalWallet.Wallet.RemoveApprover | apps/admin_panel/views.py:129-164 | a missing or unknown id is refused with no change; otherwise exactly that row is deleted and its type resynced |
| MunicipalWallet.Wallet.ToggleApproverStatus | apps/admin_panel/views.py:176-210 | a missing or unknown id is refused with no change; otherwise that row's flag is flipped and its type resynced |
| MunicipalWallet.Wallet.UpdateApprovalConfig | apps/admin_panel/views.py:222-252 | an accepted count is written to the type's configuration (created if missing); a refusal changes nothing |
| MunicipalWallet.Wallet.InitApprovalConfig | apps/admin_panel/management/commands/init_approval_config.py:8-43 | both types' configurations become their active counts |
| MunicipalWallet.Wallet.EnsureApproverAssignments | apps/admin_panel/models.py:58-73 | every active approver has a row for both types; old rows are kept as they are (an inactive one stays inactive); the rows added are active |
| MunicipalWallet.Wallet.EnsureSingleUserPerRole | apps/accounts/models.py:114-131 | the users and key counter become the result of the passes over `ROLE_CHOICES`; a failure names its role |
| MunicipalWallet.Wallet.SaveTransaction | apps/transactions/models.py:52-81 | the new row, with its fresh reference, goes in last under the next key |
| MunicipalWallet.Wallet.Submit | apps/transactions/views.py:47-56 | the transaction is saved; then its records are created or the error is answered, and on error the saved transaction stays without records |
| MunicipalWallet.Wallet.SubmitFromApi | apps/transactions/views.py:37-56 | the API gate's refusal changes nothing; a transaction that passes is submitted |
| MunicipalWallet.Wallet.SubmitFromDashboard | apps/dashboard/views.py:93-144 | the dashboard gate's refusal changes nothing; a draft that passes is submitted on the city's newest account |
| MunicipalWallet.Wallet.UpdateTransaction | apps/transactions/views.py:140-145 | the row becomes what the update gate accepts; a refusal changes nothing |
| MunicipalWallet.Wallet.DestroyTransaction | apps/transactions/views.py:162-185 | a visible PENDING transaction is deleted with its records (cascade); a refusal changes nothing |
| MunicipalWallet.Wallet.CancelTransaction | apps/transactions/views.py:190-225 | once the checks pass, `cancel` runs with the reason (or the default) and always succeeds; a refusal changes nothing |
| MunicipalWallet.Wallet.RequestApprovalUpdate | apps/approvals/views.py:187-230 | an unknown record is not found; otherwise the gate's refusal changes nothing, and a decision that passes always goes through as `Decision` |
| MunicipalWallet.Wallet.ProcessApproval | apps/dashboard/views.py:235-285 | the gate's refusal changes nothing; a decision that passes always goes through as `Decision` on the user's PENDING record |

## Left out

- HTTP responses, messages, redirects and templates: the model answers a `Result` with a refusal kind instead. The `approval.approval_level` read in the success responses (apps/approvals/views.py:237 and 255, apps/dashboard/views.py:303) names no field of `RequestApproval`. Responses are out of scope, so that failure is not modelled.
- The audit log writes of the views are not modelled. `Audit.AuditTrail.LogAction` models `log_action` itself.
- The legacy `DepositApproval` and `WithdrawalApproval` tables are not modelled. Only the decision gates of their views are (`ApprovalViews.LegacyDepositGate` and `ApprovalViews.LegacyWithdrawalGate`).
- The legacy branch of `get_approval_progress` (apps/transactions/utils.py:43-63) is not modelled: every transaction the model creates has request approvals. `TransactionListView._create_approval_records` is not modelled either: nothing calls it.
- Transaction primary keys are UUIDs in the source; the model uses consecutive natural numbers. Only equality of keys matters to the core.
- `created_at` ordering: tables keep insertion order, and "newest first" is read as "last in the table".
- Times are the caller's `now`; the clock is not modelled.
- Concurrency and database transactions are not modelled. The source uses no locking, and each operation here is atomic.
- Decimal text: `Money.ParseAmount` accepts one optional leading `+` or `-` and then a plain decimal with at most two fraction digits. Exponents, surrounding blanks, underscores, `NaN` and `Infinity`, non-ASCII digits and the other `Decimal` forms are not modelled.
- `Transactions.ParseSuffix`: reads only a suffix made of ASCII digits. Python's `int` also accepts surrounding whitespace, a leading sign, underscores between digits and non-ASCII decimal digits. A stored reference with such a suffix is skipped by the model, while the source counts it.
- `int()` in `update_approval_config_view`: the request's count arrives already parsed or missing. Signs, blanks and underscores are not modelled.
- Usernames stand for `approver__username`; a NULL username is modelled as the empty string.
- Notification delivery and the commented-out notification calls are not modelled. Only the rows the two constructors build are.
- The dashboard, reports, statistics and list views are not modelled: they only aggregate for display.
- `Accounts.EnsureRolesAdded`: states that every added row is a role's default user. It does not state that exactly one row is added per role that lacked a holder.
- `Accounts.NormalizeEmail`: lowers only the ASCII capitals of the domain part. Python's `str.lower()` also lowers other cased letters.
- `TransactionViews.ApiCreateGate`: takes every request field as present. The serializer's "required" refusal of an absent `account`, `type`, `amount` or `description` is not modelled, nor are non-string values in a text field.
- `Workflow.RoleFallback`: the settings `DEPOSIT_APPROVALS_REQUIRED` and `WITHDRAWAL_APPROVALS_REQUIRED` are not read. The model uses their defaults, 3 and 5.

## Findings

| source | as written | input that shows it | evidently intended | confidence | as-written member | corrected member |
|---|---|---|---|---|---|---|
| apps/transactions/utils.py:74-80 | `check_transaction_status` executes a complete transaction whatever its status. An EXECUTED deposit is executed again on every later approval. | A DEPOSIT with 3 assigned approvers and 2 required: the second approval executes it, and the third approval credits the account a second time | a transaction is executed at most once | not executed | Workflow.RecheckCreditsAgain | Workflow.ExecutesAtMostOnce |
| apps/transactions/utils.py:66-85 | a CANCELLED transaction is rechecked like any other | a cancelled DEPOSIT whose remaining PENDING records are then approved up to the required count is executed and credited; with too few approvals it is set back to PENDING | a CANCELLED (or otherwise closed) transaction is left as it is | not executed | Workflow.CancelledTransactionExecutes | Workflow.ReplayFinal |

`Workflow.CheckStatus` models the code as written, and the wallet follows it: `Recompute`, `CheckTransactionStatus` and every approve and reject recheck whatever the transaction's status is. `MunicipalWallet.TwoApprovalsCreditTwice` shows the first finding on the tables. `Workflow.GuardedCheckStatus` is the corrected recheck: it acts only while the transaction is PENDING or APPROVED, and `Workflow.ExecutesAtMostOnce` and `Workflow.ReplayFinal` are proved about it. `Workflow.MayExceedRequired` shows that a transaction can get more approval records than it needs.
