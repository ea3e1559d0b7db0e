/**
 * User notifications (apps/notifications/models.py): the read flag with its
 * timestamp, the notification type chosen for a transaction status, and the
 * metadata stored with approval and status notifications.
 */
module Notifications {
  import opened Wrappers
  import opened Digits
  import opened Money
  import opened Accounts
  import opened Transactions

  /** The status code stored for a transaction status, e.g. `EXECUTED`. */
  function StatusCode(s: TxStatus): string
  {
    match s
    case Pending => "PENDING"
    case Approved => "APPROVED"
    case Rejected => "REJECTED"
    case Executed => "EXECUTED"
    case Cancelled => "CANCELLED"
  }

  const ApprovalRequired: string := "APPROVAL_REQUIRED"
  const SystemAlert: string := "SYSTEM_ALERT"

  /**
   * `type_mapping.get(status, 'SYSTEM_ALERT')`: the four outcome statuses
   * map to `TRANSACTION_<status>`, every other text to `SYSTEM_ALERT`.
   */
  function StatusNotificationType(status: string): (r: string)
    ensures status in {"APPROVED", "REJECTED", "EXECUTED", "CANCELLED"} ==> r == "TRANSACTION_" + status
    ensures status !in {"APPROVED", "REJECTED", "EXECUTED", "CANCELLED"} ==> r == SystemAlert
  {
    if status == "APPROVED" then "TRANSACTION_APPROVED"
    else if status == "REJECTED" then "TRANSACTION_REJECTED"
    else if status == "EXECUTED" then "TRANSACTION_EXECUTED"
    else if status == "CANCELLED" then "TRANSACTION_CANCELLED"
    else SystemAlert
  }

  /** Every status but PENDING has its own notification type; PENDING raises a system alert. */
  lemma StatusTypes(s: TxStatus)
    ensures s != Pending ==> StatusNotificationType(StatusCode(s)) == "TRANSACTION_" + StatusCode(s)
    ensures s == Pending ==> StatusNotificationType(StatusCode(s)) == SystemAlert
  {
  }

  /** `str(transaction.id)` (the primary key is modelled as a number). */
  function IdText(id: TxId): string
  {
    Show(id)
  }

  /**
   * The metadata of `create_transaction_status_notification`: the
   * transaction id and amount as text, the transaction type, and the status
   * argument unchanged. The id and the amount read back to the transaction's own.
   */
  function StatusMetadata(t: Transaction, status: string): (m: map<string, string>)
    ensures m.Keys == {"transaction_id", "transaction_type", "amount", "status"}
    ensures m["transaction_type"] == t.kind && m["status"] == status
    ensures ParseNat(m["transaction_id"]) == Some(t.id)
    ensures ParseAmount(m["amount"]) == Some(t.amount)
  {
    ZeroPadRoundTrip(t.id, 0);
    FormatRoundTrip(t.amount);
    map["transaction_id" := IdText(t.id), "transaction_type" := t.kind,
        "amount" := Format(t.amount), "status" := status]
  }

  /** The metadata of `create_approval_notification`: as for a status, with the requester's name instead. */
  function ApprovalMetadata(t: Transaction, approverName: string): (m: map<string, string>)
    ensures m.Keys == {"transaction_id", "transaction_type", "amount", "approver_name"}
    ensures m["transaction_type"] == t.kind && m["approver_name"] == approverName
    ensures ParseNat(m["transaction_id"]) == Some(t.id)
    ensures ParseAmount(m["amount"]) == Some(t.amount)
  {
    ZeroPadRoundTrip(t.id, 0);
    FormatRoundTrip(t.amount);
    map["transaction_id" := IdText(t.id), "transaction_type" := t.kind,
        "amount" := Format(t.amount), "approver_name" := approverName]
  }

  /** `mark_as_read` on the pair (`is_read`, `read_at`): only an unread notification changes. */
  function ReadState(isRead: bool, readAt: Option<Time>, now: Time): (r: (bool, Option<Time>))
    ensures r.0
    ensures isRead ==> r == (isRead, readAt)
    ensures !isRead ==> r.1 == Some(now)
  {
    if isRead then (isRead, readAt) else (true, Some(now))
  }

  /** A second `mark_as_read` keeps the first read time. */
  lemma ReadStateIdempotent(isRead: bool, readAt: Option<Time>, now: Time, later: Time)
    ensures var first := ReadState(isRead, readAt, now);
            ReadState(first.0, first.1, later) == first
  {
  }

  /** A `Notification` row; the title and the message are not modelled. */
  class Notification {
    var user: UserId
    var kind: string
    var isRead: bool
    var readAt: Option<Time>
    var metadata: map<string, string>

    /** `create_approval_notification`: always of type `APPROVAL_REQUIRED`, unread. */
    constructor ForApproval(user0: UserId, t: Transaction, approverName: string)
      ensures user == user0 && kind == ApprovalRequired
      ensures !isRead && readAt.None?
      ensures metadata == ApprovalMetadata(t, approverName)
    {
      user := user0;
      kind := ApprovalRequired;
      isRead := false;
      readAt := None;
      metadata := ApprovalMetadata(t, approverName);
    }

    /** `create_transaction_status_notification`: typed by the status mapping, unread. */
    constructor ForStatus(user0: UserId, t: Transaction, status: string)
      ensures user == user0 && kind == StatusNotificationType(status)
      ensures !isRead && readAt.None?
      ensures metadata == StatusMetadata(t, status)
    {
      user := user0;
      kind := StatusNotificationType(status);
      isRead := false;
      readAt := None;
      metadata := StatusMetadata(t, status);
    }

    /** `mark_as_read(now)`: sets the flag and the read time of an unread notification only. */
    method MarkAsRead(now: Time)
      modifies this`isRead, this`readAt
      ensures (isRead, readAt) == ReadState(old(isRead), old(readAt), now)
    {
      if !isRead {
        isRead := true;
        readAt := Some(now);
      }
    }
  }
}
