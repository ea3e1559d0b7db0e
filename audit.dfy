/**
 * The audit trail (apps/audit/models.py): the client address taken from a
 * request and the defaults `log_action` fills in for a new entry.
 */
module Audit {
  import opened Wrappers
  import opened Accounts

  /** The text before the first comma, or all of it when there is none (`split(',')[0]`). */
  function BeforeComma(s: string): (r: string)
    ensures r <= s
    ensures forall i :: 0 <= i < |r| ==> r[i] != ','
    ensures |r| < |s| ==> s[|r|] == ','
  {
    if s == [] || s[0] == ',' then [] else [s[0]] + BeforeComma(s[1..])
  }

  /** The request headers `log_action` reads. */
  datatype Request = Request(forwardedFor: Option<string>, remoteAddr: Option<string>, userAgent: Option<string>)

  /**
   * `get_client_ip`: the first entry of a non-empty `X-Forwarded-For`,
   * untrimmed; otherwise `REMOTE_ADDR`, which may itself be missing.
   */
  function ClientIp(request: Request): (r: Option<string>)
    ensures request.forwardedFor.Some? && request.forwardedFor.value != "" ==>
              r.Some? && r.value <= request.forwardedFor.value && ',' !in r.value
              && (|r.value| == |request.forwardedFor.value| || request.forwardedFor.value[|r.value|] == ',')
    ensures !(request.forwardedFor.Some? && request.forwardedFor.value != "") ==> r == request.remoteAddr
  {
    if request.forwardedFor.Some? && request.forwardedFor.value != "" then Some(BeforeComma(request.forwardedFor.value))
    else request.remoteAddr
  }

  /** An `AuditLog` row. */
  datatype Entry = Entry(
    user: Option<UserId>,
    action: string,
    description: string,
    details: map<string, string>,
    ipAddress: Option<string>,
    userAgent: Option<string>)

  /**
   * The row `log_action` creates: without a request no address and no user
   * agent; with one, the client address and the user agent (empty when the
   * header is missing); `details` defaults to the empty mapping.
   */
  function NewEntry(user: Option<UserId>, action: string, description: string,
                    details: Option<map<string, string>>, request: Option<Request>): (e: Entry)
    ensures e.user == user && e.action == action && e.description == description
    ensures request.None? ==> e.ipAddress.None? && e.userAgent.None?
    ensures request.Some? ==> e.ipAddress == ClientIp(request.value)
                              && e.userAgent == Some(if request.value.userAgent.Some? then request.value.userAgent.value else "")
    ensures details.None? ==> e.details == map[]
    ensures details.Some? ==> e.details == details.value
  {
    var ip := if request.Some? then ClientIp(request.value) else None;
    var agent := if request.Some? then Some(if request.value.userAgent.Some? then request.value.userAgent.value else "") else None;
    Entry(user, action, description, if details.Some? then details.value else map[], ip, agent)
  }

  /** The audit table. */
  class AuditTrail {
    var entries: seq<Entry>

    constructor ()
      ensures entries == []
    {
      entries := [];
    }

    /** `log_action`: appends one entry and changes nothing else. */
    method LogAction(user: Option<UserId>, action: string, description: string,
                     details: Option<map<string, string>>, request: Option<Request>)
      modifies this
      ensures entries == old(entries) + [NewEntry(user, action, description, details, request)]
    {
      entries := entries + [NewEntry(user, action, description, details, request)];
    }
  }
}
