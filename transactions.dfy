/**
 * The transaction record (apps/transactions/models.py): its status
 * predicates, the `DEP-000001` / `WTH-000001` reference generator, and the
 * effect of `execute` and `cancel` on a transaction and its account. The
 * table updates that apply these effects are `Wallet.Execute` and `Wallet.Cancel`.
 */
module Transactions {
  import opened Wrappers
  import opened Digits
  import opened Money
  import opened Accounts
  import opened Cities
  import opened AdminPanel

  type TxId = nat

  /** Opaque instants: the clock is a parameter of every operation that reads it. */
  type Time = int

  datatype TxStatus = Pending | Approved | Rejected | Executed | Cancelled

  datatype Transaction = Transaction(
    id: TxId,
    account: AccountId,
    city: CityId,
    createdBy: UserId,
    kind: TxType,
    amount: Cents,
    description: string,
    status: TxStatus,
    reference: string,
    metadata: map<string, string>,
    executedAt: Option<Time>)

  /** `can_be_cancelled`. */
  predicate CanBeCancelled(t: Transaction)
  {
    t.status == Pending
  }

  /** `can_be_executed`. */
  predicate CanBeExecuted(t: Transaction)
  {
    t.status == Approved
  }

  // ---------------------------------------------------------------------------
  // Reference generation

  function Prefix(kind: TxType): (p: string)
    ensures |p| == 3 && '-' !in p
    ensures p == (if kind == DEPOSIT then "DEP" else "WTH")
  {
    if kind == DEPOSIT then "DEP" else "WTH"
  }

  predicate StartsWith(s: string, prefix: string)
  {
    |prefix| <= |s| && s[..|prefix|] == prefix
  }

  /**
   * The numeric part of a reference: the field after the first `-` when the
   * reference has one (`split('-')[1]`), otherwise everything after the third character.
   */
  function SuffixText(ref: string): string
  {
    var k := IndexOf(ref, '-');
    if k < |ref| then
      var rest := ref[k + 1..];
      rest[..IndexOf(rest, '-')]
    else if |ref| >= 3 then ref[3..]
    else ""
  }

  /**
   * `int(num_part)` for a suffix of ASCII digits; any other suffix is
   * None, as if `int` had raised `ValueError`.
   */
  function ParseSuffix(ref: string): Option<nat>
  {
    ParseNat(SuffixText(ref))
  }

  /** The rows the generator looks at: non-empty references starting with the prefix. */
  predicate Considered(prefix: string, ref: string)
  {
    ref != "" && StartsWith(ref, prefix)
  }

  /** `max_num`: the largest parseable suffix among considered references, 0 if none. */
  function MaxSuffix(prefix: string, refs: seq<string>): nat
  {
    if refs == [] then 0
    else
      var m := MaxSuffix(prefix, refs[..|refs| - 1]);
      var last := refs[|refs| - 1];
      if Considered(prefix, last) && ParseSuffix(last).Some? && ParseSuffix(last).value > m
      then ParseSuffix(last).value else m
  }

  /** `max_num` bounds every parseable suffix in use and is one of them unless it is 0. */
  lemma {:induction false} MaxSuffixIsMax(prefix: string, refs: seq<string>)
    ensures var m := MaxSuffix(prefix, refs);
            (forall r :: r in refs && Considered(prefix, r) && ParseSuffix(r).Some? ==> ParseSuffix(r).value <= m)
            && (m == 0 || exists r :: r in refs && Considered(prefix, r) && ParseSuffix(r) == Some(m))
  {
    if refs != [] {
      var init, last := refs[..|refs| - 1], refs[|refs| - 1];
      assert refs == init + [last];
      MaxSuffixIsMax(prefix, init);
    }
  }

  /** The text `generate_reference` returns: prefix, `-`, then `max_num + 1` zero-padded to 6 digits. */
  function NextReference(kind: TxType, refs: seq<string>): string
  {
    ReferenceAfter(Prefix(kind), refs)
  }

  /** The reference after the largest suffix in use under prefix `p`. */
  function ReferenceAfter(p: string, refs: seq<string>): string
  {
    p + "-" + ZeroPad(MaxSuffix(p, refs) + 1, 6)
  }

  /** The generated reference starts with the prefix and reads back as `max_num + 1`. */
  lemma NextReferenceReadsBack(p: string, refs: seq<string>)
    requires |p| == 3 && '-' !in p
    ensures var r := ReferenceAfter(p, refs);
            StartsWith(r, p + "-") && ParseSuffix(r) == Some(MaxSuffix(p, refs) + 1)
  {
    SuffixOfFormatted(p, MaxSuffix(p, refs) + 1);
  }

  /**
   * The generated reference is larger than every parseable suffix in use
   * under its prefix, and so equals none of the existing references.
   */
  lemma NextReferenceFresh(p: string, refs: seq<string>)
    requires |p| == 3 && '-' !in p
    ensures var r := ReferenceAfter(p, refs);
            ParseSuffix(r).Some?
            && (forall e :: e in refs && Considered(p, e) && ParseSuffix(e).Some?
                  ==> ParseSuffix(e).value < ParseSuffix(r).value)
            && r !in refs
  {
    var r := ReferenceAfter(p, refs);
    NextReferenceReadsBack(p, refs);
    MaxSuffixIsMax(p, refs);
    assert Considered(p, r) by { assert r[..4] == p + "-"; assert r[..3] == p; }
    assert ParseSuffix(r).value > MaxSuffix(p, refs);
  }

  /** A formatted reference reads back as its number. */
  lemma SuffixOfFormatted(p: string, n: nat)
    requires |p| == 3 && '-' !in p
    ensures StartsWith(p + "-" + ZeroPad(n, 6), p + "-")
    ensures ParseSuffix(p + "-" + ZeroPad(n, 6)) == Some(n)
  {
    var digits := ZeroPad(n, 6);
    var r := p + "-" + digits;
    assert r[..4] == p + "-";
    assert IndexOf(r, '-') == 3 by {
      assert r[3] == '-';
      assert forall i :: 0 <= i < 3 ==> r[i] == p[i];
    }
    assert r[4..] == digits;
    DigitsHaveNoDash(digits);
    assert SuffixText(r) == digits;
    ZeroPadRoundTrip(n, 6);
  }

  lemma DigitsHaveNoDash(s: string)
    requires AllDigits(s)
    ensures IndexOf(s, '-') == |s|
  {
    var k := IndexOf(s, '-');
    assert k < |s| ==> s[k] == '-' && IsDigit(s[k]);
  }

  /** With no earlier references the first deposit is `DEP-000001`. */
  lemma FirstDepositReference()
    ensures NextReference(DEPOSIT, []) == "DEP-000001"
  {
    assert Show(1) == "1";
    assert Zeros(5) == "00000" by {
      assert Zeros(1) == "0";
      assert Zeros(2) == "00";
      assert Zeros(3) == "000";
      assert Zeros(4) == "0000";
    }
  }

  /** `generate_reference`: one pass over the existing references keeping the largest suffix. */
  method GenerateReference(kind: TxType, refs: seq<string>) returns (r: string)
    ensures r == NextReference(kind, refs)
  {
    var prefix := Prefix(kind);
    var maxNum := 0;
    var i := 0;
    while i < |refs|
      invariant 0 <= i <= |refs|
      invariant maxNum == MaxSuffix(prefix, refs[..i])
    {
      MaxSuffixStep(prefix, refs, i);
      var ref := refs[i];
      if Considered(prefix, ref) {
        var num := ParseSuffix(ref);
        if num.Some? && num.value > maxNum {
          maxNum := num.value;
        }
      }
      i := i + 1;
    }
    assert refs[..i] == refs;
    r := prefix + "-" + ZeroPad(maxNum + 1, 6);
  }

  /** One more reference raises the maximum to its suffix when that is larger and considered. */
  lemma MaxSuffixStep(prefix: string, refs: seq<string>, i: nat)
    requires i < |refs|
    ensures var m := MaxSuffix(prefix, refs[..i]);
            var num := ParseSuffix(refs[i]);
            MaxSuffix(prefix, refs[..i + 1])
              == if Considered(prefix, refs[i]) && num.Some? && num.value > m then num.value else m
  {
    assert refs[..i + 1][..i] == refs[..i];
  }

  /** `save`: a reference is generated only while the field is empty. */
  function ReferenceOnSave(t: Transaction, refs: seq<string>): (r: Transaction)
    ensures t.reference != "" ==> r == t
    ensures t.reference == "" ==> r == t.(reference := NextReference(t.kind, refs))
    ensures r.reference != ""
  {
    if t.reference == "" then t.(reference := NextReference(t.kind, refs)) else t
  }

  // ---------------------------------------------------------------------------
  // execute and cancel

  /**
   * `execute`: from APPROVED, a deposit credits the account and a withdrawal
   * debits it when the balance covers it; either way the transaction becomes
   * EXECUTED with `executed_at = now`. In every other case nothing changes.
   */
  function Execute(t: Transaction, a: Account, now: Time): (r: (Transaction, Account, bool))
    ensures !CanBeExecuted(t) ==> r == (t, a, false)
    ensures r.2 <==> CanBeExecuted(t) && (t.kind == DEPOSIT || CanWithdraw(a, t.amount))
    ensures r.2 ==> r.0 == t.(status := Executed, executedAt := Some(now))
    ensures r.2 && t.kind == DEPOSIT ==> r.1.balance == a.balance + t.amount
    ensures r.2 && t.kind != DEPOSIT ==> r.1.balance == a.balance - t.amount && r.1.balance >= 0
    ensures !r.2 ==> r.0 == t && r.1 == a
    ensures r.1.(balance := a.balance) == a
  {
    if !CanBeExecuted(t) then (t, a, false)
    else if t.kind == DEPOSIT then (t.(status := Executed, executedAt := Some(now)), Credit(a, t.amount), true)
    else
      var (a2, ok) := Debit(a, t.amount);
      if !ok then (t, a, false)
      else (t.(status := Executed, executedAt := Some(now)), a2, true)
  }

  const CancellationReasonKey: string := "cancellation_reason"

  /**
   * `cancel(reason)`: only from PENDING; the status becomes CANCELLED and a
   * non-empty reason is stored under `cancellation_reason` in the metadata.
   */
  function Cancel(t: Transaction, reason: Option<string>): (r: (Transaction, bool))
    ensures r.1 <==> CanBeCancelled(t)
    ensures !r.1 ==> r.0 == t
    ensures r.1 ==> r.0.status == Cancelled
    ensures r.1 && reason.Some? && reason.value != "" ==>
              r.0 == t.(status := Cancelled, metadata := t.metadata[CancellationReasonKey := reason.value])
    ensures r.1 && (reason.None? || reason.value == "") ==> r.0 == t.(status := Cancelled)
  {
    if !CanBeCancelled(t) then (t, false)
    else if reason.Some? && reason.value != "" then
      (t.(status := Cancelled, metadata := t.metadata[CancellationReasonKey := reason.value]), true)
    else (t.(status := Cancelled), true)
  }

  /** A withdrawal the balance cannot cover stays APPROVED and leaves the balance alone. */
  lemma ExecuteInsufficientWithdrawal(t: Transaction, a: Account, now: Time)
    requires CanBeExecuted(t) && t.kind != DEPOSIT && a.balance < t.amount
    ensures Execute(t, a, now) == (t, a, false)
  {
  }
}
