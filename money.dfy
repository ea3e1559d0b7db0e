/**
 * Money amounts: `DecimalField(max_digits=15, decimal_places=2)` values are
 * integers of cents. `Format` is `str(Decimal)` of a two-place amount and
 * `ParseAmount` the subset of `Decimal(text)` that has at most two places.
 */
module Money {
  import opened Wrappers
  import opened Digits

  /** An amount in cents. */
  type Cents = int

  /** First position of `c` in `s`, or `|s|` when `c` does not occur. */
  function IndexOf(s: string, c: char): (k: nat)
    ensures k <= |s|
    ensures forall i :: 0 <= i < k ==> s[i] != c
    ensures k < |s| ==> s[k] == c
  {
    if s == [] then 0 else if s[0] == c then 0 else 1 + IndexOf(s[1..], c)
  }

  /** The two fraction digits of a non-negative amount. */
  function TwoDigits(n: nat): (s: string)
    requires n < 100
    ensures |s| == 2 && AllDigits(s)
  {
    [DigitChar(n / 10), DigitChar(n % 10)]
  }

  /** `str(amount)` for an amount stored with two decimal places: `100.00`, `-3.05`. */
  function Format(c: Cents): string
  {
    var m: nat := if c < 0 then -c else c;
    (if c < 0 then "-" else "") + Show(m / 100) + "." + TwoDigits(m % 100)
  }

  /** Unsigned `digits[.digits]` with at most two fraction digits, in cents. */
  function ParseUnsigned(s: string): Option<nat>
  {
    var k := IndexOf(s, '.');
    var whole := s[..k];
    var frac := if k < |s| then s[k + 1..] else "";
    if whole == [] && frac == [] then None
    else if !AllDigits(whole) || !AllDigits(frac) || |frac| > 2 then None
    else if k == |s| - 1 && whole == [] then None
    else Some(ValueOf(whole) * 100 + ValueOf(frac + Zeros(2 - |frac|)))
  }

  /** `Decimal(text)` for text with an optional sign and at most two fraction digits. */
  function ParseAmount(s: string): Option<Cents>
  {
    if s == [] then None
    else if s[0] == '-' then
      match ParseUnsigned(s[1..])
      case Some(v) => Some(-(v as int))
      case None => None
    else if s[0] == '+' then
      match ParseUnsigned(s[1..])
      case Some(v) => Some(v as int)
      case None => None
    else
      match ParseUnsigned(s)
      case Some(v) => Some(v as int)
      case None => None
  }

  lemma {:induction false} TwoDigitsValue(n: nat)
    requires n < 100
    ensures ValueOf(TwoDigits(n) + Zeros(0)) == n
  {
    var s := TwoDigits(n);
    assert s + Zeros(0) == s;
    assert s == [DigitChar(n / 10)] + [DigitChar(n % 10)];
    ValueOfAppend([], DigitChar(n / 10));
    assert [] + [DigitChar(n / 10)] == [DigitChar(n / 10)];
    ValueOfAppend([DigitChar(n / 10)], DigitChar(n % 10));
  }

  lemma {:induction false} UnsignedRoundTrip(m: nat)
    ensures ParseUnsigned(Show(m / 100) + "." + TwoDigits(m % 100)) == Some(m)
  {
    var w, f := Show(m / 100), TwoDigits(m % 100);
    var s := w + "." + f;
    var k := IndexOf(s, '.');
    assert s[|w|] == '.';
    assert k == |w|;
    assert s[..k] == w;
    assert s[k + 1..] == f;
    ShowRoundTrip(m / 100);
    TwoDigitsValue(m % 100);
  }

  /** Reading back the stored text of an amount gives the amount. */
  lemma FormatRoundTrip(c: Cents)
    ensures ParseAmount(Format(c)) == Some(c)
  {
    if c < 0 {
      NegativeRoundTrip(c);
    } else {
      NonNegativeRoundTrip(c);
    }
  }

  lemma NegativeRoundTrip(c: Cents)
    requires c < 0
    ensures ParseAmount(Format(c)) == Some(c)
  {
    var m: nat := -c;
    var body := Show(m / 100) + "." + TwoDigits(m % 100);
    UnsignedRoundTrip(m);
    var t := "-" + body;
    assert Format(c) == t;
    assert t[0] == '-' && t[1..] == body;
  }

  lemma NonNegativeRoundTrip(c: Cents)
    requires c >= 0
    ensures ParseAmount(Format(c)) == Some(c)
  {
    var m: nat := c;
    var body := Show(m / 100) + "." + TwoDigits(m % 100);
    UnsignedRoundTrip(m);
    assert Format(c) == body;
    assert body[0] == Show(m / 100)[0];
    assert IsDigit(body[0]);
  }
}
