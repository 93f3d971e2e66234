/**
 * The part of Go's standard `strconv` package that the object wrapper
 * (`IntVal`, `CreateFromInt`) and the address parser (`Atoi`) rely on:
 * base-10 `ParseUint`/`ParseInt` with their syntax and range errors, and
 * `FormatInt`. A 64-bit platform is assumed, so Go's `int` is 64 bits wide.
 */
module Strconv {
  import opened Optional

  const MIN_INT64: int := -0x8000_0000_0000_0000
  const MAX_INT64: int := 0x7fff_ffff_ffff_ffff
  const MAX_UINT64: int := 0xffff_ffff_ffff_ffff
  /** ParseUint's cutoff for base 10: the smallest n with n * 10 > MAX_UINT64. */
  const UINT64_CUTOFF: int := MAX_UINT64 / 10 + 1

  predicate IsDigit(c: char) { '0' <= c <= '9' }

  predicate AllDigits(s: string) { forall i | 0 <= i < |s| :: IsDigit(s[i]) }

  function DigitVal(c: char): (d: nat)
    requires IsDigit(c)
    ensures d < 10
  {
    (c as int) - ('0' as int)
  }

  function DigitChar(d: nat): (c: char)
    requires d < 10
    ensures IsDigit(c) && DigitVal(c) == d
  {
    (('0' as int) + d) as char
  }

  /** The number a digit string denotes, most significant digit first. */
  function DigitsValue(s: string): nat
    requires AllDigits(s)
  {
    if s == [] then 0 else DigitsValue(s[..|s| - 1]) * 10 + DigitVal(s[|s| - 1])
  }

  /** What ParseUint and ParseInt report: a value, a syntax error, or a range error with the clamped value. */
  datatype NumResult = Ok(value: int) | SyntaxErr | RangeErr(clamped: int)

  /**
   * ParseUint's digit loop from position i with accumulator n: a non-digit is a
   * syntax error, an accumulator about to overflow 64 bits is a range error,
   * whichever comes first.
   */
  function ScanUint(s: string, i: nat, n: int): NumResult
    requires i <= |s|
    decreases |s| - i
  {
    if i == |s| then Ok(n)
    else if !IsDigit(s[i]) then SyntaxErr
    else if n >= UINT64_CUTOFF then RangeErr(MAX_UINT64)
    else
      var n1 := n * 10 + DigitVal(s[i]);
      if n1 > MAX_UINT64 then RangeErr(MAX_UINT64) else ScanUint(s, i + 1, n1)
  }

  /** strconv.ParseUint(s, 10, 64). */
  function ParseUint(s: string): NumResult
  {
    if s == "" then SyntaxErr else ScanUint(s, 0, 0)
  }

  /** strconv.ParseInt(s, 10, 64): an optional sign, then ParseUint, then the signed range check. */
  function ParseInt(s: string): NumResult
  {
    if s == "" then SyntaxErr
    else
      var neg := s[0] == '-';
      var digits := if s[0] == '+' || s[0] == '-' then s[1..] else s;
      match ParseUint(digits)
      case SyntaxErr => SyntaxErr
      case Ok(un) =>
        if !neg && un > MAX_INT64 then RangeErr(MAX_INT64)
        else if neg && un > -MIN_INT64 then RangeErr(MIN_INT64)
        else Ok(if neg then -un else un)
      case RangeErr(_) => if neg then RangeErr(MIN_INT64) else RangeErr(MAX_INT64)
  }

  /** strconv.Atoi on a 64-bit platform: the value, or None on any error. */
  function Atoi(s: string): (r: Option<int>)
    ensures r.Some? ==> MIN_INT64 <= r.value <= MAX_INT64
  {
    ParseIntInRange(s);
    match ParseInt(s)
    case Ok(v) => Some(v)
    case _ => None
  }

  /** The value `v, _ := strconv.ParseInt(s, 10, 64)` leaves in v when the error is discarded. */
  function ParseIntIgnoringError(s: string): (v: int)
    ensures MIN_INT64 <= v <= MAX_INT64
  {
    ParseIntInRange(s);
    match ParseInt(s)
    case Ok(v) => v
    case RangeErr(c) => c
    case SyntaxErr => 0
  }

  /** Decimal digits of a natural number, without leading zeros. */
  function FormatNat(n: nat): (s: string)
    ensures |s| > 0 && AllDigits(s)
  {
    if n < 10 then [DigitChar(n)] else FormatNat(n / 10) + [DigitChar(n % 10)]
  }

  /** strconv.FormatInt(n, 10). */
  function FormatInt(n: int): (s: string)
  {
    if n < 0 then "-" + FormatNat(-n) else FormatNat(n)
  }

  /** Whatever ParseInt reports lies in the int64 range. */
  lemma ParseIntInRange(s: string)
    ensures ParseInt(s).Ok? ==> MIN_INT64 <= ParseInt(s).value <= MAX_INT64
    ensures ParseInt(s).RangeErr? ==> ParseInt(s).clamped in {MIN_INT64, MAX_INT64}
  {
    if s != "" {
      var digits := if s[0] == '+' || s[0] == '-' then s[1..] else s;
      if digits != "" {
        ScanUintNonNegative(digits, 0, 0);
      }
    }
  }

  lemma {:induction false} ScanUintNonNegative(s: string, i: nat, n: int)
    requires i <= |s| && n >= 0
    ensures ScanUint(s, i, n).Ok? ==> ScanUint(s, i, n).value >= 0
    decreases |s| - i
  {
    if i < |s| && IsDigit(s[i]) && n < UINT64_CUTOFF && n * 10 + DigitVal(s[i]) <= MAX_UINT64 {
      ScanUintNonNegative(s, i + 1, n * 10 + DigitVal(s[i]));
    }
  }

  lemma {:induction false} FormatNatValue(n: nat)
    ensures DigitsValue(FormatNat(n)) == n
  {
    if n >= 10 {
      var s := FormatNat(n);
      assert s[..|s| - 1] == FormatNat(n / 10);
      FormatNatValue(n / 10);
    }
  }

  /** A longer prefix of a digit string never denotes a smaller number. */
  lemma {:induction false} PrefixValueMonotone(s: string, j: nat, k: nat)
    requires AllDigits(s) && j <= k <= |s|
    ensures DigitsValue(s[..j]) <= DigitsValue(s[..k])
    decreases k - j
  {
    if j < k {
      PrefixValueMonotone(s, j, k - 1);
      assert s[..k][..k - 1] == s[..k - 1];
    }
  }

  /** A digit string whose value fits in 64 bits scans to that value without a range error. */
  lemma {:induction false} ScanUintDigits(s: string, i: nat)
    requires AllDigits(s) && i <= |s| && DigitsValue(s) <= MAX_UINT64
    ensures ScanUint(s, i, DigitsValue(s[..i])) == Ok(DigitsValue(s))
    decreases |s| - i
  {
    assert s[..|s|] == s;
    if i < |s| {
      var n := DigitsValue(s[..i]);
      assert s[..i + 1][..i] == s[..i];
      assert DigitsValue(s[..i + 1]) == n * 10 + DigitVal(s[i]);
      PrefixValueMonotone(s, i + 1, |s|);
      ScanUintDigits(s, i + 1);
    }
  }

  /** FormatInt and ParseInt are inverse on the int64 range. */
  lemma ParseFormatInt(n: int)
    requires MIN_INT64 <= n <= MAX_INT64
    ensures ParseInt(FormatInt(n)) == Ok(n)
  {
    var m := if n < 0 then -n else n;
    var d := FormatNat(m);
    FormatNatValue(m);
    ScanUintDigits(d, 0);
    assert d[..0] == [];
    assert ParseUint(d) == Ok(m);
    if n < 0 {
      assert FormatInt(n)[1..] == d;
    } else {
      assert FormatInt(n) == d;
    }
  }

  /** Round trip through the form IntVal uses: the error is never consulted for a formatted integer. */
  lemma ParseFormatIgnoringError(n: int)
    requires MIN_INT64 <= n <= MAX_INT64
    ensures ParseIntIgnoringError(FormatInt(n)) == n
    ensures Atoi(FormatInt(n)) == Some(n)
  {
    ParseFormatInt(n);
  }

  /** A string too short to overflow scans to a syntax error exactly when it holds a non-digit. */
  lemma {:induction false} ScanShort(s: string, i: nat, n: int)
    requires i <= |s| <= 19 && 0 <= n < Pow10(i)
    ensures ScanUint(s, i, n) == SyntaxErr <==> !AllDigits(s[i..])
    ensures !ScanUint(s, i, n).RangeErr?
    decreases |s| - i
  {
    if i < |s| {
      Pow10Bound(i);
      if IsDigit(s[i]) {
        assert n * 10 + DigitVal(s[i]) < Pow10(i + 1);
        ScanShort(s, i + 1, n * 10 + DigitVal(s[i]));
        assert s[i..] == [s[i]] + s[i + 1..];
      }
    }
  }

  function Pow10(k: nat): (p: nat)
    ensures p >= 1
  {
    if k == 0 then 1 else 10 * Pow10(k - 1)
  }

  lemma {:induction false} Pow10Bound(k: nat)
    requires k <= 18
    ensures Pow10(k) <= 1_000_000_000_000_000_000
  {
    Pow10Monotone(k, 18);
    assert Pow10(6) == 1_000_000;
    assert Pow10(12) == 1_000_000_000_000;
  }

  lemma {:induction false} Pow10Monotone(j: nat, k: nat)
    requires j <= k
    ensures Pow10(j) <= Pow10(k)
    decreases k - j
  {
    if j < k { Pow10Monotone(j, k - 1); }
  }

  /** An optional sign followed by at least one digit: the only shape ParseInt accepts. */
  predicate WellFormed(s: string)
  {
    var digits := if |s| > 0 && (s[0] == '+' || s[0] == '-') then s[1..] else s;
    |digits| > 0 && AllDigits(digits)
  }

  /** IntVal's discarded error: a malformed string too short to overflow yields 0. */
  lemma MalformedIsZero(s: string)
    requires |s| <= 19 && !WellFormed(s)
    ensures ParseInt(s) == SyntaxErr
    ensures ParseIntIgnoringError(s) == 0
    ensures Atoi(s) == None
  {
    if s != "" {
      var digits := if s[0] == '+' || s[0] == '-' then s[1..] else s;
      if digits != "" {
        ScanShort(digits, 0, 0);
        assert digits[0..] == digits;
      }
    }
  }
}
