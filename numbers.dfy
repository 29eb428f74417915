/** Decimal text and numbers: the subset of Python's float() and int() that
    the table cells use, and str() of an integer. The readers scan the text
    by position, as the C parsers behind float() and int() do. */
module Numbers {
  import opened Wrappers
  import opened Strings

  predicate IsDigit(c: char)
  {
    '0' <= c <= '9'
  }

  predicate AllDigits(s: string)
  {
    forall i :: 0 <= i < |s| ==> IsDigit(s[i])
  }

  /** The value of one decimal digit (0 for any other character). */
  function DigitOf(c: char): (d: nat)
    ensures d < 10
  {
    if IsDigit(c) then c as int - '0' as int else 0
  }

  /** The end of the run of digits that starts at position i. */
  function SkipDigits(s: string, i: nat): (k: nat)
    requires i <= |s|
    ensures i <= k <= |s|
    decreases |s| - i
  {
    if i < |s| && IsDigit(s[i]) then SkipDigits(s, i + 1) else i
  }

  /** The value of the digits s[i..k], most significant first. */
  function DigitsAt(s: string, i: nat, k: nat): nat
    requires i <= k <= |s|
    decreases k
  {
    if k == i then 0 else 10 * DigitsAt(s, i, k - 1) + DigitOf(s[k - 1])
  }

  /** The value of the digits s[i..k] read after a decimal point: "25" is 0.25. */
  function FractionAt(s: string, i: nat, k: nat): real
    requires i <= k <= |s|
    decreases k - i
  {
    if k == i then 0.0 else (DigitOf(s[i]) as real + FractionAt(s, i + 1, k)) / 10.0
  }

  /** The value of a whole string of digits. */
  function DigitsValue(s: string): nat
  {
    DigitsAt(s, 0, |s|)
  }

  /** The value of a whole string of digits written after a decimal point. */
  function FractionValue(s: string): real
  {
    FractionAt(s, 0, |s|)
  }

  /** The value of the decimal literal <whole>.<frac>. */
  function DecimalValue(whole: string, frac: string): real
  {
    DigitsValue(whole) as real + FractionValue(frac)
  }

  /** A run that reaches the end of the text when every character from i on is a digit. */
  lemma {:induction false} SkipDigitsAll(s: string, i: nat)
    requires i <= |s| && forall m :: i <= m < |s| ==> IsDigit(s[m])
    ensures SkipDigits(s, i) == |s|
    decreases |s| - i
  {
    if i < |s| {
      SkipDigitsAll(s, i + 1);
    }
  }

  /** A run stops at the first character that is not a digit. */
  lemma {:induction false} SkipDigitsStop(s: string, i: nat, k: nat)
    requires i <= k < |s| && !IsDigit(s[k]) && forall m :: i <= m < k ==> IsDigit(s[m])
    ensures SkipDigits(s, i) == k
    decreases k - i
  {
    if i < k {
      SkipDigitsStop(s, i + 1, k);
    }
  }

  /** Digits read at the same place in two texts that agree there have the same value. */
  lemma {:induction false} DigitsAtShift(s: string, i: nat, k: nat, t: string, j: nat)
    requires i <= k <= |s| && j + (k - i) <= |t|
    requires forall p :: i <= p < k ==> s[p] == t[j + (p - i)]
    ensures DigitsAt(s, i, k) == DigitsAt(t, j, j + (k - i))
    decreases k
  {
    if k > i {
      DigitsAtShift(s, i, k - 1, t, j);
      assert s[k - 1] == t[j + (k - 1 - i)];
    }
  }

  /** The same for digits read after a decimal point. */
  lemma {:induction false} FractionAtShift(s: string, i: nat, k: nat, t: string, j: nat)
    requires i <= k <= |s| && j + (k - i) <= |t|
    requires forall p :: i <= p < k ==> s[p] == t[j + (p - i)]
    ensures FractionAt(s, i, k) == FractionAt(t, j, j + (k - i))
    decreases k - i
  {
    if k > i {
      assert s[i] == t[j];
      FractionAtShift(s, i + 1, k, t, j + 1);
    }
  }

  function DigitChar(d: nat): (c: char)
    requires d < 10
    ensures IsDigit(c) && DigitOf(c) == d
  {
    ('0' as int + d) as char
  }

  /** Python's str(n) for a natural number. */
  function NatToString(n: nat): (r: string)
    ensures |r| >= 1 && AllDigits(r)
  {
    if n < 10 then [DigitChar(n)] else NatToString(n / 10) + [DigitChar(n % 10)]
  }

  /** Reading back the digits of a number gives the number. */
  lemma {:induction false} NatToStringValue(n: nat)
    ensures DigitsValue(NatToString(n)) == n
  {
    if n >= 10 {
      var s := NatToString(n);
      var p := NatToString(n / 10);
      assert s == p + [DigitChar(n % 10)];
      DigitsAtShift(s, 0, |p|, p, 0);
      NatToStringValue(n / 10);
    }
  }

  /** Python's str(i) for an integer. */
  function IntToString(i: int): (r: string)
    ensures |r| >= 1 && ' ' !in r
    ensures !IsSpace(r[0]) && !IsSpace(r[|r| - 1])
  {
    if i < 0 then "-" + NatToString(-i) else NatToString(i)
  }

  /** Where the digits of a signed literal start: after a leading sign. */
  function SignEnd(t: string): (start: nat)
    ensures start <= |t| && (start == 1 <==> |t| > 0 && (t[0] == '+' || t[0] == '-'))
    ensures start == 0 || start == 1
  {
    if |t| > 0 && (t[0] == '+' || t[0] == '-') then 1 else 0
  }

  /** Python's int(s) on plain ASCII decimal text: surrounding whitespace, an
      optional sign, then at least one digit and nothing else. Python also
      accepts '_' between digits and non-ASCII digits; this model refuses
      both. */
  function ParseInt(s: string): (r: Option<int>)
  {
    var t := Strip(s);
    var start := SignEnd(t);
    if start < |t| && SkipDigits(t, start) == |t| then
      var v: int := DigitsAt(t, start, |t|);
      Some(if start == 1 && t[0] == '-' then -v else v)
    else None
  }

  /** int(str(i)) == i. */
  lemma IntToStringParses(i: int)
    ensures ParseInt(IntToString(i)) == Some(i)
  {
    var s := IntToString(i);
    StripUnchanged(s);
    if i < 0 {
      var d := NatToString(-i);
      assert s == "-" + d && SignEnd(s) == 1;
      SkipDigitsAll(s, 1);
      DigitsAtShift(s, 1, |s|, d, 0);
      NatToStringValue(-i);
    } else {
      assert SignEnd(s) == 0;
      SkipDigitsAll(s, 0);
      NatToStringValue(i);
    }
  }

  /** Distinct integers have distinct decimal text. */
  lemma IntToStringInjective(i: int, j: int)
    requires IntToString(i) == IntToString(j)
    ensures i == j
  {
    IntToStringParses(i);
    IntToStringParses(j);
  }

  /** m * 10^x, by repeated multiplication or division by ten. */
  function Shift(m: real, x: int): real
    decreases if x < 0 then -x else x
  {
    if x == 0 then m else if x > 0 then 10.0 * Shift(m, x - 1) else Shift(m, x + 1) / 10.0
  }

  /** An exponent from position i to the end: an optional sign and at least one digit. */
  function ExponentAt(s: string, i: nat): Option<int>
    requires i <= |s|
  {
    var start := if i < |s| && (s[i] == '+' || s[i] == '-') then i + 1 else i;
    if start < |s| && SkipDigits(s, start) == |s| then
      var v: int := DigitsAt(s, start, |s|);
      Some(if start > i && s[i] == '-' then -v else v)
    else None
  }

  /** An unsigned decimal literal from position i to the end: digits, an
      optional point followed by digits (at least one digit on either side),
      then an optional exponent. */
  function UnsignedAt(s: string, i: nat): Option<real>
    requires i <= |s|
  {
    var w := SkipDigits(s, i);
    var dot := w < |s| && s[w] == '.';
    var f := if dot then SkipDigits(s, w + 1) else w;
    if w == i && f <= w + 1 then None
    else
      var m := DigitsAt(s, i, w) as real + (if dot then FractionAt(s, w + 1, f) else 0.0);
      if f == |s| then Some(m)
      else if s[f] == 'e' || s[f] == 'E' then
        match ExponentAt(s, f + 1)
        case None => None
        case Some(x) => Some(Shift(m, x))
      else None
  }

  /** Python's float(s) on decimal text: surrounding whitespace, an optional
      sign, a decimal literal with an optional exponent. */
  function ParseDecimal(s: string): (r: Option<real>)
  {
    var t := Strip(s);
    var start := SignEnd(t);
    match UnsignedAt(t, start)
    case None => None
    case Some(x) => Some(if start == 1 && t[0] == '-' then -x else x)
  }

  /** float(str(n)) == n for a natural number. */
  lemma NatToStringParsesAsDecimal(n: nat)
    ensures ParseDecimal(NatToString(n)) == Some(n as real)
  {
    var s := NatToString(n);
    StripUnchanged(s);
    assert SignEnd(s) == 0;
    SkipDigitsAll(s, 0);
    NatToStringValue(n);
  }

  /** float("<whole>.<frac>") is the whole part plus the fraction. */
  lemma FractionParses(whole: string, frac: string)
    requires |whole| > 0 && |frac| > 0 && AllDigits(whole) && AllDigits(frac)
    ensures ParseDecimal(whole + "." + frac) == Some(DecimalValue(whole, frac))
  {
    var s := whole + "." + frac;
    assert s[0] == whole[0] && s[|s| - 1] == frac[|frac| - 1];
    StripUnchanged(s);
    assert SignEnd(s) == 0;
    PointLiteral(s, whole, frac);
  }

  /** The scanner reads <whole>.<frac> as its decimal value. */
  lemma PointLiteral(s: string, whole: string, frac: string)
    requires |whole| > 0 && |frac| > 0 && AllDigits(whole) && AllDigits(frac)
    requires s == whole + "." + frac
    ensures UnsignedAt(s, 0) == Some(DecimalValue(whole, frac))
  {
    var w := |whole|;
    assert s[w] == '.';
    assert forall p :: 0 <= p < w ==> s[p] == whole[p];
    assert forall p :: w + 1 <= p < |s| ==> s[p] == frac[p - (w + 1)];
    SkipDigitsStop(s, 0, w);
    SkipDigitsAll(s, w + 1);
    DigitsAtShift(s, 0, w, whole, 0);
    FractionAtShift(s, w + 1, |s|, frac, 0);
  }
}
