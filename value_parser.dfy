/** The cell-value parser of InfonetScrap.py (convert_value): "12 K" is
    twelve thousand, "3%" is 0.03, "abc" is no value, "abc K" raises. */
module ValueParser {
  import opened Wrappers
  import opened Strings
  import opened Numbers

  /** The units a figure is written in. */
  datatype Unit = Plain | Thousand | Million | Billion | ThousandRate | MillionRate | Percent

  function Suffix(u: Unit): string
  {
    match u
    case Plain => ""
    case Thousand => " K"
    case Million => " M"
    case Billion => " Md"
    case ThousandRate => " K %"
    case MillionRate => " M %"
    case Percent => "%"
  }

  /** The number a figure x written in unit u stands for: x * 1000 * 10 for
      " K %", x / 100 for "%". */
  function Apply(u: Unit, x: real): (r: real)
    ensures u == Plain ==> r == x
    ensures u == Percent ==> r * 100.0 == x
    ensures (r > 0.0 <==> x > 0.0) && (r < 0.0 <==> x < 0.0)
  {
    match u
    case Plain => x
    case Thousand => x * 1000.0
    case Million => x * 1000000.0
    case Billion => x * 1000000000.0
    case ThousandRate => x * 1000.0 * 10.0
    case MillionRate => x * 1000000.0 * 10.0
    case Percent => x / 100.0
  }

  /** How many trailing characters the source slices off before parsing the
      number. For " Md" it is 2, like " K" and " M": the blank that remains
      is removed by the strip() that follows. */
  function Cut(u: Unit): (c: nat)
    ensures c <= |Suffix(u)| && (u != Billion ==> c == |Suffix(u)|)
    ensures u == Billion ==> c + 1 == |Suffix(u)| && Suffix(u)[0] == ' '
  {
    match u
    case Plain => 0
    case Thousand => 2
    case Million => 2
    case Billion => 2
    case ThousandRate => 4
    case MillionRate => 4
    case Percent => 1
  }

  /** The suffix tests of convert_value, in the order the source makes them. */
  function UnitOf(t: string): (u: Unit)
    ensures u != Plain ==> EndsWith(t, Suffix(u))
    ensures u == Plain ==> forall v :: v != Plain ==> !EndsWith(t, Suffix(v))
  {
    if EndsWith(t, " K") then Thousand
    else if EndsWith(t, " M") then Million
    else if EndsWith(t, " Md") then Billion
    else if EndsWith(t, " K %") then ThousandRate
    else if EndsWith(t, " M %") then MillionRate
    else if EndsWith(t, "%") then Percent
    else Plain
  }

  /** The text float() is given: the whole token without a suffix, otherwise
      the token with the suffix sliced off and stripped again. */
  function Operand(t: string): (number: string)
    ensures UnitOf(t) == Plain ==> number == t
  {
    if UnitOf(t) == Plain then t
    else
      UnitOfSuffix(t);
      Strip(t[..|t| - Cut(UnitOf(t))])
  }

  /** A token is classified by a suffix it ends with, and it is plain exactly
      when it ends with none of " K", " M", " Md" and "%" (the rate suffixes
      end with "%"). */
  lemma UnitOfSuffix(t: string)
    ensures UnitOf(t) != Plain ==> EndsWith(t, Suffix(UnitOf(t))) && |t| >= Cut(UnitOf(t))
    ensures UnitOf(t) == Plain <==> !(EndsWith(t, " K") || EndsWith(t, " M") || EndsWith(t, " Md") || EndsWith(t, "%"))
  {
    assert " K %"[3] == '%' && " M %"[3] == '%';
  }

  /** convert_value on a stripped token: dispatched on its suffix; only the
      suffix-free branch turns a refused number into no value, every other
      branch raises. */
  function ConvertToken(t: string): (r: Result<Option<real>, Failure>)
    ensures r.Err? <==> UnitOf(t) != Plain && ParseDecimal(Operand(t)).None?
    ensures r.Err? ==> r.error == ValueError
    ensures UnitOf(t) == Plain ==> r == Ok(ParseDecimal(t))
    ensures ParseDecimal(Operand(t)).Some? ==> r == Ok(Some(Apply(UnitOf(t), ParseDecimal(Operand(t)).value)))
  {
    var x := ParseDecimal(Operand(t));
    if x.Some? then Ok(Some(Apply(UnitOf(t), x.value)))
    else if UnitOf(t) == Plain then Ok(None)
    else Err(ValueError)
  }

  /** convert_value: NaN and "" give no value, any other text is stripped
      and converted as a token. */
  function ConvertValue(v: Option<string>): (r: Result<Option<real>, Failure>)
    ensures v == None || v == Some("") ==> r == Ok(None)
    ensures v.Some? && v.value != "" ==> r == ConvertToken(Strip(v.value))
  {
    if v.None? || v.value == "" then Ok(None) else ConvertToken(Strip(v.value))
  }

  /** No suffix holds a digit. */
  predicate NoDigits(y: string)
  {
    forall k :: 0 <= k < |y| ==> !IsDigit(y[k])
  }

  /** Behind a digit string, a digit-free suffix y is seen exactly when x ends with it. */
  lemma EndsWithAfterDigits(d: string, x: string, y: string)
    requires |d| > 0 && AllDigits(d) && NoDigits(y)
    ensures EndsWith(d + x, y) <==> EndsWith(x, y)
  {
    var s := d + x;
    if |y| <= |x| {
      assert forall p :: |d| <= p < |s| ==> s[p] == x[p - |d|];
    } else if |y| <= |s| {
      assert s[|s| - |y| + (|y| - |x| - 1)] == d[|d| - 1];
      assert IsDigit(d[|d| - 1]) && !IsDigit(y[|y| - |x| - 1]);
    }
  }

  /** Behind a digit string, a text is classified as it is on its own. */
  lemma UnitOfAfterDigits(d: string, x: string)
    requires |d| > 0 && AllDigits(d)
    ensures UnitOf(d + x) == UnitOf(x)
  {
    assert NoDigits(" K") && NoDigits(" M") && NoDigits(" Md");
    assert NoDigits(" K %") && NoDigits(" M %") && NoDigits("%");
    EndsWithAfterDigits(d, x, " K");
    EndsWithAfterDigits(d, x, " M");
    EndsWithAfterDigits(d, x, " Md");
    EndsWithAfterDigits(d, x, " K %");
    EndsWithAfterDigits(d, x, " M %");
    EndsWithAfterDigits(d, x, "%");
  }

  /** Each suffix on its own is classified as its unit. */
  lemma SuffixUnit(u: Unit)
    ensures UnitOf(Suffix(u)) == u
  {
    match u
    case Plain =>
    case Thousand =>
    case Million =>
      assert " K"[1] == 'K';
    case Billion =>
      assert " K"[1] == 'K' && " M"[1] == 'M';
    case ThousandRate =>
      assert " K"[1] == 'K' && " M"[1] == 'M' && " Md"[2] == 'd';
    case MillionRate =>
      assert " K"[1] == 'K' && " M"[1] == 'M' && " Md"[2] == 'd' && " K %"[1] == 'K';
    case Percent =>
      assert " K %"[0] == ' ' && " M %"[0] == ' ';
  }

  /** Cutting a unit's suffix off a digit string, as the source slices it,
      and stripping the rest gives back the digit string. */
  lemma CutRendered(d: string, u: Unit)
    requires |d| > 0 && AllDigits(d)
    ensures var s := d + Suffix(u);
      |s| >= Cut(u) && Strip(s[..|s| - Cut(u)]) == d
  {
    var s := d + Suffix(u);
    assert !IsSpace(d[0]) && !IsSpace(d[|d| - 1]);
    if u == Billion {
      assert s[..|s| - Cut(u)] == d + " ";
      StripTrailingBlank(d);
    } else {
      assert s[..|s| - Cut(u)] == d;
      StripUnchanged(d);
    }
  }

  /** A digit string followed by a unit's suffix is classified as that unit,
      and the number the source cuts out of it is the digit string. */
  lemma UnitOfRendered(d: string, u: Unit)
    requires |d| > 0 && AllDigits(d)
    ensures UnitOf(d + Suffix(u)) == u && Operand(d + Suffix(u)) == d
  {
    UnitOfAfterDigits(d, Suffix(u));
    SuffixUnit(u);
    CutRendered(d, u);
    if u == Plain {
      assert d + Suffix(u) == d;
    }
  }

  /** A rendered token has no surrounding whitespace. */
  lemma RenderedIsStripped(d: string, u: Unit)
    requires |d| > 0 && AllDigits(d)
    ensures Strip(d + Suffix(u)) == d + Suffix(u)
  {
    var s := d + Suffix(u);
    assert s[0] == d[0];
    if u == Plain {
      assert s == d;
    } else {
      assert s[|s| - 1] == Suffix(u)[|Suffix(u)| - 1];
    }
    StripUnchanged(s);
  }

  /** A digit string read as x, followed by a unit's suffix, converts to x
      in that unit. */
  lemma RenderedDigitsConvert(d: string, u: Unit, x: real)
    requires |d| > 0 && AllDigits(d) && ParseDecimal(d) == Some(x)
    ensures ConvertToken(d + Suffix(u)) == Ok(Some(Apply(u, x)))
  {
    UnitOfRendered(d, u);
  }

  /** A whole number written in any unit, as a token, converts back to the
      number in that unit. */
  lemma RenderedTokenConverts(n: nat, u: Unit)
    ensures ConvertToken(NatToString(n) + Suffix(u)) == Ok(Some(Apply(u, n as real)))
  {
    var d := NatToString(n);
    NatToStringParsesAsDecimal(n);
    RenderedDigitsConvert(d, u, n as real);
  }

  /** A whole number written in any unit converts back to the number in that unit. */
  lemma RenderedValueConverts(n: nat, u: Unit)
    ensures ConvertValue(Some(NatToString(n) + Suffix(u))) == Ok(Some(Apply(u, n as real)))
  {
    var s := NatToString(n) + Suffix(u);
    RenderedIsStripped(NatToString(n), u);
    RenderedTokenConverts(n, u);
  }
}
