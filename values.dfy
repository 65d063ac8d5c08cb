/** Dynamically typed values as the flow engine sees them, with Python's `str()`, truthiness,
    `int()` and `float()` conversions written out. */
module Values {
  import opened Wrappers
  import opened Text

  /** A Python value held by a variable, the execution memory or a node context.
      Python's `None` is `VNone`; the other cases are `str`, `int` and `bool`. */
  datatype Value = VNone | VStr(s: string) | VInt(i: int) | VBool(b: bool)

  /** The value a dialog answer becomes: `askstring` returns a string, or `None` when cancelled. */
  function FromAnswer(a: Option<string>): (v: Value)
    ensures a.None? <==> v == VNone
    ensures a.Some? ==> v == VStr(a.value)
  {
    match a
    case Some(s) => VStr(s)
    case None => VNone
  }

  predicate IsDigit(c: char) { '0' <= c <= '9' }

  predicate AllDigits(s: string) {
    forall i :: 0 <= i < |s| ==> IsDigit(s[i])
  }

  function DigitValue(c: char): (d: nat)
    requires IsDigit(c)
    ensures d < 10
  {
    c as int - '0' as int
  }

  function DigitChar(d: nat): (c: char)
    requires d < 10
    ensures IsDigit(c) && DigitValue(c) == d
  {
    ('0' as int + d) as char
  }

  /** Decimal rendering of a natural number, as `str(n)` prints it. */
  function NatToString(n: nat): (s: string)
    ensures |s| > 0 && AllDigits(s)
    decreases n
  {
    if n < 10 then [DigitChar(n)] else NatToString(n / 10) + [DigitChar(n % 10)]
  }

  /** The number a string of decimal digits denotes. */
  function DigitsValue(s: string): nat
    requires AllDigits(s)
    decreases |s|
  {
    if |s| == 0 then 0 else 10 * DigitsValue(s[..|s| - 1]) + DigitValue(s[|s| - 1])
  }

  /** Printing a number and reading it back yields the same number. */
  lemma {:induction false} DigitsValueOfNatToString(n: nat)
    ensures DigitsValue(NatToString(n)) == n
    decreases n
  {
    var s := NatToString(n);
    if n >= 10 {
      DigitsValueOfNatToString(n / 10);
      assert s[..|s| - 1] == NatToString(n / 10);
    }
  }

  /** `str(i)` for an integer. */
  function IntToString(i: int): (s: string)
    ensures |s| > 0
    ensures i >= 0 ==> AllDigits(s)
    ensures i < 0 ==> s[0] == '-' && AllDigits(s[1..])
  {
    if i < 0 then "-" + NatToString(-i) else NatToString(i)
  }

  /** Python's `str(v)`. */
  function Str(v: Value): (s: string)
    ensures v.VStr? ==> s == v.s
    ensures v.VNone? ==> s == "None"
  {
    match v
    case VNone => "None"
    case VStr(s) => s
    case VInt(i) => IntToString(i)
    case VBool(b) => if b then "True" else "False"
  }

  /** Python's truthiness (`if v:`). */
  predicate Truthy(v: Value) {
    match v
    case VNone => false
    case VStr(s) => s != ""
    case VInt(i) => i != 0
    case VBool(b) => b
  }

  // ---------------------------------------------------------------------------
  // int()

  /** An optionally signed run of decimal digits. */
  function ParseSignedDigits(s: string): (r: Option<int>)
    ensures r.Some? && r.value < 0 ==> |s| > 0 && s[0] == '-'
  {
    if |s| > 0 && (s[0] == '+' || s[0] == '-') then
      var digits := s[1..];
      if |digits| > 0 && AllDigits(digits) then
        var n: int := DigitsValue(digits);
        Some(if s[0] == '-' then -n else n)
      else None
    else if |s| > 0 && AllDigits(s) then Some(DigitsValue(s))
    else None
  }

  /** Python's `int(s)` on a string: surrounding whitespace, an optional sign, then decimal
      digits. `None` stands for the `ValueError` that `int` raises. */
  function ParseInt(s: string): Option<int> {
    ParseSignedDigits(Strip(s))
  }

  /** `str(i)` has no surrounding whitespace. */
  lemma IntToStringStripped(i: int)
    ensures Strip(IntToString(i)) == IntToString(i)
  {
    var s := IntToString(i);
    assert IsDigit(s[|s| - 1]);
    assert IsStripped(s);
    StripStripped(s);
  }

  lemma ParseSignedNat(n: nat)
    ensures ParseSignedDigits(NatToString(n)) == Some(n)
  {
    var s := NatToString(n);
    assert IsDigit(s[0]);
    DigitsValueOfNatToString(n);
  }

  lemma ParseSignedNegative(n: nat)
    requires n > 0
    ensures ParseSignedDigits("-" + NatToString(n)) == Some(-(n as int))
  {
    var s := "-" + NatToString(n);
    assert s[1..] == NatToString(n);
    DigitsValueOfNatToString(n);
  }

  /** `int(str(i)) == i`. */
  lemma ParseIntOfIntToString(i: int)
    ensures ParseInt(IntToString(i)) == Some(i)
  {
    IntToStringStripped(i);
    assert ParseInt(IntToString(i)) == ParseSignedDigits(IntToString(i));
    if i < 0 {
      ParseSignedNegative(-i);
    } else {
      ParseSignedNat(i);
    }
  }

  // ---------------------------------------------------------------------------
  // float()

  function Pow10(n: nat): (r: real)
    ensures r >= 1.0
  {
    if n == 0 then 1.0 else 10.0 * Pow10(n - 1)
  }

  /** Digits with at most one decimal point and at least one digit: `12`, `1.5`, `.5`, `3.`. */
  function ParseMantissa(s: string): Option<real> {
    match IndexOf(s, ".")
    case None =>
      if |s| > 0 && AllDigits(s) then Some(DigitsValue(s) as real) else None
    case Some(k) =>
      var whole, frac := s[..k], s[k + 1..];
      if AllDigits(whole) && AllDigits(frac) && |whole| + |frac| > 0 then
        Some(DigitsValue(whole + frac) as real / Pow10(|frac|))
      else None
  }

  /** A mantissa, optionally followed by `e` or `E` and a signed exponent. */
  function ParseUnsignedFloat(s: string): Option<real> {
    var e := match IndexOf(s, "e") case Some(k) => Some(k) case None => IndexOf(s, "E");
    match e
    case None => ParseMantissa(s)
    case Some(k) =>
      match (ParseMantissa(s[..k]), ParseSignedDigits(s[k + 1..]))
      case (Some(m), Some(x)) => Some(if x >= 0 then m * Pow10(x) else m / Pow10(-x))
      case _ => None
  }

  /** Python's `float(s)` on a string, for decimal literals with surrounding whitespace, an
      optional sign and an optional exponent. `None` stands for the `ValueError` it raises. */
  function ParseFloat(s: string): Option<real> {
    var t := Strip(s);
    if |t| > 0 && (t[0] == '+' || t[0] == '-') then
      match ParseUnsignedFloat(t[1..])
      case Some(m) => Some(if t[0] == '-' then -m else m)
      case None => None
    else ParseUnsignedFloat(t)
  }

  /** Python's `float(v)`: strings are parsed, integers and booleans convert, and `None` raises
      a `TypeError` (here `None`). */
  function FloatOf(v: Value): (r: Option<real>)
    ensures v.VNone? ==> r.None?
    ensures v.VInt? ==> r == Some(v.i as real)
  {
    match v
    case VNone => None
    case VStr(s) => ParseFloat(s)
    case VInt(i) => Some(i as real)
    case VBool(b) => Some(if b then 1.0 else 0.0)
  }

  lemma DigitsHaveNo(s: string, c: char)
    requires AllDigits(s) && !IsDigit(c)
    ensures IndexOf(s, [c]).None?
  {
    forall j: nat ensures !Occurs(s, [c], j) {
      if j + 1 <= |s| { assert s[j..j + 1] == [s[j]]; }
    }
  }

  lemma ParseUnsignedDigits(s: string)
    requires |s| > 0 && AllDigits(s)
    ensures ParseUnsignedFloat(s) == Some(DigitsValue(s) as real)
  {
    DigitsHaveNo(s, 'e');
    DigitsHaveNo(s, 'E');
    DigitsHaveNo(s, '.');
  }

  lemma ParseFloatDigits(s: string)
    requires |s| > 0 && AllDigits(s)
    ensures ParseFloat(s) == Some(DigitsValue(s) as real)
  {
    assert IsDigit(s[0]) && IsDigit(s[|s| - 1]);
    StripStripped(s);
    ParseUnsignedDigits(s);
  }

  lemma ParseFloatNat(n: nat)
    ensures ParseFloat(NatToString(n)) == Some(n as real)
  {
    DigitsValueOfNatToString(n);
    ParseFloatDigits(NatToString(n));
  }

  lemma ParseFloatNegative(n: nat)
    requires n > 0
    ensures ParseFloat("-" + NatToString(n)) == Some(-(n as real))
  {
    var d := NatToString(n);
    var s := "-" + d;
    assert s[1..] == d;
    assert IsDigit(d[|d| - 1]) && s[|s| - 1] == d[|d| - 1];
    StripStripped(s);
    DigitsValueOfNatToString(n);
    ParseUnsignedDigits(d);
  }

  lemma ParseFloatOfIntToString(i: int)
    ensures ParseFloat(IntToString(i)) == Some(i as real)
  {
    var s := IntToString(i);
    if i < 0 {
      var n: nat := -i;
      assert s == "-" + NatToString(n);
      ParseFloatNegative(n);
      assert -(n as real) == i as real;
    } else {
      assert s == NatToString(i);
      ParseFloatNat(i);
    }
  }

  /** `float(str(i)) == float(i)`: an integer printed and read back as a float keeps its value. */
  lemma FloatOfPrintedInt(i: int)
    ensures FloatOf(VStr(Str(VInt(i)))) == FloatOf(VInt(i))
  {
    assert Str(VInt(i)) == IntToString(i);
    ParseFloatOfIntToString(i);
  }

  predicate NoDigit(s: string) {
    forall i :: 0 <= i < |s| ==> !IsDigit(s[i])
  }

  lemma NoDigitMantissa(s: string)
    requires NoDigit(s)
    ensures ParseMantissa(s).None?
  {
    match IndexOf(s, ".")
    case None =>
      if |s| > 0 { assert !IsDigit(s[0]); }
    case Some(k) =>
      var whole, frac := s[..k], s[k + 1..];
      if |whole| > 0 { assert !IsDigit(whole[0]); }
      else if |frac| > 0 { assert !IsDigit(frac[0]); }
  }

  lemma NoDigitUnsigned(s: string)
    requires NoDigit(s)
    ensures ParseUnsignedFloat(s).None?
  {
    var e := match IndexOf(s, "e") case Some(k) => Some(k) case None => IndexOf(s, "E");
    match e
    case None => NoDigitMantissa(s);
    case Some(k) => NoDigitMantissa(s[..k]);
  }

  /** Text without a single digit never parses as a number, so a comparison `>`/`<` against
      such a literal is false. */
  lemma {:induction false} NoDigitIsNotFloat(s: string)
    requires NoDigit(s)
    ensures ParseFloat(s).None?
  {
    var t := Strip(s);
    var k := StripIsSlice(s);
    assert NoDigit(t) by {
      assert forall i :: 0 <= i < |t| ==> t[i] == s[k + i];
    }
    if |t| > 0 && (t[0] == '+' || t[0] == '-') {
      NoDigitUnsigned(t[1..]);
    } else {
      NoDigitUnsigned(t);
    }
  }
}
