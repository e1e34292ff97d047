/** Numbers as the ledger reads and writes them: Python's `float(text)`
    and `str(number)`, over finite decimal fractions. */
module Numbers {
  import opened Results
  import opened Strings

  /** The number `digits / 10^scale`; stands for a Python float. */
  datatype Decimal = Decimal(digits: int, scale: nat)

  /** The one spelling of each number: no trailing zero after the point.
      Two canonical decimals are equal exactly when their values are. */
  predicate Canonical(d: Decimal) {
    d.scale == 0 || d.digits % 10 != 0
  }

  /** A Python float as the ledger sees it: a decimal in its one spelling. */
  type Float = d: Decimal | Canonical(d) witness Decimal(0, 0)

  function Pow10(k: nat): (p: nat)
    ensures p >= 1
  {
    if k == 0 then 1 else 10 * Pow10(k - 1)
  }

  /** The real number a decimal denotes. */
  function ToReal(d: Decimal): real {
    d.digits as real / Pow10(d.scale) as real
  }

  function Abs(i: int): nat {
    if i < 0 then -i else i
  }

  /** The canonical spelling of `digits / 10^scale`. */
  function Normalize(digits: int, scale: nat): (d: Decimal)
    ensures Canonical(d)
    ensures ToReal(d) == digits as real / Pow10(scale) as real
    ensures d.scale <= scale
    ensures d.digits * Pow10(scale - d.scale) == digits
    decreases scale
  {
    if scale > 0 && digits % 10 == 0 then
      var d := Normalize(digits / 10, scale - 1);
      NormalizeStep(digits, scale);
      assert Pow10(scale - d.scale) == 10 * Pow10(scale - 1 - d.scale);
      d
    else
      Decimal(digits, scale)
  }

  lemma NormalizeStep(digits: int, scale: nat)
    requires scale > 0 && digits % 10 == 0
    ensures (digits / 10) as real / Pow10(scale - 1) as real == digits as real / Pow10(scale) as real
  {
    var q := digits / 10;
    var p := Pow10(scale - 1) as real;
    assert digits == 10 * q;
    assert Pow10(scale) as real == 10.0 * p;
    assert p > 0.0;
    calc {
      digits as real / (10.0 * p);
      (10.0 * q as real) / (10.0 * p);
      q as real / p;
    }
  }

  predicate IsDigit(c: char) {
    '0' <= c <= '9'
  }

  predicate AllDigits(s: string) {
    forall i :: 0 <= i < |s| ==> IsDigit(s[i])
  }

  function DigitValue(c: char): nat
    requires IsDigit(c)
  {
    (c as int) - ('0' as int)
  }

  function DigitChar(n: nat): (c: char)
    requires n < 10
    ensures IsDigit(c) && DigitValue(c) == n
  {
    ('0' as int + n) as char
  }

  /** The number a string of decimal digits spells, most significant first. */
  function DigitsValue(s: string): nat
    requires AllDigits(s)
  {
    if |s| == 0 then 0 else 10 * DigitsValue(s[..|s| - 1]) + DigitValue(s[|s| - 1])
  }

  lemma {:induction false} DigitsValueAppend(a: string, b: string)
    requires AllDigits(a) && AllDigits(b)
    ensures AllDigits(a + b)
    ensures DigitsValue(a + b) == DigitsValue(a) * Pow10(|b|) + DigitsValue(b)
  {
    if |b| > 0 {
      var b' := b[..|b| - 1];
      DigitsValueAppend(a, b');
      assert (a + b)[..|a + b| - 1] == a + b';
      assert DigitsValue(a + b) == 10 * DigitsValue(a + b') + DigitValue(b[|b| - 1]);
      assert DigitsValue(b) == 10 * DigitsValue(b') + DigitValue(b[|b| - 1]);
      ShiftDigit(DigitsValue(a), Pow10(|b'|), DigitsValue(b'), DigitValue(b[|b| - 1]));
    } else {
      assert a + b == a;
    }
  }

  lemma ShiftDigit(x: int, p: int, y: int, d: int)
    ensures 10 * (x * p + y) + d == x * (10 * p) + (10 * y + d)
  {
  }

  /** Python's `str(n)` for a natural number: its shortest decimal spelling. */
  function NatToString(n: nat): (s: string)
    ensures |s| >= 1 && AllDigits(s)
    ensures DigitsValue(s) == n
  {
    if n < 10 then [DigitChar(n)]
    else
      var s := NatToString(n / 10) + [DigitChar(n % 10)];
      assert s[..|s| - 1] == NatToString(n / 10);
      s
  }

  /** The `k` low-order digits of `n`, leading zeros included: the digits
      after the point. */
  function PadDigits(n: nat, k: nat): (s: string)
    ensures |s| == k && AllDigits(s)
  {
    if k == 0 then "" else PadDigits(n / 10, k - 1) + [DigitChar(n % 10)]
  }

  /** `n` with its `k` low-order digits dropped: the digits before the point. */
  function DropDigits(n: nat, k: nat): nat {
    if k == 0 then n else DropDigits(n / 10, k - 1)
  }

  /** Cutting `n` after its `k` low-order digits loses nothing. */
  lemma {:induction false} DropAndPad(n: nat, k: nat)
    ensures DropDigits(n, k) * Pow10(k) + DigitsValue(PadDigits(n, k)) == n
  {
    if k > 0 {
      var s := PadDigits(n, k);
      DropAndPad(n / 10, k - 1);
      assert s[..|s| - 1] == PadDigits(n / 10, k - 1);
      assert DigitsValue(s) == 10 * DigitsValue(PadDigits(n / 10, k - 1)) + n % 10;
      ShiftDigit(DropDigits(n / 10, k - 1), Pow10(k - 1), DigitsValue(PadDigits(n / 10, k - 1)), n % 10);
    }
  }

  /** The characters a printed number is made of. */
  predicate NumeralChars(s: string) {
    forall i :: 0 <= i < |s| ==> IsDigit(s[i]) || s[i] == '.' || s[i] == '-'
  }

  lemma NumeralCharsConcat(a: string, b: string)
    requires NumeralChars(a) && NumeralChars(b)
    ensures NumeralChars(a + b)
  {
  }

  /** No character of a printed number is whitespace. */
  lemma {:induction false} NumeralEdgeless(s: string)
    requires NumeralChars(s)
    ensures Edgeless(s)
  {
    if |s| > 0 {
      assert IsDigit(s[0]) || s[0] == '.' || s[0] == '-';
      assert IsDigit(s[|s| - 1]) || s[|s| - 1] == '.' || s[|s| - 1] == '-';
    }
  }

  lemma {:induction false} DigitsNumeral(s: string)
    requires AllDigits(s)
    ensures NumeralChars(s)
  {
  }

  /** The digits after the point of `m / 10^scale`; a lone `0` for a
      whole number. */
  function FractionPart(m: nat, scale: nat): (s: string)
    ensures |s| > 0 && AllDigits(s)
  {
    if scale == 0 then "0" else PadDigits(m, scale)
  }

  function SignPrefix(negative: bool): string {
    if negative then "-" else ""
  }

  /** Python's `str(x)` for a float, written positionally: an optional
      minus sign, the whole part, a point and the fraction digits, or `.0`
      for a whole number (`100000.0`, `0.01`, `-2.5`). */
  function ShowDecimal(d: Decimal): (s: string)
    ensures |s| > 0 && Edgeless(s) && NumeralChars(s)
  {
    var body := ShowMagnitude(Abs(d.digits), d.scale);
    NumeralCharsConcat(SignPrefix(d.digits < 0), body);
    NumeralEdgeless(SignPrefix(d.digits < 0) + body);
    SignPrefix(d.digits < 0) + body
  }

  /** `m / 10^scale` printed without a sign. */
  function ShowMagnitude(m: nat, scale: nat): (s: string)
    ensures |s| > 0 && IsDigit(s[0]) && NumeralChars(s)
  {
    var digits := NatToString(DropDigits(m, scale));
    var fraction := FractionPart(m, scale);
    DigitsNumeral(digits);
    DigitsNumeral(fraction);
    NumeralCharsConcat(digits, ".");
    NumeralCharsConcat(digits + ".", fraction);
    digits + "." + fraction
  }

  /** Python's `str(i)` for an integer. */
  function IntToString(i: int): (s: string)
    ensures |s| > 0 && Edgeless(s) && NumeralChars(s)
  {
    var body := NatToString(Abs(i));
    DigitsNumeral(body);
    NumeralCharsConcat(SignPrefix(i < 0), body);
    NumeralEdgeless(SignPrefix(i < 0) + body);
    SignPrefix(i < 0) + body
  }

  /** Python's `float(text)` over the decimal grammar: whitespace around
      the number is ignored; then an optional sign, and digits with at
      most one point and at least one digit. Anything else is not a number. */
  function ParseFloat(text: string): (r: Option<Decimal>)
    ensures r.Some? ==> Canonical(r.value)
  {
    ParseDecimal(Strip(text))
  }

  /** The decimal grammar on a string already stripped of whitespace. */
  function ParseDecimal(s: string): (r: Option<Decimal>)
    ensures r.Some? ==> Canonical(r.value)
  {
    if |s| > 0 && (s[0] == '-' || s[0] == '+') then WithSign(s[0] == '-', ParseUnsigned(s[1..]))
    else WithSign(false, ParseUnsigned(s))
  }

  /** The number an unsigned reading and a sign make. */
  function WithSign(negative: bool, unsigned: Option<(nat, nat)>): (r: Option<Decimal>)
    ensures r.Some? ==> Canonical(r.value)
  {
    match unsigned
    case None => None
    case Some((magnitude, scale)) => Some(Normalize(if negative then -(magnitude as int) else magnitude, scale))
  }

  /** Digits with at most one point and at least one digit, read as
      `(all digits as one number, number of digits after the point)`. */
  function ParseUnsigned(body: string): Option<(nat, nat)> {
    var dot := IndexOf(body, '.');
    var whole := body[..dot];
    var fraction := if dot < |body| then body[dot + 1..] else "";
    if AllDigits(whole) && AllDigits(fraction) && |whole| + |fraction| > 0 then
      DigitsValueAppend(whole, fraction);
      Some((DigitsValue(whole + fraction), |fraction|))
    else
      None
  }

  lemma {:induction false} NoPointInDigits(s: string)
    requires AllDigits(s)
    ensures '.' !in s
  {
    forall i | 0 <= i < |s| ensures s[i] != '.' {
      assert IsDigit(s[i]);
    }
  }

  /** `whole.fraction` with digit-only halves reads as all its digits,
      scaled by the length of the fraction. */
  lemma {:induction false} ParseUnsignedPointed(whole: string, fraction: string)
    requires AllDigits(whole) && AllDigits(fraction) && |whole| > 0
    ensures AllDigits(whole + fraction)
    ensures ParseUnsigned(whole + "." + fraction) == Some((DigitsValue(whole + fraction), |fraction|))
  {
    DigitsValueAppend(whole, fraction);
    var body := whole + "." + fraction;
    NoPointInDigits(whole);
    assert body[..|whole|] == whole;
    IndexOfFirst(body, '.', |whole|);
    assert body[|whole| + 1..] == fraction;
  }

  /** Digits alone read as a whole number. */
  lemma {:induction false} ParseUnsignedWhole(whole: string)
    requires AllDigits(whole) && |whole| > 0
    ensures ParseUnsigned(whole) == Some((DigitsValue(whole), 0))
  {
    NoPointInDigits(whole);
    assert whole[..|whole|] == whole;
    assert whole + "" == whole;
  }

  /** A printed number, a digit behind an optional minus sign, reads as
      its unsigned part with that sign. */
  lemma {:induction false} ParseSigned(negative: bool, body: string)
    requires |body| > 0 && IsDigit(body[0]) && NumeralChars(body)
    ensures ParseFloat(SignPrefix(negative) + body) == WithSign(negative, ParseUnsigned(body))
  {
    var s := SignPrefix(negative) + body;
    NumeralCharsConcat(SignPrefix(negative), body);
    NumeralEdgeless(s);
    StripEdgeless(s);
    SignedDecimal(negative, body);
  }

  lemma {:induction false} SignedDecimal(negative: bool, body: string)
    requires |body| > 0 && IsDigit(body[0])
    ensures ParseDecimal(SignPrefix(negative) + body) == WithSign(negative, ParseUnsigned(body))
  {
    var s := SignPrefix(negative) + body;
    if negative {
      assert s[0] == '-' && s[1..] == body;
    } else {
      assert s == body;
    }
  }

  /** `float(str(x)) == x`: a printed number reads back as itself. */
  lemma ShowParse(d: Decimal)
    requires Canonical(d)
    ensures ParseFloat(ShowDecimal(d)) == Some(d)
  {
    var m := Abs(d.digits);
    var digits := NatToString(DropDigits(m, d.scale));
    var fraction := FractionPart(m, d.scale);
    ParseSigned(d.digits < 0, ShowMagnitude(m, d.scale));
    ParseUnsignedPointed(digits, fraction);
    ShownDigits(d);
  }

  /** The digits `str(x)` prints, read back and normalised, are `x`. */
  lemma ShownDigits(d: Decimal)
    requires Canonical(d)
    ensures AllDigits(NatToString(DropDigits(Abs(d.digits), d.scale)) + FractionPart(Abs(d.digits), d.scale))
    ensures WithSign(d.digits < 0, Some((DigitsValue(NatToString(DropDigits(Abs(d.digits), d.scale)) + FractionPart(Abs(d.digits), d.scale)),
                                         |FractionPart(Abs(d.digits), d.scale)|))) == Some(d)
  {
    var m := Abs(d.digits);
    var digits := NatToString(DropDigits(m, d.scale));
    var fraction := FractionPart(m, d.scale);
    DigitsValueAppend(digits, fraction);
    var magnitude := DigitsValue(digits + fraction);
    var signed := if d.digits < 0 then -(magnitude as int) else magnitude;
    if d.scale == 0 {
      assert DigitsValue(fraction) == 0;
      assert magnitude == 10 * m;
      NormalizeWhole(signed, d.digits);
    } else {
      DropAndPad(m, d.scale);
      assert magnitude == m;
      assert signed == d.digits;
    }
  }

  lemma NormalizeWhole(tenfold: int, digits: int)
    requires tenfold == 10 * digits
    ensures Normalize(tenfold, 1) == Decimal(digits, 0)
  {
    assert tenfold % 10 == 0;
    assert tenfold / 10 == digits;
  }

  /** `float(str(i)) == i` for the integers `str` prints. */
  lemma IntToStringParse(i: int)
    ensures ParseFloat(IntToString(i)) == Some(Decimal(i, 0))
  {
    var digits := NatToString(Abs(i));
    DigitsNumeral(digits);
    ParseSigned(i < 0, digits);
    ParseUnsignedWhole(digits);
  }
}
