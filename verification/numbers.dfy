/** JavaScript numbers as the coordinate codec meets them: lodash's `_.toNumber`
    reads a token, and `Array.prototype.join` prints a number with
    `Number.prototype.toString()`. Finite values are kept exactly, as a decimal
    mantissa times a power of ten, so the model has no binary rounding. */
module JsNumbers {
  import opened Common

  /** A JavaScript number. `Finite(m, e)` stands for m × 10^e. */
  datatype Number = NaN | Infinity(negative: bool) | Finite(mantissa: int, exponent: int)

  /** The single representation of each finite value: zero is 0 × 10^0, and any
      other mantissa has no trailing decimal zero. On canonical numbers, equality
      of representations is equality of values, as JavaScript's `===` sees it
      (NaN aside). */
  predicate Canonical(x: Number) {
    x.Finite? ==> if x.mantissa == 0 then x.exponent == 0 else x.mantissa % 10 != 0
  }

  function Pow10(k: nat): (r: nat)
    ensures r >= 1
  {
    if k == 0 then 1 else 10 * Pow10(k - 1)
  }

  // ---------------------------------------------------------------------------
  // Characters and digit strings

  /** The value of a hexadecimal digit character, and 16 for any other character. */
  function DigitValue(c: char): nat {
    if '0' <= c <= '9' then c as nat - '0' as nat
    else if 'a' <= c <= 'f' then c as nat - 'a' as nat + 10
    else if 'A' <= c <= 'F' then c as nat - 'A' as nat + 10
    else 16
  }

  predicate IsDigit(c: char) {
    '0' <= c <= '9'
  }

  predicate AllDecimal(s: string) {
    forall i :: 0 <= i < |s| ==> IsDigit(s[i])
  }

  /** The value of the digits of `t` after its two-character prefix, in the given
      radix, most significant digit first. */
  function RadixValue(t: string, radix: nat): nat {
    if |t| <= 2 then 0 else RadixValue(t[..|t| - 1], radix) * radix + DigitValue(t[|t| - 1])
  }

  /** The value of a decimal digit string. */
  function DecimalValue(s: string): nat {
    if s == [] then 0 else DecimalValue(s[..|s| - 1]) * 10 + DigitValue(s[|s| - 1])
  }

  /** The length of the longest prefix of `s` made of decimal digits. */
  function DigitSpan(s: string): (k: nat)
    ensures k <= |s|
  {
    if s == [] || !IsDigit(s[0]) then 0 else 1 + DigitSpan(s[1..])
  }

  /** The characters JavaScript's string-to-number conversion (and lodash's
      trimming) treats as white space or line terminators. */
  predicate IsWhiteSpace(c: char) {
    || c == '\t' || c == '\n' || c == '\U{B}' || c == '\U{C}' || c == '\r' || c == ' '
    || c == '\U{A0}' || c == '\U{1680}' || ('\U{2000}' <= c <= '\U{200A}')
    || c == '\U{2028}' || c == '\U{2029}' || c == '\U{202F}' || c == '\U{205F}'
    || c == '\U{3000}' || c == '\U{FEFF}'
  }

  function TrimStart(s: string): (r: string)
    ensures |r| <= |s| && r == s[|s| - |r|..]
    ensures r == [] || !IsWhiteSpace(r[0])
    ensures forall i :: 0 <= i < |s| - |r| ==> IsWhiteSpace(s[i])
  {
    if s != [] && IsWhiteSpace(s[0]) then TrimStart(s[1..]) else s
  }

  function TrimEnd(s: string): (r: string)
    ensures |r| <= |s| && r == s[..|r|]
    ensures r == [] || !IsWhiteSpace(r[|r| - 1])
    ensures forall i :: |r| <= i < |s| ==> IsWhiteSpace(s[i])
  {
    if s != [] && IsWhiteSpace(s[|s| - 1]) then TrimEnd(s[..|s| - 1]) else s
  }

  function Trim(s: string): string {
    TrimEnd(TrimStart(s))
  }

  // ---------------------------------------------------------------------------
  // Reading: `_.toNumber` on a string

  /** A decimal literal read as magnitude × 10^exponent, before normalisation. */
  datatype Decimal = Decimal(magnitude: nat, exponent: int)

  /** What reading an unsigned decimal literal gives: its value, or nothing when
      the text is not such a literal. */
  datatype Reading = Malformed | Read(decimal: Decimal)

  /** `_.toNumber(token)`: surrounding white space is ignored, an empty or blank
      token reads as 0, `0x`/`0o`/`0b` literals are read in their radix, a signed
      decimal literal (with optional fraction and exponent) or `Infinity` is read
      as such, and anything else is NaN. It never fails. */
  function ToNumber(token: string): (x: Number)
    ensures Canonical(x)
  {
    var t := Trim(token);
    if t == [] then Finite(0, 0)
    else if IsRadixLiteral(t) then FromDecimal(false, RadixLiteralValue(t), 0)
    else SignedDecimal(t)
  }

  /** The radix a `0x`, `0o` or `0b` prefix names by its second character, and 0
      for any other character. */
  function RadixOf(c: char): nat {
    if c == 'x' || c == 'X' then 16
    else if c == 'o' || c == 'O' then 8
    else if c == 'b' || c == 'B' then 2
    else 0
  }

  /** An unsigned `0x…`, `0o…` or `0b…` literal (JavaScript gives a signed one NaN). */
  predicate IsRadixLiteral(t: string) {
    && |t| >= 3 && t[0] == '0' && RadixOf(t[1]) != 0
    && forall i :: 2 <= i < |t| ==> DigitValue(t[i]) < RadixOf(t[1])
  }

  /** The value of a radix literal's digits (each radix is spelled out, so that
      the multiplication in RadixValue is by a constant). */
  function RadixLiteralValue(t: string): nat
    requires |t| >= 2
  {
    match RadixOf(t[1])
    case 16 => RadixValue(t, 16)
    case 8 => RadixValue(t, 8)
    case _ => RadixValue(t, 2)
  }

  /** An optional sign followed by `Infinity` or an unsigned decimal literal;
      NaN for anything else. */
  function SignedDecimal(t: string): Number {
    var negative := |t| > 0 && t[0] == '-';
    var body := if |t| > 0 && (t[0] == '-' || t[0] == '+') then t[1..] else t;
    if body == "Infinity" then Infinity(negative)
    else
      match UnsignedDecimal(body) {
        case Read(d) => FromDecimal(negative, d.magnitude, d.exponent)
        case Malformed => NaN
      }
  }

  /** Digits, an optional `.` with more digits, an optional exponent; at least one
      digit before or after the point, and nothing else. */
  function UnsignedDecimal(b: string): Reading {
    var i := DigitSpan(b);
    ReadFraction(b[..i], b[i..])
  }

  /** The rest of a decimal literal after its integer digits `a`. */
  function ReadFraction(a: string, after: string): Reading {
    if |after| > 0 && after[0] == '.' then
      var f := DigitSpan(after[1..]);
      ReadExponent(a, after[1..][..f], after[1..][f..])
    else ReadExponent(a, [], after)
  }

  /** The value of integer digits `a` and fraction digits `f` followed by `rest`. */
  function ReadExponent(a: string, f: string, rest: string): Reading {
    if |a| + |f| == 0 then Malformed
    else
      match ExponentPart(rest) {
        case Some(p) => Read(Decimal(DecimalValue(a + f), p - |f|))
        case None => Malformed
      }
  }

  /** Nothing (exponent 0), or `e`/`E`, an optional sign and at least one digit. */
  function ExponentPart(r: string): Option<int> {
    if r == [] then Some(0)
    else if r[0] == 'e' || r[0] == 'E' then
      var signed := |r| > 1 && (r[1] == '-' || r[1] == '+');
      var digits := if signed then r[2..] else r[1..];
      var v: int := DecimalValue(digits);
      if digits != [] && AllDecimal(digits) then Some(if signed && r[1] == '-' then -v else v)
      else None
    else None
  }

  /** m × 10^e with the trailing decimal zeros of m moved into the exponent
      (m is not zero). */
  function StripZeros(m: nat, e: int): (d: Decimal)
    requires m > 0
    ensures d.exponent >= e && d.magnitude % 10 != 0
    decreases m
  {
    if m % 10 != 0 then Decimal(m, e) else StripZeros(m / 10, e + 1)
  }

  /** The canonical number ±m × 10^e. */
  function FromDecimal(negative: bool, m: nat, e: int): (x: Number)
    ensures x.Finite? && Canonical(x)
    ensures m == 0 ==> x == Finite(0, 0)
    ensures m != 0 ==> (x.mantissa < 0 <==> negative)
  {
    if m == 0 then Finite(0, 0)
    else
      var d := StripZeros(m, e);
      var r: int := if negative then -(d.magnitude as int) else d.magnitude;
      assert r % 10 != 0 by {
        if negative {
          assert r == 10 * (-(d.magnitude / 10) - 1) + (10 - d.magnitude % 10);
        }
      }
      Finite(r, d.exponent)
  }

  // ---------------------------------------------------------------------------
  // Writing: `Number.prototype.toString()`

  function DigitChar(d: nat): char
    requires d < 10
  {
    ('0' as int + d) as char
  }

  /** The decimal digits of n, without leading zeros. */
  function NatText(n: nat): (s: string)
    ensures s != [] && AllDecimal(s) && DecimalValue(s) == n
    ensures s[0] == '0' <==> n == 0
  {
    if n < 10 then [DigitChar(n)]
    else
      var s := NatText(n / 10) + [DigitChar(n % 10)];
      assert s[..|s| - 1] == NatText(n / 10);
      s
  }

  function Zeros(k: nat): (s: string)
    ensures |s| == k && forall i :: 0 <= i < k ==> s[i] == '0'
  {
    seq(k, _ => '0')
  }

  /** The exponent suffix of the exponent form: `e`, a sign and the digits. */
  function ExponentText(p: int): string {
    (if p >= 0 then "e+" else "e-") + NatText(Abs(p))
  }

  /** Number::toString for the positive value `digits` × 10^e, where `digits`
      has no leading or trailing zero: k digits with the point after n of them
      are written plainly while n is at most 21 and above -6, and in exponent
      form otherwise. */
  function MagnitudeText(digits: string, e: int): string
    requires digits != []
  {
    var k := |digits|;
    var n := e + k;
    if k <= n <= 21 then digits + Zeros(n - k)
    else if 0 < n <= 21 then digits[..n] + "." + digits[n..]
    else if -6 < n <= 0 then "0." + Zeros(-n) + digits
    else if k == 1 then digits + ExponentText(n - 1)
    else digits[..1] + "." + digits[1..] + ExponentText(n - 1)
  }

  /** The canonical representation of a number's value: a finite value with
      its trailing decimal zeros moved into the exponent, the others as they
      are. */
  function Normalize(x: Number): (y: Number)
    ensures Canonical(y)
    ensures !x.Finite? ==> y == x
    ensures x.Finite? && x.mantissa == 0 ==> y == Finite(0, 0)
    ensures x.Finite? && x.mantissa != 0 ==>
      && y.Finite? && y.exponent >= x.exponent
      && Abs(y.mantissa) * Pow10(y.exponent - x.exponent) == Abs(x.mantissa)
      && (y.mantissa < 0 <==> x.mantissa < 0)
  {
    match x
    case Finite(m, e) =>
      if m == 0 then Finite(0, 0)
      else
        FromDecimalValue(m < 0, Abs(m), e);
        FromDecimal(m < 0, Abs(m), e)
    case _ => x
  }

  /** A canonical number is its own normal form. */
  lemma NormalizeCanonical(x: Number)
    requires Canonical(x)
    ensures Normalize(x) == x
  {
    if x.Finite? && x.mantissa != 0 {
      CanonicalDigits(x.mantissa);
      assert StripZeros(Abs(x.mantissa), x.exponent) == Decimal(Abs(x.mantissa), x.exponent);
    }
  }

  /** Two representations of one value have one normal form, and so print
      alike. */
  lemma NormalizeIdempotent(x: Number)
    ensures Normalize(Normalize(x)) == Normalize(x)
    ensures NumText(Normalize(x)) == NumText(x)
  {
    NormalizeCanonical(Normalize(x));
  }

  /** The text `join` writes for a number: that of its value, whichever
      representation holds it. */
  function NumText(x: Number): string {
    CanonicalText(Normalize(x))
  }

  /** Number::toString of a canonical number. */
  function CanonicalText(x: Number): string {
    match x
    case NaN => "NaN"
    case Infinity(negative) => if negative then "-Infinity" else "Infinity"
    case Finite(m, e) =>
      if m == 0 then "0"
      else (if m < 0 then "-" else "") + MagnitudeText(NatText(Abs(m)), e)
  }

  /** The characters a finite number's text is made of. */
  predicate IsNumeralChar(c: char) {
    IsDigit(c) || c == '-' || c == '+' || c == '.' || c == 'e'
  }

  predicate NumeralText(s: string) {
    forall i :: 0 <= i < |s| ==> IsNumeralChar(s[i])
  }

  // ---------------------------------------------------------------------------
  // Reading back what was written

  /** Reading `a` + `b` as one digit string shifts `a` left by |b| places. */
  lemma {:induction false} DecimalValueAppend(a: string, b: string)
    ensures DecimalValue(a + b) == DecimalValue(a) * Pow10(|b|) + DecimalValue(b)
    decreases |b|
  {
    if b == [] {
      assert a + b == a;
    } else {
      var b' := b[..|b| - 1];
      var c := DigitValue(b[|b| - 1]);
      assert (a + b)[..|a + b| - 1] == a + b';
      assert (a + b)[|a + b| - 1] == b[|b| - 1];
      assert DecimalValue(a + b) == DecimalValue(a + b') * 10 + c;
      assert DecimalValue(b) == DecimalValue(b') * 10 + c;
      DecimalValueAppend(a, b');
      ShiftDigit(DecimalValue(a), Pow10(|b'|), DecimalValue(b'), c);
    }
  }

  lemma ShiftDigit(va: nat, p: nat, x: nat, c: nat)
    ensures (va * p + x) * 10 + c == va * (10 * p) + (x * 10 + c)
  {
  }

  lemma {:induction false} ZerosValue(k: nat)
    ensures DecimalValue(Zeros(k)) == 0
  {
    if k > 0 {
      assert Zeros(k)[..k - 1] == Zeros(k - 1);
      ZerosValue(k - 1);
    }
  }

  lemma {:induction false} DigitSpanAppend(a: string, b: string)
    requires AllDecimal(a)
    requires b == [] || !IsDigit(b[0])
    ensures DigitSpan(a + b) == |a|
  {
    if a == [] {
      assert a + b == b;
    } else {
      assert (a + b)[1..] == a[1..] + b;
      DigitSpanAppend(a[1..], b);
    }
  }

  /** The integer digits of a literal are its longest digit prefix. */
  lemma IntegerPart(s: string, a: string, after: string)
    requires AllDecimal(a)
    requires after == [] || !IsDigit(after[0])
    requires s == a + after
    ensures UnsignedDecimal(s) == ReadFraction(a, after)
  {
    DigitSpanAppend(a, after);
    assert s[..|a|] == a && s[|a|..] == after;
  }

  /** A point, fraction digits `f`, then an exponent part `r`. */
  lemma FractionPart(a: string, after: string, f: string, r: string)
    requires AllDecimal(f)
    requires r == [] || r[0] == 'e'
    requires after == "." + f + r
    ensures ReadFraction(a, after) == ReadExponent(a, f, r)
  {
    assert after[1..] == f + r;
    DigitSpanAppend(f, r);
    assert (f + r)[..|f|] == f && (f + r)[|f|..] == r;
  }

  /** How UnsignedDecimal reads a literal `s` made of integer digits `a`, an
      optional point with fraction digits `f`, and an exponent part `r`. */
  lemma ReadDecimal(s: string, a: string, point: bool, f: string, r: string)
    requires AllDecimal(a) && AllDecimal(f)
    requires point || f == []
    requires r == [] || r[0] == 'e'
    requires s == a + (if point then "." else "") + f + r
    ensures UnsignedDecimal(s) == ReadExponent(a, f, r)
  {
    if point {
      var after := "." + f + r;
      assert s == a + after;
      IntegerPart(s, a, after);
      FractionPart(a, after, f, r);
    } else {
      assert s == a + r;
      IntegerPart(s, a, r);
    }
  }

  lemma ExponentTextReadsBack(p: int)
    ensures ExponentPart(ExponentText(p)) == Some(p)
  {
    var r := ExponentText(p);
    assert r[2..] == NatText(Abs(p));
  }

  /** StripZeros keeps the value: the digits it drops are zeros. */
  lemma {:induction false} StripZerosValue(m: nat, e: int)
    requires m > 0
    ensures var d := StripZeros(m, e); d.magnitude * Pow10(d.exponent - e) == m
    decreases m
  {
    if m % 10 == 0 {
      var d := StripZeros(m / 10, e + 1);
      StripZerosValue(m / 10, e + 1);
      TimesTen(d.magnitude, d.exponent - (e + 1));
    }
  }

  lemma TimesTen(a: nat, k: nat)
    ensures a * Pow10(k + 1) == 10 * (a * Pow10(k))
  {
  }

  /** FromDecimal keeps the value: |mantissa| × 10^exponent is m × 10^e. */
  lemma FromDecimalValue(negative: bool, m: nat, e: int)
    requires m != 0
    ensures var x := FromDecimal(negative, m, e);
      x.exponent >= e && Abs(x.mantissa) * Pow10(x.exponent - e) == m
  {
    StripZerosValue(m, e);
  }

  lemma TenMultiple(n: nat)
    ensures (10 * n) % 10 == 0 && (10 * n) / 10 == n
  {
  }

  lemma {:induction false} StripTrailingZeros(v: nat, j: nat, e: int)
    requires v % 10 != 0
    ensures v * Pow10(j) > 0 && StripZeros(v * Pow10(j), e) == Decimal(v, e + j)
  {
    if j == 0 {
      assert v * Pow10(j) == v;
    } else {
      var n := v * Pow10(j - 1);
      StripTrailingZeros(v, j - 1, e + 1);
      TimesTen(v, j - 1);
      TenMultiple(n);
      var m := v * Pow10(j);
      assert m == 10 * n;
      assert StripZeros(m, e) == StripZeros(n, e + 1);
    }
  }

  lemma FromDecimalShift(negative: bool, v: nat, j: nat, e: int)
    requires v % 10 != 0
    ensures FromDecimal(negative, v * Pow10(j), e) == Finite(if negative then -(v as int) else v, e + j)
  {
    StripTrailingZeros(v, j, e);
  }

  lemma SplitValue(digits: string, n: nat)
    requires n <= |digits|
    ensures DecimalValue(digits[..n] + digits[n..]) == DecimalValue(digits)
  {
    assert digits[..n] + digits[n..] == digits;
  }

  /** Digits with the point after the first n of them, then an exponent part
      that says p, read as their value times 10^(p - number of fraction digits). */
  lemma PointedValue(digits: string, n: nat, r: string, p: int)
    requires 0 < n <= |digits|
    requires ExponentPart(r) == Some(p)
    ensures ReadExponent(digits[..n], digits[n..], r) == Read(Decimal(DecimalValue(digits), p - (|digits| - n)))
  {
    SplitValue(digits, n);
  }

  lemma ReadPointed(s: string, digits: string, n: nat, r: string, p: int, v: nat, x: int)
    requires 0 < n <= |digits| && AllDecimal(digits)
    requires r == [] || r[0] == 'e'
    requires ExponentPart(r) == Some(p)
    requires s == digits[..n] + "." + digits[n..] + r
    requires v == DecimalValue(digits) && x == p - (|digits| - n)
    ensures UnsignedDecimal(s) == Read(Decimal(v, x))
  {
    PointedValue(digits, n, r, p);
    ReadDecimal(s, digits[..n], true, digits[n..], r);
  }

  lemma WholeValue(digits: string, r: string, p: int)
    requires digits != []
    requires ExponentPart(r) == Some(p)
    ensures ReadExponent(digits, [], r) == Read(Decimal(DecimalValue(digits), p))
  {
    assert digits + [] == digits;
  }

  lemma ReadWhole(s: string, digits: string, r: string, p: int, v: nat)
    requires digits != [] && AllDecimal(digits)
    requires r == [] || r[0] == 'e'
    requires ExponentPart(r) == Some(p)
    requires s == digits + r
    requires v == DecimalValue(digits)
    ensures UnsignedDecimal(s) == Read(Decimal(v, p))
  {
    WholeValue(digits, r, p);
    ReadDecimal(s, digits, false, [], r);
  }

  lemma PlainValue(digits: string, j: nat)
    ensures DecimalValue(digits + Zeros(j)) == DecimalValue(digits) * Pow10(j)
  {
    DecimalValueAppend(digits, Zeros(j));
    ZerosValue(j);
  }

  // Each form of MagnitudeText reads back; the text is passed to the reading
  // lemmas whole, so that UnsignedDecimal is only ever applied to it.

  lemma ReadPlain(digits: string, e: int)
    requires digits != [] && AllDecimal(digits)
    requires 0 <= e && e + |digits| <= 21
    ensures UnsignedDecimal(MagnitudeText(digits, e)) == Read(Decimal(DecimalValue(digits) * Pow10(e), 0))
  {
    PlainValue(digits, e);
    assert AllDecimal(digits + Zeros(e));
    ReadWhole(MagnitudeText(digits, e), digits + Zeros(e), [], 0, DecimalValue(digits) * Pow10(e));
  }

  lemma ReadPointInside(digits: string, e: int)
    requires digits != [] && AllDecimal(digits)
    requires !(0 <= e && e + |digits| <= 21) && 0 < e + |digits| <= 21
    ensures UnsignedDecimal(MagnitudeText(digits, e)) == Read(Decimal(DecimalValue(digits), e))
  {
    var n := e + |digits|;
    ReadPointed(MagnitudeText(digits, e), digits, n, [], 0, DecimalValue(digits), e);
  }

  lemma LeadingZerosValue(z: nat, digits: string)
    ensures DecimalValue(Zeros(z + 1) + digits) == DecimalValue(digits)
  {
    DecimalValueAppend(Zeros(z + 1), digits);
    ZerosValue(z + 1);
  }

  /** `0.000ddd` is the digit string `0000ddd` with the point after its first digit. */
  lemma LeadingZerosShape(z: nat, digits: string)
    requires AllDecimal(digits)
    ensures var all := Zeros(z + 1) + digits;
      AllDecimal(all) && "0." + Zeros(z) + digits == all[..1] + "." + all[1..] + []
  {
    var all := Zeros(z + 1) + digits;
    assert all[..1] == "0";
    assert all[1..] == Zeros(z) + digits;
  }

  lemma ReadLeadingZeros(digits: string, e: int)
    requires digits != [] && AllDecimal(digits)
    requires -6 < e + |digits| <= 0
    ensures UnsignedDecimal(MagnitudeText(digits, e)) == Read(Decimal(DecimalValue(digits), e))
  {
    var z := -(e + |digits|);
    var all := Zeros(z + 1) + digits;
    LeadingZerosValue(z, digits);
    LeadingZerosShape(z, digits);
    ReadPointed(MagnitudeText(digits, e), all, 1, [], 0, DecimalValue(digits), e);
  }

  lemma ReadExponentOneDigit(digits: string, e: int)
    requires |digits| == 1 && AllDecimal(digits)
    requires !(-6 < e + 1 <= 21)
    ensures UnsignedDecimal(MagnitudeText(digits, e)) == Read(Decimal(DecimalValue(digits), e))
  {
    ExponentTextReadsBack(e);
    ReadWhole(MagnitudeText(digits, e), digits, ExponentText(e), e, DecimalValue(digits));
  }

  lemma ReadExponentDigits(digits: string, e: int)
    requires |digits| > 1 && AllDecimal(digits)
    requires !(-6 < e + |digits| <= 21)
    ensures UnsignedDecimal(MagnitudeText(digits, e)) == Read(Decimal(DecimalValue(digits), e))
  {
    var p := e + |digits| - 1;
    ExponentTextReadsBack(p);
    ReadPointed(MagnitudeText(digits, e), digits, 1, ExponentText(p), p, DecimalValue(digits), e);
  }

  /** What reading the magnitude text of digits × 10^e gives: the plain
      integer form has its zeros read into the magnitude, every other form
      reads as the digits and the exponent. */
  lemma MagnitudeReads(digits: string, e: int)
    requires digits != [] && AllDecimal(digits)
    ensures UnsignedDecimal(MagnitudeText(digits, e)) ==
      if 0 <= e && e + |digits| <= 21 then Read(Decimal(DecimalValue(digits) * Pow10(e), 0))
      else Read(Decimal(DecimalValue(digits), e))
  {
    var n := e + |digits|;
    if 0 <= e && n <= 21 {
      ReadPlain(digits, e);
    } else if 0 < n <= 21 {
      ReadPointInside(digits, e);
    } else if -6 < n <= 0 {
      ReadLeadingZeros(digits, e);
    } else if |digits| == 1 {
      ReadExponentOneDigit(digits, e);
    } else {
      ReadExponentDigits(digits, e);
    }
  }

  lemma ReadSignedMagnitude(v: nat, e: int, negative: bool)
    requires v % 10 != 0
    ensures SignedDecimal((if negative then "-" else "") + MagnitudeText(NatText(v), e))
      == Finite(if negative then -(v as int) else v, e)
  {
    var digits := NatText(v);
    var body := MagnitudeText(digits, e);
    var t := (if negative then "-" else "") + body;
    MagnitudeTextShape(digits, e);
    assert body != "Infinity" by { assert IsDigit(body[0]); }
    assert (if |t| > 0 && (t[0] == '-' || t[0] == '+') then t[1..] else t) == body;
    MagnitudeReads(digits, e);
    if 0 <= e && e + |digits| <= 21 {
      FromDecimalShift(negative, v, e, 0);
    } else {
      FromDecimalShift(negative, v, 0, e);
    }
  }

  lemma MagnitudeTextShape(digits: string, e: int)
    requires digits != [] && AllDecimal(digits)
    ensures var t := MagnitudeText(digits, e);
      t != [] && NumeralText(t) && IsDigit(t[0]) && (t[0] == digits[0] || (|t| >= 2 && t[..2] == "0."))
  {
    var k := |digits|;
    var n := e + k;
    var t := MagnitudeText(digits, e);
    if !(k <= n <= 21) && !(0 < n <= 21) && !(-6 < n <= 0) {
      var p := NatText(Abs(n - 1));
      assert forall i :: 0 <= i < |p| ==> IsNumeralChar(p[i]);
    }
  }

  lemma TrimIdentity(s: string)
    requires s == [] || (!IsWhiteSpace(s[0]) && !IsWhiteSpace(s[|s| - 1]))
    ensures Trim(s) == s
  {
  }

  /** A finite number's text is non-empty and made of digits, signs, `.` and `e`. */
  lemma NumTextShape(x: Number)
    requires x.Finite?
    ensures NumText(x) != [] && NumeralText(NumText(x))
  {
    CanonicalTextShape(Normalize(x));
  }

  lemma CanonicalTextShape(x: Number)
    requires x.Finite?
    ensures CanonicalText(x) != [] && NumeralText(CanonicalText(x))
  {
    if x.mantissa != 0 {
      MagnitudeTextShape(NatText(Abs(x.mantissa)), x.exponent);
    }
  }

  /** A canonical number is written as itself. */
  lemma CanonicalNumText(x: Number)
    requires Canonical(x)
    ensures NumText(x) == CanonicalText(x)
  {
    NormalizeCanonical(x);
  }

  lemma NotRadixLiteral(t: string)
    requires t != [] && (t[0] != '0' || (|t| >= 2 && t[1] == '.'))
    ensures !IsRadixLiteral(t)
  {
  }

  /** A token with no surrounding white space that is not a radix literal is
      read as a signed decimal. */
  lemma ReadsAsSigned(t: string)
    requires t != [] && Trim(t) == t && !IsRadixLiteral(t)
    ensures ToNumber(t) == SignedDecimal(t)
  {
  }

  lemma CanonicalDigits(m: int)
    requires m != 0 && m % 10 != 0
    ensures Abs(m) % 10 != 0
  {
  }

  /** The text of a canonical non-zero number: a sign when negative, then a
      digit other than 0 or the start of `0.`. */
  lemma NonZeroText(m: int, e: int)
    requires m != 0
    ensures var t := CanonicalText(Finite(m, e));
      && t == (if m < 0 then "-" else "") + MagnitudeText(NatText(Abs(m)), e)
      && t != [] && Trim(t) == t && !IsRadixLiteral(t)
  {
    var t := CanonicalText(Finite(m, e));
    var digits := NatText(Abs(m));
    var body := MagnitudeText(digits, e);
    MagnitudeTextShape(digits, e);
    assert t == (if m < 0 then "-" else "") + body;
    assert t[0] != '0' || (|t| >= 2 && t[1] == '.') by {
      if m >= 0 && body[0] == '0' {
        assert body[0] != digits[0];
        assert body[..2] == "0.";
      }
    }
    CanonicalTextShape(Finite(m, e));
    TrimIdentity(t);
    NotRadixLiteral(t);
  }

  lemma NonZeroRoundTrip(m: int, e: int)
    requires m != 0 && m % 10 != 0
    ensures ToNumber(CanonicalText(Finite(m, e))) == Finite(m, e)
  {
    CanonicalDigits(m);
    NonZeroText(m, e);
    ReadsAsSigned(CanonicalText(Finite(m, e)));
    ReadSignedMagnitude(Abs(m), e, m < 0);
  }

  lemma NaNMalformed()
    ensures UnsignedDecimal("NaN") == Malformed
  {
    assert DigitSpan("NaN") == 0;
  }

  lemma NaNReads()
    ensures ToNumber("NaN") == NaN
  {
    TrimIdentity("NaN");
    NaNMalformed();
  }

  lemma LetterMalformed(t: string)
    requires |t| == 1 && 'a' <= t[0] <= 'z'
    ensures SignedDecimal(t) == NaN
  {
    assert DigitSpan(t) == 0;
    assert UnsignedDecimal(t) == Malformed;
  }

  lemma LetterUntrimmed(t: string)
    requires |t| == 1 && 'a' <= t[0] <= 'z'
    ensures Trim(t) == t && !IsRadixLiteral(t)
  {
    var c := t[0];
    assert !IsWhiteSpace(c);
    assert t[|t| - 1] == c;
    TrimIdentity(t);
  }

  /** A one-letter token is not numeric: `_.toNumber` reads it as NaN, and
      does not throw. */
  lemma LetterReads(t: string)
    requires |t| == 1 && 'a' <= t[0] <= 'z'
    ensures ToNumber(t) == NaN
  {
    LetterUntrimmed(t);
    LetterMalformed(t);
  }

  lemma NaNRoundTrip()
    ensures ToNumber(NumText(NaN)) == NaN
  {
    NaNReads();
  }

  lemma InfinityRoundTrip(negative: bool)
    ensures ToNumber(NumText(Infinity(negative))) == Infinity(negative)
  {
    var t := NumText(Infinity(negative));
    assert t == if negative then "-Infinity" else "Infinity";
    TrimIdentity(t);
  }

  lemma ZeroText()
    ensures NumText(Finite(0, 0)) == "0"
  {
  }

  lemma ZeroReads()
    ensures ToNumber("0") == Finite(0, 0)
  {
    TrimIdentity("0");
    assert !IsRadixLiteral("0");
    ReadWhole("0", "0", [], 0, 0);
  }

  /** Reading a number's text gives the number back: `_.toNumber` inverts
      `Number.prototype.toString()` on canonical numbers, NaN and the infinities
      included. */
  lemma NumberRoundTrip(x: Number)
    requires Canonical(x)
    ensures ToNumber(NumText(x)) == x
  {
    NormalizeCanonical(x);
    if x.NaN? {
      NaNRoundTrip();
    } else if x.Infinity? {
      InfinityRoundTrip(x.negative);
    } else if x.mantissa == 0 {
      ZeroText();
      ZeroReads();
    } else {
      NonZeroRoundTrip(x.mantissa, x.exponent);
    }
  }
  /** Any representation's text reads back as the canonical form of its value. */
  lemma ReadPrinted(x: Number)
    ensures ToNumber(NumText(x)) == Normalize(x)
  {
    NormalizeIdempotent(x);
    NumberRoundTrip(Normalize(x));
  }

}
