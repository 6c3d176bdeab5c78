/** The decimal canonicaliser that decides whether two JSON numbers are equal. */
module Decimal {
  import opened Json

  const I32_MIN := -0x8000_0000
  const I32_MAX := 0x7fff_ffff

  function I32(n: int): Option<int> {
    if I32_MIN <= n <= I32_MAX then Some(n) else None
  }

  datatype Canonical = Canonical(negative: bool, digits: string, scale: int)

  // ---- what a number denotes ----

  function DigitValue(c: char): nat
    requires IsDigit(c)
  {
    c as int - '0' as int
  }

  function DigitsValue(s: string): nat
    requires AllDigits(s)
  {
    if s == "" then 0 else 10 * DigitsValue(s[..|s| - 1]) + DigitValue(s[|s| - 1])
  }

  function Pow10(e: int): (p: real)
    ensures p > 0.0
    decreases if e < 0 then -e else e
  {
    if e == 0 then 1.0 else if e > 0 then 10.0 * Pow10(e - 1) else Pow10(e + 1) / 10.0
  }

  function ExponentValue(e: Option<Exponent>): int
    requires e.Some? ==> AllDigits(e.value.digits)
  {
    if e.None? then 0
    else if e.value.sign == Minus then 0 - DigitsValue(e.value.digits)
    else DigitsValue(e.value.digits)
  }

  function FractionDigits(f: Option<string>): string {
    if f.None? then "" else f.value
  }

  /** The value of a number token as section 6 of RFC 8259 reads it. */
  function Denotes(n: Number): real {
    var f := FractionDigits(n.fraction);
    var magnitude := DigitsValue(n.whole) as real + DigitsValue(f) as real * Pow10(-|f|);
    Signed(n.negative, magnitude * Pow10(ExponentValue(n.exponent)))
  }

  function Signed(negative: bool, magnitude: real): real {
    if negative then -magnitude else magnitude
  }

  ghost function CanonicalDenotes(c: Canonical): real
    requires AllDigits(c.digits)
  {
    Signed(c.negative, DigitsValue(c.digits) as real * Pow10(c.scale))
  }

  // ---- the canonicaliser ----

  /** Where the first character from a set stands, or the length. */
  function Find(s: string, chars: set<char>): (i: nat)
    ensures i <= |s|
    ensures i < |s| ==> s[i] in chars
    ensures forall j | 0 <= j < i :: s[j] !in chars
  {
    if s == "" || s[0] in chars then 0 else 1 + Find(s[1..], chars)
  }

  function ParseI32(s: string): Option<int> {
    var digits := if s != "" && (s[0] == '-' || s[0] == '+') then s[1..] else s;
    if digits == "" || !AllDigits(digits) then None
    else I32(if s[0] == '-' then 0 - DigitsValue(digits) else DigitsValue(digits))
  }

  function RemoveDots(s: string): string {
    if s == "" then "" else (if s[0] == '.' then "" else [s[0]]) + RemoveDots(s[1..])
  }

  function FirstNonzero(s: string): (i: nat)
    ensures i <= |s| && (forall j | 0 <= j < i :: s[j] == '0') && (i < |s| ==> s[i] != '0')
  {
    if s == "" || s[0] != '0' then 0 else 1 + FirstNonzero(s[1..])
  }

  /** Drop trailing zeros, raising the scale by one for each. */
  function StripZeros(negative: bool, digits: string, scale: int): Option<Canonical> {
    if digits == "" || digits[|digits| - 1] != '0' then Some(Canonical(negative, digits, scale))
    else
      var up :- I32(scale + 1);
      StripZeros(negative, digits[..|digits| - 1], up)
  }

  function CanonicalMantissa(negative: bool, mantissa: string, exponent: int): Option<Canonical> {
    var dot := Find(mantissa, {'.'});
    var fractional :- I32(if dot < |mantissa| then |mantissa| - dot - 1 else 0);
    var digits := RemoveDots(mantissa);
    if digits == "" || !AllDigits(digits) then None
    else
      var first := FirstNonzero(digits);
      if first == |digits| then Some(Canonical(false, "0", 0))
      else
        var scale :- I32(exponent - fractional);
        StripZeros(negative, digits[first..], scale)
  }

  function CanonicalDecimal(text: string): Option<Canonical> {
    var at := Find(text, {'e', 'E'});
    var exponent :- if at < |text| then ParseI32(text[at + 1..]) else Some(0);
    var mantissa := text[..at];
    var negative := mantissa != "" && mantissa[0] == '-';
    var unsigned := if mantissa != "" && (mantissa[0] == '-' || mantissa[0] == '+') then mantissa[1..] else mantissa;
    CanonicalMantissa(negative, unsigned, exponent)
  }

  method ComputeCanonical(text: string) returns (r: Option<Canonical>)
    ensures r == CanonicalDecimal(text)
  {
    var at := Find(text, {'e', 'E'});
    var exponent := 0;
    if at < |text| {
      var parsed := ParseI32(text[at + 1..]);
      if parsed.None? { return None; }
      exponent := parsed.value;
    }
    var mantissa := text[..at];
    var negative := mantissa != "" && mantissa[0] == '-';
    if mantissa != "" && (mantissa[0] == '-' || mantissa[0] == '+') { mantissa := mantissa[1..]; }
    r := ComputeMantissa(negative, mantissa, exponent);
  }

  method ComputeMantissa(negative: bool, mantissa: string, exponent: int) returns (r: Option<Canonical>)
    ensures r == CanonicalMantissa(negative, mantissa, exponent)
  {
    var dot := Find(mantissa, {'.'});
    var fractional := if dot < |mantissa| then |mantissa| - dot - 1 else 0;
    if fractional > I32_MAX { return None; }
    var digits := RemoveDots(mantissa);
    if digits == "" || !AllDigits(digits) { return None; }
    var first := FirstNonzero(digits);
    if first == |digits| { return Some(Canonical(false, "0", 0)); }
    digits := digits[first..];
    var scale := exponent - fractional;
    if !(I32_MIN <= scale <= I32_MAX) { return None; }
    ghost var goal := StripZeros(negative, digits, scale);
    while digits != "" && digits[|digits| - 1] == '0'
      invariant I32_MIN <= scale <= I32_MAX
      invariant goal == StripZeros(negative, digits, scale)
      decreases |digits|
    {
      digits := digits[..|digits| - 1];
      if scale + 1 > I32_MAX { return None; }
      scale := scale + 1;
    }
    r := Some(Canonical(negative, digits, scale));
  }

  /** numeric_schema_values_equal: equal canonical forms, absence included. */
  predicate NumbersEqual(a: Number, b: Number) {
    CanonicalDecimal(NumberText(a)) == CanonicalDecimal(NumberText(b))
  }

  // ---- arithmetic ----

  lemma Mul3(a: real, b: real, c: real)
    ensures (a * b) * c == a * (b * c) == b * (a * c)
  {
  }

  lemma Zero(p: real)
    ensures 0.0 * p == 0.0
  {
  }

  lemma Cancel(a: real, b: real, p: real)
    requires p > 0.0 && a * p == b * p
    ensures a == b
  {
  }

  lemma Pow10Step(e: int)
    ensures Pow10(0) == 1.0
    ensures Pow10(e + 1) == 10.0 * Pow10(e)
  {
  }

  lemma {:induction false} Pow10Add(a: int, b: int)
    ensures Pow10(a + b) == Pow10(a) * Pow10(b)
    decreases if a < 0 then -a else a
  {
    hide *;
    Pow10Step(a);
    if a > 0 {
      Pow10Add(a - 1, b);
      Pow10Step(a - 1);
      Pow10Step(a - 1 + b);
      Mul3(10.0, Pow10(a - 1), Pow10(b));
    } else if a < 0 {
      Pow10Add(a + 1, b);
      Pow10Step(a);
      Pow10Step(a + b);
      Mul3(10.0, Pow10(a), Pow10(b));
    }
  }

  lemma {:induction false} DigitsConcat(a: string, b: string)
    requires AllDigits(a) && AllDigits(b)
    ensures AllDigits(a + b)
    ensures DigitsValue(a + b) as real == DigitsValue(a) as real * Pow10(|b|) + DigitsValue(b) as real
  {
    hide Pow10, DigitsValue;
    Pow10Step(0);
    DigitsLast(b);
    DigitsLast(a + b);
    if b == "" {
      assert a + b == a;
    } else {
      var init := b[..|b| - 1];
      var last := DigitValue(b[|b| - 1]);
      assert (a + b)[..|a + b| - 1] == a + init;
      DigitsConcat(a, init);
      assert DigitsValue(a + b) == 10 * DigitsValue(a + init) + last;
      Pow10Step(|init|);
      Mul3(DigitsValue(a) as real, 10.0, Pow10(|init|));
    }
  }

  lemma DigitsLast(s: string)
    requires AllDigits(s)
    ensures DigitsValue("") == 0 && DigitsValue("0") == 0
    ensures s != "" ==> DigitsValue(s) == 10 * DigitsValue(s[..|s| - 1]) + DigitValue(s[|s| - 1])
  {
    assert "0"[..0] == "";
  }

  lemma {:induction false} ZerosValue(s: string)
    requires forall i | 0 <= i < |s| :: s[i] == '0'
    ensures DigitsValue(s) == 0
  {
    if s != "" { ZerosValue(s[..|s| - 1]); }
  }

  lemma {:induction false} PositiveValue(s: string)
    requires AllDigits(s) && s != "" && s[0] != '0'
    ensures DigitsValue(s) > 0
  {
    if |s| > 1 {
      PositiveValue(s[..|s| - 1]);
    } else {
      assert DigitValue(s[0]) > 0;
    }
  }

  // ---- the canonicaliser keeps the denoted value ----

  ghost predicate Normal(c: Canonical) {
    && c.digits != "" && AllDigits(c.digits)
    && (c == Canonical(false, "0", 0) || (c.digits[0] != '0' && c.digits[|c.digits| - 1] != '0'))
  }

  lemma {:induction false} StripZerosDenotes(negative: bool, digits: string, scale: int)
    requires AllDigits(digits) && digits != "" && digits[0] != '0'
    ensures var r := StripZeros(negative, digits, scale);
      r.Some? ==> Normal(r.value) && CanonicalDenotes(r.value) == CanonicalDenotes(Canonical(negative, digits, scale))
  {
    hide Pow10, DigitsValue;
    var init := digits[..|digits| - 1];
    if digits[|digits| - 1] == '0' {
      assert init != "";
      if I32(scale + 1).Some? {
        StripZerosDenotes(negative, init, scale + 1);
        Pow10Step(scale);
        Mul3(10.0, DigitsValue(init) as real, Pow10(scale));
        DigitsLast(digits);
      }
    }
  }

  lemma {:induction false} RemoveDotsDigits(s: string)
    requires AllDigits(s)
    ensures RemoveDots(s) == s
  {
    if s != "" { RemoveDotsDigits(s[1..]); assert s == [s[0]] + s[1..]; }
  }

  lemma {:induction false} RemoveDotsConcat(a: string, b: string)
    ensures RemoveDots(a + b) == RemoveDots(a) + RemoveDots(b)
  {
    if a == "" {
      assert a + b == b;
    } else {
      assert (a + b)[1..] == a[1..] + b;
      RemoveDotsConcat(a[1..], b);
    }
  }

  lemma RemoveDotsFraction(f: Option<string>)
    requires AllDigits(FractionDigits(f))
    ensures RemoveDots(FractionText(f)) == FractionDigits(f)
  {
    if f.Some? {
      assert FractionText(f)[1..] == f.value;
      RemoveDotsDigits(f.value);
    }
  }

  lemma MantissaDigits(whole: string, f: Option<string>)
    requires AllDigits(whole) && AllDigits(FractionDigits(f)) && (f.Some? ==> f.value != "")
    ensures RemoveDots(whole + FractionText(f)) == whole + FractionDigits(f)
    ensures var m := whole + FractionText(f); var dot := Find(m, {'.'});
      (if dot < |m| then |m| - dot - 1 else 0) == |FractionDigits(f)|
  {
    hide RemoveDots, Find;
    RemoveDotsConcat(whole, FractionText(f));
    RemoveDotsDigits(whole);
    RemoveDotsFraction(f);
    FindAfter(whole, FractionText(f), {'.'});
  }

  /** The digits of whole and fraction together, without their leading zeros. */
  ghost function Kept(n: Number): (kept: string)
    ensures AllDigits(kept)
  {
    var digits := n.whole + FractionDigits(n.fraction);
    digits[FirstNonzero(digits)..]
  }

  lemma KeptValue(n: Number)
    ensures DigitsValue(Kept(n)) as real
      == DigitsValue(n.whole) as real * Pow10(|FractionDigits(n.fraction)|)
        + DigitsValue(FractionDigits(n.fraction)) as real
  {
    hide Pow10, DigitsValue;
    var f := FractionDigits(n.fraction);
    var digits := n.whole + f;
    DigitsConcat(n.whole, f);
    var zeros := digits[..FirstNonzero(digits)];
    assert digits == zeros + Kept(n);
    ZerosValue(zeros);
    DigitsConcat(zeros, Kept(n));
  }

  lemma KeptDenotes(n: Number)
    ensures CanonicalDenotes(Canonical(n.negative, Kept(n), ExponentValue(n.exponent) - |FractionDigits(n.fraction)|))
      == Denotes(n)
  {
    hide Pow10, DigitsValue;
    var f, e := FractionDigits(n.fraction), ExponentValue(n.exponent);
    var k, w, v := DigitsValue(Kept(n)) as real, DigitsValue(n.whole) as real, DigitsValue(f) as real;
    var p, q, r := Pow10(|f|), Pow10(-|f|), Pow10(e);
    KeptValue(n);
    Pow10Step(0);
    Pow10Add(|f|, -|f|);
    Pow10Add(-|f|, e);
    Mul3(k, q, r);
    Mul3(w, p, q);
    assert k * q == (w * p) * q + v * q;
  }

  lemma ZeroDenotes(negative: bool, scale: int)
    ensures CanonicalDenotes(Canonical(negative, "", scale)) == CanonicalDenotes(Canonical(false, "0", 0)) == 0.0
  {
    DigitsLast("");
    Zero(Pow10(scale));
    Zero(Pow10(0));
  }

  /** The canonicaliser past its text handling. */
  lemma MantissaSteps(n: Number)
    ensures var f := FractionDigits(n.fraction); var scale := ExponentValue(n.exponent) - |f|;
      CanonicalMantissa(n.negative, n.whole + FractionText(n.fraction), ExponentValue(n.exponent))
      == if I32(|f|).None? then None
         else if Kept(n) == "" then Some(Canonical(false, "0", 0))
         else if I32(scale).None? then None
         else StripZeros(n.negative, Kept(n), scale)
  {
    hide RemoveDots, Find, FirstNonzero, StripZeros, DigitsValue;
    MantissaDigits(n.whole, n.fraction);
    var digits := n.whole + FractionDigits(n.fraction);
    assert digits != "" && AllDigits(digits);
    assert Kept(n) == "" <==> FirstNonzero(digits) == |digits|;
  }

  lemma MantissaDenotes(n: Number)
    ensures var r := CanonicalMantissa(n.negative, n.whole + FractionText(n.fraction), ExponentValue(n.exponent));
      r.Some? ==> Normal(r.value) && CanonicalDenotes(r.value) == Denotes(n)
  {
    hide Pow10, DigitsValue, Denotes, CanonicalDenotes, StripZeros, CanonicalMantissa;
    var scale := ExponentValue(n.exponent) - |FractionDigits(n.fraction)|;
    MantissaSteps(n);
    KeptDenotes(n);
    if Kept(n) == "" {
      ZeroDenotes(n.negative, scale);
    } else if I32(scale).Some? {
      StripZerosDenotes(n.negative, Kept(n), scale);
    }
  }

  lemma {:induction false} FindAfter(a: string, b: string, chars: set<char>)
    requires forall i | 0 <= i < |a| :: a[i] !in chars
    requires b != "" ==> b[0] in chars
    ensures Find(a + b, chars) == |a|
  {
    if a == "" {
      assert a + b == b;
    } else {
      assert (a + b)[1..] == a[1..] + b;
      FindAfter(a[1..], b, chars);
    }
  }

  lemma MantissaTextChars(n: Number)
    ensures forall i | 0 <= i < |MantissaText(n)| :: MantissaText(n)[i] !in {'e', 'E'}
    ensures n.negative ==> MantissaText(n)[1..] == n.whole + FractionText(n.fraction)
    ensures !n.negative ==> MantissaText(n) == n.whole + FractionText(n.fraction)
    ensures MantissaText(n) != "" && (MantissaText(n)[0] == '-' <==> n.negative) && MantissaText(n)[0] != '+'
  {
    var body := n.whole + FractionText(n.fraction);
    assert MantissaText(n) == (if n.negative then "-" else "") + body;
    forall i | 0 <= i < |body| ensures body[i] !in {'e', 'E'} && (i == 0 ==> IsDigit(body[i])) {
      if i > |n.whole| { assert body[i] == FractionDigits(n.fraction)[i - |n.whole| - 1]; }
    }
  }

  lemma ParseI32Exponent(e: Exponent)
    requires e.digits != "" && AllDigits(e.digits)
    ensures ParseI32(SignText(e.sign) + e.digits) == I32(ExponentValue(Some(e)))
  {
    var s := SignText(e.sign) + e.digits;
    assert IsDigit(e.digits[0]);
    if e.sign == Unsigned { assert s == e.digits; } else { assert s[1..] == e.digits; }
  }

  lemma CanonicalSteps(n: Number)
    ensures CanonicalDecimal(NumberText(n))
      == if I32(ExponentValue(n.exponent)).None? then None
         else CanonicalMantissa(n.negative, n.whole + FractionText(n.fraction), ExponentValue(n.exponent))
  {
    hide DigitsValue, CanonicalMantissa, RemoveDots, AllDigits, MantissaText, ParseI32, SignText, FractionText;
    var m, e := MantissaText(n), ExponentText(n.exponent);
    var text := m + e;
    MantissaTextChars(n);
    FindAfter(m, e, {'e', 'E'});
    assert text[..|m|] == m;
    if n.exponent.Some? {
      assert text[|m| + 1..] == SignText(n.exponent.value.sign) + n.exponent.value.digits;
      ParseI32Exponent(n.exponent.value);
    }
  }

  /** The canonical form of a number denotes that number and is in normal form. */
  lemma CanonicalKeepsValue(n: Number)
    ensures var r := CanonicalDecimal(NumberText(n));
      r.Some? ==> Normal(r.value) && CanonicalDenotes(r.value) == Denotes(n)
  {
    CanonicalSteps(n);
    MantissaDenotes(n);
  }

  // ---- normal forms are unique ----

  lemma {:induction false} DigitsUnique(a: string, b: string)
    requires AllDigits(a) && AllDigits(b)
    requires (a != "" ==> a[0] != '0') && (b != "" ==> b[0] != '0')
    requires DigitsValue(a) == DigitsValue(b)
    ensures a == b
  {
    if a != "" { PositiveValue(a); }
    if b != "" { PositiveValue(b); }
    if a != "" && b != "" {
      var ai, bi := a[..|a| - 1], b[..|b| - 1];
      DigitsUnique(ai, bi);
      assert a == ai + [a[|a| - 1]] && b == bi + [b[|b| - 1]];
    }
  }

  lemma {:induction false} Pow10Multiple(k: nat) returns (m: nat)
    requires k > 0
    ensures Pow10(k) == 10.0 * m as real
  {
    if k == 1 {
      m := 1;
    } else {
      var smaller := Pow10Multiple(k - 1);
      m := 10 * smaller;
    }
  }

  lemma ScalesAgree(a: Canonical, b: Canonical)
    requires AllDigits(a.digits) && AllDigits(b.digits) && a.digits != "" && a.digits[|a.digits| - 1] != '0'
    requires DigitsValue(a.digits) as real * Pow10(a.scale) == DigitsValue(b.digits) as real * Pow10(b.scale)
    ensures a.scale >= b.scale
  {
    hide Pow10, DigitsValue;
    if a.scale < b.scale {
      var k := b.scale - a.scale;
      Pow10Add(k, a.scale);
      var m := Pow10Multiple(k);
      var va, vb := DigitsValue(a.digits), DigitsValue(b.digits);
      Mul3(vb as real, Pow10(k), Pow10(a.scale));
      Cancel(va as real, vb as real * Pow10(k), Pow10(a.scale));
      DigitsLast(a.digits);
      assert DigitValue(a.digits[|a.digits| - 1]) != 0;
      TenDivides(va, vb, m);
      assert false;
    }
  }

  lemma TenDivides(a: nat, b: nat, m: nat)
    requires a as real == b as real * (10.0 * m as real)
    ensures a % 10 == 0
  {
    assert b as real * (10.0 * m as real) == 10.0 * (b * m) as real;
    assert a == 10 * (b * m);
  }

  lemma Magnitude(c: Canonical)
    requires Normal(c)
    ensures c != Canonical(false, "0", 0) ==> DigitsValue(c.digits) as real * Pow10(c.scale) > 0.0
    ensures c == Canonical(false, "0", 0) ==> CanonicalDenotes(c) == 0.0
  {
    if c != Canonical(false, "0", 0) {
      PositiveValue(c.digits);
    } else {
      DigitsLast("");
    }
  }

  lemma NormalUnique(a: Canonical, b: Canonical)
    requires Normal(a) && Normal(b) && CanonicalDenotes(a) == CanonicalDenotes(b)
    ensures a == b
  {
    hide Pow10, DigitsValue;
    Magnitude(a);
    Magnitude(b);
    if a != Canonical(false, "0", 0) && b != Canonical(false, "0", 0) {
      ScalesAgree(a, b);
      ScalesAgree(b, a);
      Cancel(DigitsValue(a.digits) as real, DigitsValue(b.digits) as real, Pow10(a.scale));
      DigitsUnique(a.digits, b.digits);
    }
  }

  // ---- where the canonical form exists ----

  function TrailingZeros(s: string): (zeros: nat)
    ensures zeros <= |s|
  {
    if s == "" || s[|s| - 1] != '0' then 0 else 1 + TrailingZeros(s[..|s| - 1])
  }

  /** The exponent and the number of fraction digits fit 32 bits, and so does the scale of a number
      that is not zero, before and after its trailing zeros are dropped. */
  ghost predicate HasForm(n: Number) {
    var fractional := |FractionDigits(n.fraction)|;
    var scale := ExponentValue(n.exponent) - fractional;
    && I32_MIN <= ExponentValue(n.exponent) <= I32_MAX
    && fractional <= I32_MAX
    && (Kept(n) == "" || (I32_MIN <= scale && scale + TrailingZeros(Kept(n)) <= I32_MAX))
  }

  lemma {:induction false} StripZerosDefined(negative: bool, digits: string, scale: int)
    requires I32_MIN <= scale <= I32_MAX
    ensures StripZeros(negative, digits, scale).Some? <==> scale + TrailingZeros(digits) <= I32_MAX
    decreases |digits|
  {
    if digits != "" && digits[|digits| - 1] == '0' && scale < I32_MAX {
      StripZerosDefined(negative, digits[..|digits| - 1], scale + 1);
    }
  }

  /** The condition is exact. */
  lemma FormExact(n: Number)
    ensures CanonicalDecimal(NumberText(n)).Some? <==> HasForm(n)
  {
    hide DigitsValue, CanonicalMantissa, StripZeros, Kept, TrailingZeros;
    var scale := ExponentValue(n.exponent) - |FractionDigits(n.fraction)|;
    CanonicalSteps(n);
    MantissaSteps(n);
    if I32_MIN <= scale <= I32_MAX { StripZerosDefined(n.negative, Kept(n), scale); }
  }

  /** Wherever both numbers have a canonical form, comparing the forms compares the
      numbers. */
  lemma NumbersEqualDecides(a: Number, b: Number)
    requires HasForm(a) && HasForm(b)
    ensures NumbersEqual(a, b) <==> Denotes(a) == Denotes(b)
  {
    hide HasForm, CanonicalDecimal, Denotes, CanonicalDenotes;
    FormExact(a);
    FormExact(b);
    CanonicalKeepsValue(a);
    CanonicalKeepsValue(b);
    if Denotes(a) == Denotes(b) {
      NormalUnique(CanonicalDecimal(NumberText(a)).value, CanonicalDecimal(NumberText(b)).value);
    }
  }

  /** In general the comparison decides equality of values between numbers that have a form, takes
      any two without one for equal, and any with one for different from any without. */
  lemma NumbersEqualExact(a: Number, b: Number)
    ensures NumbersEqual(a, b) <==>
      if HasForm(a) && HasForm(b) then Denotes(a) == Denotes(b) else !HasForm(a) && !HasForm(b)
  {
    hide HasForm, CanonicalDecimal, Denotes;
    FormExact(a);
    FormExact(b);
    if HasForm(a) && HasForm(b) { NumbersEqualDecides(a, b); }
  }

  const BOUND: int := 1_000_000_000

  /** Every number serde_json can hold is within these bounds. */
  predicate Moderate(n: Number) {
    && |n.whole| + |FractionDigits(n.fraction)| <= BOUND
    && -BOUND <= ExponentValue(n.exponent) <= BOUND
  }

  lemma ModerateDefined(n: Number)
    requires Moderate(n)
    ensures HasForm(n) && CanonicalDecimal(NumberText(n)).Some?
  {
    hide DigitsValue, CanonicalDecimal, TrailingZeros;
    FormExact(n);
  }

  /** On every number serde_json can hold, the comparison is numeric equality. */
  lemma ModerateNumbersEqual(a: Number, b: Number)
    requires Moderate(a) && Moderate(b)
    ensures NumbersEqual(a, b) <==> Denotes(a) == Denotes(b)
  {
    ModerateDefined(a);
    ModerateDefined(b);
    NumbersEqualDecides(a, b);
  }

  lemma {:induction false} ValueAtLeast(s: string)
    requires AllDigits(s) && s != "" && s[0] != '0'
    ensures DigitsValue(s) as real >= Pow10(|s| - 1)
  {
    hide Pow10, DigitsValue;
    DigitsLast(s);
    Pow10Step(0);
    if |s| > 1 {
      ValueAtLeast(s[..|s| - 1]);
      Pow10Step(|s| - 2);
    } else {
      assert s[..0] == "" && DigitValue(s[0]) >= 1;
    }
  }

  lemma LargeExponent(digits: string)
    requires digits == "99999999999"
    ensures AllDigits(digits) && I32(DigitsValue(digits)).None?
  {
    ValueAtLeast(digits);
    assert Pow10(10) == 10000000000.0;
  }

  /** Beyond i32 exponents, which no number of serde_json has, two values can be taken for equal. */
  lemma OverflowConflates()
    ensures exists a: Number, b: Number :: NumbersEqual(a, b) && Denotes(a) != Denotes(b)
  {
    hide NumbersEqual, DigitsValue;
    var digits := "99999999999";
    LargeExponent(digits);
    var e := Some(Exponent(false, Unsigned, digits));
    var a: Number, b: Number := NumberToken(false, "1", None, e), NumberToken(false, "2", None, e);
    NumbersEqualExact(a, b);
    OverflowDenotes(a, b);
    assert NumbersEqual(a, b) && Denotes(a) != Denotes(b);
  }

  /** And one value, zero, can be taken for two. */
  lemma OverflowSplits()
    ensures exists a: Number, b: Number :: !NumbersEqual(a, b) && Denotes(a) == Denotes(b)
  {
    hide NumbersEqual, DigitsValue;
    var digits := "99999999999";
    LargeExponent(digits);
    var a: Number := NumberToken(false, "0", None, Some(Exponent(false, Unsigned, digits)));
    var b: Number := NumberToken(false, "0", None, None);
    ModerateDefined(b);
    NumbersEqualExact(a, b);
    ZeroIsZero(a);
    ZeroIsZero(b);
    assert !NumbersEqual(a, b) && Denotes(a) == Denotes(b);
  }

  lemma ZeroIsZero(n: Number)
    requires n.whole == "0" && n.fraction.None? && !n.negative
    ensures Denotes(n) == 0.0
  {
    hide Pow10;
    Zero(Pow10(0));
    Zero(Pow10(ExponentValue(n.exponent)));
    assert "0"[..0] == "";
  }

  lemma OverflowDenotes(a: Number, b: Number)
    requires a == NumberToken(false, "1", None, b.exponent) && b == NumberToken(false, "2", None, b.exponent)
    ensures Denotes(a) != Denotes(b)
  {
    hide Pow10, DigitsValue;
    DigitsLast("");
    DigitsLast("1");
    DigitsLast("2");
    assert "1"[..0] == "" && "2"[..0] == "";
    Pow10Step(0);
    Zero(Pow10(0));
  }
}
