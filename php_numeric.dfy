/**
 * The part of PHP's `is_numeric` and `intval` that the default id policy
 * depends on: decimal numerals made of an optional sign, integer digits and
 * an optional '.' with fraction digits ("12", "+7", "-3", "1.5", ".5", "4.").
 */
module PhpNumeric {
  import opened Wrappers

  predicate IsDigit(c: char)
  {
    '0' <= c <= '9'
  }

  predicate AllDigits(s: string)
  {
    forall i :: 0 <= i < |s| ==> IsDigit(s[i])
  }

  function DigitValue(c: char): nat
    requires IsDigit(c)
  {
    c as int - '0' as int
  }

  /** Value of a digit string read in base 10, most significant digit first. */
  function DigitsValue(s: string): nat
    requires AllDigits(s)
  {
    if s == [] then 0 else DigitsValue(s[..|s| - 1]) * 10 + DigitValue(s[|s| - 1])
  }

  datatype Sign = NoSign | Plus | Minus

  /** A numeric string split into its sign, integer digits, decimal point and fraction digits. */
  datatype Numeral = Numeral(sign: Sign, whole: string, point: bool, fraction: string)

  /** A numeral has at least one digit, and fraction digits only after a point. */
  predicate WellFormed(n: Numeral)
  {
    && AllDigits(n.whole)
    && AllDigits(n.fraction)
    && |n.whole| + |n.fraction| > 0
    && (!n.point ==> n.fraction == [])
  }

  function SignText(sign: Sign): string
  {
    match sign
    case NoSign => ""
    case Plus => "+"
    case Minus => "-"
  }

  /** The text of a numeral. */
  function Render(n: Numeral): string
  {
    SignText(n.sign) + n.whole + (if n.point then "." + n.fraction else "")
  }

  /** The leading sign of `s`, if any, and the text after it. */
  function SplitSign(s: string): (r: (Sign, string))
    ensures SignText(r.0) + r.1 == s
    ensures r.0 == NoSign ==> |s| == 0 || (s[0] != '-' && s[0] != '+')
  {
    if |s| > 0 && s[0] == '-' then (Minus, s[1..])
    else if |s| > 0 && s[0] == '+' then (Plus, s[1..])
    else (NoSign, s)
  }

  /**
   * Reads `s` as a decimal numeral: an optional sign, integer digits, then
   * either nothing or '.' followed by digits only, with at least one digit in
   * all. A numeral is returned only when it is well formed and spells
   * exactly `s`.
   */
  function Parse(s: string): (r: Option<Numeral>)
    ensures r.Some? ==> WellFormed(r.value) && Render(r.value) == s
  {
    var split := SplitSign(s);
    ScanWholeSound(split.0, [], split.1);
    assert SignText(split.0) + [] + split.1 == s;
    ScanWhole(split.0, [], split.1)
  }

  /** Scans integer digits after the sign; `whole` holds those read so far. */
  function ScanWhole(sign: Sign, whole: string, s: string): Option<Numeral>
    decreases s
  {
    if s == [] then (if whole != [] then Some(Numeral(sign, whole, false, [])) else None)
    else if IsDigit(s[0]) then ScanWhole(sign, whole + [s[0]], s[1..])
    else if s[0] == '.' then ScanFraction(sign, whole, [], s[1..])
    else None
  }

  /** Scans fraction digits after the point; `fraction` holds those read so far. */
  function ScanFraction(sign: Sign, whole: string, fraction: string, s: string): Option<Numeral>
    decreases s
  {
    if s == [] then (if |whole| + |fraction| > 0 then Some(Numeral(sign, whole, true, fraction)) else None)
    else if IsDigit(s[0]) then ScanFraction(sign, whole, fraction + [s[0]], s[1..])
    else None
  }

  lemma {:induction false} ScanFractionSound(sign: Sign, whole: string, fraction: string, s: string)
    requires AllDigits(whole) && AllDigits(fraction)
    ensures var r := ScanFraction(sign, whole, fraction, s);
      r.Some? ==> WellFormed(r.value) && Render(r.value) == SignText(sign) + whole + "." + fraction + s
    decreases s
  {
    if s != [] && IsDigit(s[0]) {
      ScanFractionSound(sign, whole, fraction + [s[0]], s[1..]);
      assert fraction + [s[0]] + s[1..] == fraction + s;
    }
  }

  lemma {:induction false} ScanWholeSound(sign: Sign, whole: string, s: string)
    requires AllDigits(whole)
    ensures var r := ScanWhole(sign, whole, s);
      r.Some? ==> WellFormed(r.value) && Render(r.value) == SignText(sign) + whole + s
    decreases s
  {
    if s == [] {
    } else if IsDigit(s[0]) {
      ScanWholeSound(sign, whole + [s[0]], s[1..]);
      assert whole + [s[0]] + s[1..] == whole + s;
    } else if s[0] == '.' {
      ScanFractionSound(sign, whole, [], s[1..]);
      assert whole + "." + [] + s[1..] == whole + s;
    }
  }

  lemma {:induction false} ScanFractionComplete(sign: Sign, whole: string, fraction: string, s: string)
    requires AllDigits(s)
    requires |whole| + |fraction| + |s| > 0
    ensures ScanFraction(sign, whole, fraction, s) == Some(Numeral(sign, whole, true, fraction + s))
    decreases s
  {
    if s == [] {
      assert fraction + s == fraction;
    } else {
      ScanFractionComplete(sign, whole, fraction + [s[0]], s[1..]);
      assert fraction + [s[0]] + s[1..] == fraction + s;
    }
  }

  lemma {:induction false} ScanWholeDigits(sign: Sign, whole: string, digits: string, s: string)
    requires AllDigits(digits)
    ensures ScanWhole(sign, whole, digits + s) == ScanWhole(sign, whole + digits, s)
    decreases digits
  {
    if digits != [] {
      assert (digits + s)[0] == digits[0] && (digits + s)[1..] == digits[1..] + s;
      ScanWholeDigits(sign, whole + [digits[0]], digits[1..], s);
      assert whole + [digits[0]] + digits[1..] == whole + digits;
    } else {
      assert digits + s == s && whole + digits == whole;
    }
  }

  /** `is_numeric` on the decimal numerals modelled here. */
  predicate IsNumeric(s: string)
  {
    Parse(s).Some?
  }

  /**
   * The integer value of a numeral: the signed value of its integer digits,
   * that is, its exact decimal value truncated toward zero.
   */
  function IntValue(n: Numeral): int
    requires AllDigits(n.whole)
  {
    var v: int := DigitsValue(n.whole);
    if n.sign == Minus then -v else v
  }

  /** The text of a numeral after its sign. */
  function UnsignedText(n: Numeral): string
  {
    n.whole + (if n.point then "." + n.fraction else "")
  }

  lemma SplitSignRender(n: Numeral)
    requires WellFormed(n)
    ensures Render(n) == SignText(n.sign) + UnsignedText(n)
    ensures SplitSign(Render(n)) == (n.sign, UnsignedText(n))
  {
    var body := UnsignedText(n);
    var s := Render(n);
    assert s == SignText(n.sign) + body;
    if n.sign == NoSign {
      assert s == body;
      if n.whole != [] {
        assert s[0] == n.whole[0];
      } else {
        assert s[0] == '.';
      }
    } else {
      assert s[1..] == body;
    }
  }

  lemma ScanUnsignedText(n: Numeral)
    requires WellFormed(n)
    ensures ScanWhole(n.sign, [], UnsignedText(n)) == Some(n)
  {
    var tail := if n.point then "." + n.fraction else "";
    ScanWholeDigits(n.sign, [], n.whole, tail);
    assert [] + n.whole == n.whole;
    if n.point {
      assert tail[0] == '.' && tail[1..] == n.fraction;
      ScanFractionComplete(n.sign, n.whole, [], n.fraction);
      assert [] + n.fraction == n.fraction;
    }
  }

  /** Parsing the text of a well-formed numeral gives back that numeral. */
  lemma ParseRender(n: Numeral)
    requires WellFormed(n)
    ensures Parse(Render(n)) == Some(n)
  {
    SplitSignRender(n);
    ScanUnsignedText(n);
  }

  /** A digit string has a positive value exactly when one of its digits is not '0'. */
  lemma {:induction false} DigitsValuePositive(s: string)
    requires AllDigits(s)
    ensures DigitsValue(s) > 0 <==> exists i :: 0 <= i < |s| && s[i] != '0'
  {
    if s != [] {
      var p := s[..|s| - 1];
      DigitsValuePositive(p);
      if exists i :: 0 <= i < |p| && p[i] != '0' {
        var i :| 0 <= i < |p| && p[i] != '0';
        assert s[i] != '0';
      }
      if exists i :: 0 <= i < |s| && s[i] != '0' {
        var i :| 0 <= i < |s| && s[i] != '0';
        if i < |s| - 1 {
          assert p[i] != '0';
        }
      }
    }
  }

  /** A digit string is numeric exactly when it is not empty. */
  lemma DigitStringIsNumeral(s: string)
    requires AllDigits(s)
    ensures |s| > 0 ==> Parse(s) == Some(Numeral(NoSign, s, false, []))
    ensures |s| == 0 ==> Parse(s) == None
  {
    if |s| > 0 {
      var n := Numeral(NoSign, s, false, []);
      assert Render(n) == s;
      ParseRender(n);
    }
  }

  /** `is_numeric` holds exactly for the texts of well-formed numerals. */
  lemma IsNumericIffNumeral(s: string)
    ensures IsNumeric(s) <==> exists n :: WellFormed(n) && Render(n) == s
  {
    if exists n :: WellFormed(n) && Render(n) == s {
      var n :| WellFormed(n) && Render(n) == s;
      ParseRender(n);
    }
  }

  /** The text of a numeral is never empty, and it starts with '-' exactly when the numeral is negative. */
  lemma RenderFirstChar(n: Numeral)
    requires WellFormed(n)
    ensures |Render(n)| > 0
    ensures Render(n)[0] == '-' <==> n.sign == Minus
  {
    SplitSignRender(n);
    if n.sign == NoSign {
      if n.whole != [] {
        assert Render(n)[0] == n.whole[0];
      } else {
        assert Render(n)[0] == '.';
      }
    }
  }

  function Pow10(k: nat): (r: nat)
    ensures r > 0
  {
    if k == 0 then 1 else 10 * Pow10(k - 1)
  }

  lemma AllDigitsAppend(a: string, b: string)
    requires AllDigits(a) && AllDigits(b)
    ensures AllDigits(a + b)
  {
    forall i | 0 <= i < |a + b| ensures IsDigit((a + b)[i]) {
      if i >= |a| {
        assert (a + b)[i] == b[i - |a|];
      }
    }
  }

  /** Appending a digit to both readings keeps the shift: the arithmetic step of DigitsValueAppend. */
  lemma ShiftStep(x: nat, p: nat, y: nat, d: nat)
    ensures (x * p + y) * 10 + d == x * (10 * p) + (y * 10 + d)
  {
  }

  /** Reading `a + b` in base 10 shifts the value of `a` past the digits of `b`. */
  lemma {:induction false} DigitsValueAppend(a: string, b: string)
    requires AllDigits(a) && AllDigits(b)
    ensures AllDigits(a + b)
    ensures DigitsValue(a + b) == DigitsValue(a) * Pow10(|b|) + DigitsValue(b)
    decreases |b|
  {
    AllDigitsAppend(a, b);
    if b == [] {
      assert a + b == a;
    } else {
      var init := b[..|b| - 1];
      assert AllDigits(init);
      assert (a + b)[..|a + b| - 1] == a + init;
      assert (a + b)[|a + b| - 1] == b[|b| - 1];
      DigitsValueAppend(a, init);
      ShiftStep(DigitsValue(a), Pow10(|init|), DigitsValue(init), DigitValue(b[|b| - 1]));
    }
  }

  /** A string of k digits is worth less than 10^k. */
  lemma {:induction false} DigitsValueBound(s: string)
    requires AllDigits(s)
    ensures DigitsValue(s) < Pow10(|s|)
    decreases |s|
  {
    if s != [] {
      var init := s[..|s| - 1];
      DigitsValueBound(init);
      assert DigitsValue(s) <= (Pow10(|init|) - 1) * 10 + 9;
    }
  }

  /**
   * All the digits of a numeral read as one integer: its exact value with
   * the point removed, that is, its magnitude times 10^|fraction|.
   */
  function ScaledValue(n: Numeral): nat
    requires WellFormed(n)
  {
    DigitsValueAppend(n.whole, n.fraction);
    DigitsValue(n.whole + n.fraction)
  }

  /** The scaled value is the integer part shifted past the fraction digits, plus the fraction digits. */
  lemma ScaledValueSplit(n: Numeral)
    requires WellFormed(n)
    ensures ScaledValue(n) == DigitsValue(n.whole) * Pow10(|n.fraction|) + DigitsValue(n.fraction)
    ensures DigitsValue(n.fraction) < Pow10(|n.fraction|)
  {
    DigitsValueAppend(n.whole, n.fraction);
    DigitsValueBound(n.fraction);
  }

  /**
   * The integer value truncates toward zero: its magnitude is the largest
   * integer not above the numeral's magnitude, and its sign is the
   * numeral's.
   */
  lemma IntValueTruncates(n: Numeral)
    requires WellFormed(n)
    ensures var v := IntValue(n); var a := if v < 0 then -v else v; var p := Pow10(|n.fraction|);
      a * p <= ScaledValue(n) < (a + 1) * p
    ensures IntValue(n) > 0 ==> n.sign != Minus
    ensures IntValue(n) < 0 ==> n.sign == Minus
  {
    var w, p, y := DigitsValue(n.whole), Pow10(|n.fraction|), DigitsValue(n.fraction);
    ScaledValueSplit(n);
    assert (if IntValue(n) < 0 then -IntValue(n) else IntValue(n)) == w;
    FloorBound(w, p, y);
  }

  /** `w * p + y` with `y < p` lies between `w * p` and `(w + 1) * p`. */
  lemma FloorBound(w: nat, p: nat, y: nat)
    requires y < p
    ensures w * p <= w * p + y < (w + 1) * p
  {
    assert (w + 1) * p == w * p + p;
  }
}
