/**
 Go's `strconv.Atoi` on a 64-bit platform, and the decimal rendering
 (`strconv.Itoa` for non-negative values) that serves as its inverse.

 `Atoi` accepts an optional leading `+` or `-` followed by one or more ASCII
 decimal digits (leading zeros allowed, no underscores, no spaces) whose value
 fits Go's 64-bit `int`; everything else is an error. Both of Go's paths, the
 fast path for short strings and the `ParseInt` fallback, agree on this.
 */
module Strconv {
  import opened Wrappers

  const MinInt64: int := -0x8000_0000_0000_0000
  const MaxInt64: int := 0x7fff_ffff_ffff_ffff

  predicate InInt64(n: int)
  {
    MinInt64 <= n <= MaxInt64
  }

  predicate IsDigit(c: char)
  {
    '0' <= c <= '9'
  }

  predicate AllDigits(s: string)
  {
    forall i :: 0 <= i < |s| ==> IsDigit(s[i])
  }

  function DigitValue(c: char): (d: nat)
    requires IsDigit(c)
    ensures d < 10
  {
    c as int - '0' as int
  }

  function DigitChar(d: nat): (c: char)
    requires d < 10
    ensures IsDigit(c) && DigitValue(c) == d
  {
    ('0' as int + d) as char
  }

  /** Value of a digit string read most-significant first, as `n = n*10 + d`. */
  function DigitsValue(s: string): nat
    requires AllDigits(s)
  {
    if |s| == 0 then 0 else DigitsValue(s[..|s| - 1]) * 10 + DigitValue(s[|s| - 1])
  }

  /** `strconv.Atoi(s)`: `Some(n)` when Go returns `n` with a nil error, `None` when its error is non-nil. */
  function Atoi(s: string): (r: Option<int>)
    ensures r.Some? ==> InInt64(r.value)
    ensures r.Some? ==> |s| >= 1 && (r.value < 0 ==> s[0] == '-')
    ensures r.Some? && '-' !in s ==> r.value >= 0
    ensures |s| == 0 ==> r == None
  {
    if |s| == 0 then None
    else
      var neg := s[0] == '-';
      var digits := if s[0] == '-' || s[0] == '+' then s[1..] else s;
      if |digits| == 0 || !AllDigits(digits) then None
      else
        var n: int := if neg then 0 - DigitsValue(digits) else DigitsValue(digits);
        if InInt64(n) then Some(n) else None
  }

  /** Shortest decimal numeral of `n`: `strconv.Itoa(n)` for `n >= 0`. */
  function Show(n: nat): (s: string)
    ensures |s| >= 1 && AllDigits(s)
    ensures DigitsValue(s) == n
    ensures n > 0 ==> s[0] != '0'
  {
    if n < 10 then [DigitChar(n)]
    else
      var s := Show(n / 10) + [DigitChar(n % 10)];
      assert s[..|s| - 1] == Show(n / 10);
      s
  }

  /** A digit string of value zero is all zeros. */
  lemma {:induction false} ZeroDigits(s: string)
    requires AllDigits(s) && DigitsValue(s) == 0
    ensures forall i :: 0 <= i < |s| ==> s[i] == '0'
  {
    if |s| > 0 {
      ZeroDigits(s[..|s| - 1]);
    }
  }

  /** `k` copies of `c`. */
  function Repeat(c: char, k: nat): (s: string)
    ensures |s| == k && forall i :: 0 <= i < k ==> s[i] == c
  {
    if k == 0 then [] else [c] + Repeat(c, k - 1)
  }

  /**
   Every digit string is leading zeros followed by the shortest numeral of its
   value: a numeral is determined by its value up to the zeros in front.
   */
  lemma {:induction false} CanonicalDigits(s: string)
    requires |s| >= 1 && AllDigits(s)
    ensures |Show(DigitsValue(s))| <= |s|
    ensures s == Repeat('0', |s| - |Show(DigitsValue(s))|) + Show(DigitsValue(s))
  {
    var n := DigitsValue(s);
    var init := s[..|s| - 1];
    var last := s[|s| - 1];
    assert s == init + [last];
    if n < 10 {
      ZeroDigits(init);
      assert init == Repeat('0', |init|);
      assert last == DigitChar(n);
      assert Show(n) == [last];
    } else {
      var m := DigitsValue(init);
      assert m == n / 10 && DigitValue(last) == n % 10;
      CanonicalDigits(init);
      var z := Repeat('0', |init| - |Show(m)|);
      assert init == z + Show(m);
      assert last == DigitChar(n % 10);
      assert Show(n) == Show(m) + [last];
      assert s == z + Show(n);
    }
  }

  /** Round trip: Atoi reads back every non-negative 64-bit value from its numeral. */
  lemma AtoiShow(n: nat)
    requires n <= MaxInt64
    ensures Atoi(Show(n)) == Some(n)
  {
  }

  /** Round trip with an explicit sign, down to the most negative 64-bit value. */
  lemma AtoiSignedShow(n: nat)
    requires n <= -MinInt64
    ensures Atoi("-" + Show(n)) == Some(-(n as int))
    ensures n <= MaxInt64 ==> Atoi("+" + Show(n)) == Some(n)
  {
  }

  /** Leading zeros are accepted after an optional sign and change nothing. */
  lemma LeadingZeros(k: nat, n: nat)
    requires n <= -MinInt64
    ensures n <= MaxInt64 ==> Atoi(Repeat('0', k) + Show(n)) == Some(n)
    ensures n <= MaxInt64 ==> Atoi("+" + Repeat('0', k) + Show(n)) == Some(n)
    ensures Atoi("-" + Repeat('0', k) + Show(n)) == Some(-(n as int))
  {
    var t := Repeat('0', k) + Show(n);
    LeadingZerosValue(k, Show(n));
    AtoiDigitString(t);
    assert "+" + Repeat('0', k) + Show(n) == "+" + t;
    assert "-" + Repeat('0', k) + Show(n) == "-" + t;
  }

  /** A digit string, bare or behind a sign, reads as its value when that value fits. */
  lemma AtoiDigitString(t: string)
    requires |t| >= 1 && AllDigits(t) && DigitsValue(t) <= -MinInt64
    ensures DigitsValue(t) <= MaxInt64 ==> Atoi(t) == Some(DigitsValue(t))
    ensures DigitsValue(t) <= MaxInt64 ==> Atoi("+" + t) == Some(DigitsValue(t))
    ensures Atoi("-" + t) == Some(-(DigitsValue(t) as int))
  {
    var v := DigitsValue(t);
    if v <= MaxInt64 {
      assert Atoi("+" + t) == Some(v) by {
        assert ("+" + t)[0] == '+' && ("+" + t)[1..] == t;
      }
    }
    assert Atoi("-" + t) == Some(-(v as int)) by {
      assert ("-" + t)[0] == '-' && ("-" + t)[1..] == t;
    }
  }

  lemma {:induction false} LeadingZerosValue(k: nat, s: string)
    requires AllDigits(s)
    ensures AllDigits(Repeat('0', k) + s)
    ensures DigitsValue(Repeat('0', k) + s) == DigitsValue(s)
  {
    var t := Repeat('0', k) + s;
    if |s| == 0 {
      assert t == Repeat('0', k);
      ZeroValue(k);
    } else {
      var init := s[..|s| - 1];
      LeadingZerosValue(k, init);
      assert t[..|t| - 1] == Repeat('0', k) + init;
      assert t[|t| - 1] == s[|s| - 1];
    }
  }

  lemma {:induction false} ZeroValue(k: nat)
    ensures DigitsValue(Repeat('0', k)) == 0
  {
    if k > 0 {
      var z := Repeat('0', k);
      assert z[..k - 1] == Repeat('0', k - 1);
      ZeroValue(k - 1);
    }
  }

  function Abs(v: int): nat
  {
    if v < 0 then -v else v
  }

  /** The sign character Atoi consumes, if any. */
  function SignOf(s: string): (sign: string)
    ensures sign in {"", "+", "-"}
  {
    if |s| > 0 && (s[0] == '-' || s[0] == '+') then [s[0]] else ""
  }

  /** What Atoi read: the digits after the sign, whose value is the magnitude of the result. */
  lemma AtoiDigits(s: string)
    requires Atoi(s).Some?
    ensures |SignOf(s)| < |s| && AllDigits(s[|SignOf(s)|..])
    ensures Abs(Atoi(s).value) == DigitsValue(s[|SignOf(s)|..])
  {
  }

  /**
   Every numeral Atoi accepts is an optional sign, then leading zeros, then
   the shortest numeral of the magnitude it returns.
   */
  lemma AtoiCanonical(s: string)
    requires Atoi(s).Some?
    ensures |SignOf(s)| + |Show(Abs(Atoi(s).value))| <= |s|
    ensures s == SignOf(s) + Repeat('0', |s| - |SignOf(s)| - |Show(Abs(Atoi(s).value))|) + Show(Abs(Atoi(s).value))
  {
    var sign := SignOf(s);
    var digits := s[|sign|..];
    AtoiDigits(s);
    var shown := Show(Abs(Atoi(s).value));
    assert |shown| <= |digits| && digits == Repeat('0', |digits| - |shown|) + shown by {
      CanonicalDigits(digits);
    }
    SignThenDigits(s, sign, Repeat('0', |digits| - |shown|), shown);
  }

  /** Re-associating a string cut after its sign. */
  lemma SignThenDigits(s: string, sign: string, zeros: string, shown: string)
    requires |sign| <= |s| && s[..|sign|] == sign
    requires s[|sign|..] == zeros + shown
    ensures s == sign + zeros + shown
  {
    assert s == s[..|sign|] + s[|sign|..];
  }
}
