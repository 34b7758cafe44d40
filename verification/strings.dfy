/**
 The parts of Go's `strings` package the population handler relies on, for a
 one-character separator and over ASCII letters: `Split`, `Contains` and
 `ToUpper`. `Join` is the inverse of `Split` and serves as its specification.
 */
module Strings {

  /** Number of occurrences of `c` in `s`. */
  function CountChar(s: string, c: char): nat
  {
    if |s| == 0 then 0 else (if s[0] == c then 1 else 0) + CountChar(s[1..], c)
  }

  /** Glues the pieces back together with one `sep` between neighbours. */
  function Join(parts: seq<string>, sep: char): string
    requires |parts| >= 1
  {
    if |parts| == 1 then parts[0] else parts[0] + [sep] + Join(parts[1..], sep)
  }

  /** Every piece is free of the separator. */
  predicate SepFree(parts: seq<string>, sep: char)
  {
    |parts| == 0 || (sep !in parts[0] && SepFree(parts[1..], sep))
  }

  /** `SepFree` is the pointwise property it is named after. */
  lemma {:induction false} SepFreeAt(parts: seq<string>, sep: char)
    ensures SepFree(parts, sep) <==> forall i :: 0 <= i < |parts| ==> sep !in parts[i]
  {
    if |parts| > 0 {
      SepFreeAt(parts[1..], sep);
      assert forall i :: 1 <= i < |parts| ==> parts[i] == parts[1..][i - 1];
    }
  }

  /**
   `strings.Split(s, string(sep))`: the maximal separator-free pieces of `s`,
   in order. There is always at least one piece (`Split("", sep) == [""]`) and
   exactly one more piece than there are separators.
   */
  function Split(s: string, sep: char): (parts: seq<string>)
    ensures |parts| == CountChar(s, sep) + 1
    ensures SepFree(parts, sep)
    ensures Join(parts, sep) == s
  {
    if |s| == 0 then [""]
    else
      var rest := Split(s[1..], sep);
      if s[0] == sep then [""] + rest
      else [[s[0]] + rest[0]] + rest[1..]
  }

  /** A string without the separator is a single piece. */
  lemma SplitSepFree(s: string, sep: char)
    requires sep !in s
    ensures Split(s, sep) == [s]
  {
  }

  /** Splitting distributes over a separator: the pieces of `a` then those of `b`. */
  lemma {:induction false} SplitAround(a: string, b: string, sep: char)
    ensures Split(a + [sep] + b, sep) == Split(a, sep) + Split(b, sep)
  {
    if |a| == 0 {
      assert a + [sep] + b == [sep] + b;
      assert ([sep] + b)[1..] == b;
    } else {
      assert (a + [sep] + b)[1..] == a[1..] + [sep] + b;
      SplitAround(a[1..], b, sep);
    }
  }

  /** `Split` inverts `Join` on separator-free pieces, so the two are a bijection. */
  lemma {:induction false} SplitJoin(parts: seq<string>, sep: char)
    requires |parts| >= 1
    requires SepFree(parts, sep)
    ensures Split(Join(parts, sep), sep) == parts
  {
    if |parts| == 1 {
      SplitSepFree(parts[0], sep);
    } else {
      SplitJoin(parts[1..], sep);
      SplitAround(parts[0], Join(parts[1..], sep), sep);
      SplitSepFree(parts[0], sep);
      assert [parts[0]] + parts[1..] == parts;
    }
  }

  /** `sub` occurs in `s` starting at index `i`. */
  ghost predicate OccursAt(s: string, sub: string, i: int)
  {
    0 <= i && i + |sub| <= |s| && s[i..i + |sub|] == sub
  }

  /** `strings.Contains(s, sub)`: some window of `s` equals `sub`. */
  function Contains(s: string, sub: string): (b: bool)
    ensures b <==> exists i :: OccursAt(s, sub, i)
    decreases |s|
  {
    if |sub| > |s| then false
    else if s[..|sub|] == sub then
      assert OccursAt(s, sub, 0);
      true
    else
      var b := Contains(s[1..], sub);
      if b then
        assert exists i :: OccursAt(s, sub, i) by {
          var j :| OccursAt(s[1..], sub, j);
          assert s[j + 1..j + 1 + |sub|] == s[1..][j..j + |sub|];
          assert OccursAt(s, sub, j + 1);
        }
        true
      else
        assert forall i :: !OccursAt(s, sub, i) by {
          forall i
            ensures !OccursAt(s, sub, i)
          {
            if 1 <= i && i + |sub| <= |s| {
              assert s[1..][i - 1..i - 1 + |sub|] == s[i..i + |sub|];
              assert !OccursAt(s[1..], sub, i - 1);
            }
          }
        }
        false
  }

  /** ASCII lower-case letter. */
  predicate IsLowerAscii(c: char)
  {
    'a' <= c <= 'z'
  }

  /** `unicode.ToUpper` restricted to ASCII: letters a..z move to A..Z, everything else stays. */
  function UpperChar(c: char): (u: char)
    ensures !IsLowerAscii(u)
    ensures IsLowerAscii(c) ==> u as int == c as int - 32 && 'A' <= u <= 'Z'
    ensures !IsLowerAscii(c) ==> u == c
  {
    if IsLowerAscii(c) then (c as int - 32) as char else c
  }

  /** `strings.ToUpper(s)` over ASCII: the same length, no lower-case letter left, every other character kept. */
  function ToUpper(s: string): (u: string)
    ensures |u| == |s|
    ensures forall i :: 0 <= i < |s| ==> !IsLowerAscii(u[i])
    ensures forall i :: 0 <= i < |s| && !IsLowerAscii(s[i]) ==> u[i] == s[i]
    ensures forall i :: 0 <= i < |s| && IsLowerAscii(s[i]) ==> u[i] as int == s[i] as int - 32
  {
    seq(|s|, i requires 0 <= i < |s| => UpperChar(s[i]))
  }

  /** Upper-casing twice is upper-casing once. */
  lemma ToUpperIdempotent(s: string)
    ensures ToUpper(ToUpper(s)) == ToUpper(s)
  {
  }
}
