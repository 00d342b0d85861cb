/**
 * Python `str` operations used across NetRunner, over Dafny strings.
 * Case folding is ASCII-only; whitespace is the set Python's `str.isspace()` accepts.
 */
module Text {

  /** The characters `str.strip()` removes when called without arguments. */
  predicate IsSpace(c: char) {
    c == ' ' || ('\t' <= c <= '\r') || ('\U{1C}' <= c <= '\U{1F}') || c == '\U{85}' || c == '\U{A0}'
    || c == '\U{1680}' || ('\U{2000}' <= c <= '\U{200A}') || c == '\U{2028}' || c == '\U{2029}'
    || c == '\U{202F}' || c == '\U{205F}' || c == '\U{3000}'
  }

  predicate IsAsciiUpper(c: char) { 'A' <= c <= 'Z' }

  predicate IsAsciiLetter(c: char) { 'A' <= c <= 'Z' || 'a' <= c <= 'z' }

  predicate IsAsciiDigit(c: char) { '0' <= c <= '9' }

  function LowerChar(c: char): (r: char)
    ensures !IsAsciiUpper(r)
    ensures r != c <==> IsAsciiUpper(c)
    ensures IsSpace(r) <==> IsSpace(c)
  {
    if IsAsciiUpper(c) then (c as int + 32) as char else c
  }

  /** `s.lower()`, restricted to ASCII letters. */
  function Lower(s: string): (r: string)
    ensures |r| == |s|
    ensures forall i :: 0 <= i < |s| ==> r[i] == LowerChar(s[i])
  {
    seq(|s|, i requires 0 <= i < |s| => LowerChar(s[i]))
  }

  predicate NoUpper(s: string) {
    forall i :: 0 <= i < |s| ==> !IsAsciiUpper(s[i])
  }

  lemma LowerIdempotent(s: string)
    ensures NoUpper(Lower(s)) && Lower(Lower(s)) == Lower(s)
  {
  }

  /** Text without upper-case letters is its own lower case. */
  lemma LowerNoUpper(s: string)
    requires NoUpper(s)
    ensures Lower(s) == s
  {
  }

  lemma LowerAppend(a: string, b: string)
    ensures Lower(a + b) == Lower(a) + Lower(b)
  {
  }

  // ---------------------------------------------------------------- strip

  function TrimLeftSpace(s: string): (r: string)
    ensures |r| <= |s| && r == s[|s| - |r|..]
    ensures r == [] || !IsSpace(r[0])
    ensures forall i :: 0 <= i < |s| - |r| ==> IsSpace(s[i])
  {
    if s != [] && IsSpace(s[0]) then TrimLeftSpace(s[1..]) else s
  }

  function TrimRightSpace(s: string): (r: string)
    ensures |r| <= |s| && r == s[..|r|]
    ensures r == [] || !IsSpace(r[|r| - 1])
    ensures forall i :: |r| <= i < |s| ==> IsSpace(s[i])
  {
    if s != [] && IsSpace(s[|s| - 1]) then TrimRightSpace(s[..|s| - 1]) else s
  }

  /** How many whitespace characters `s` starts with. */
  function LeadingSpace(s: string): nat {
    |s| - |TrimLeftSpace(s)|
  }

  /**
   * `s.strip()`: the piece of `s` after its leading whitespace, with no whitespace at either
   * end; everything removed before and after it is whitespace.
   */
  function Strip(s: string): (r: string)
    ensures r == [] || (!IsSpace(r[0]) && !IsSpace(r[|r| - 1]))
    ensures |r| <= |s|
    ensures LeadingSpace(s) + |r| <= |s| && r == s[LeadingSpace(s)..LeadingSpace(s) + |r|]
    ensures forall i :: 0 <= i < LeadingSpace(s) ==> IsSpace(s[i])
    ensures forall i :: LeadingSpace(s) + |r| <= i < |s| ==> IsSpace(s[i])
  {
    TrimRightSpace(TrimLeftSpace(s))
  }

  /** `len(s.strip())`, counted without building the stripped text. */
  function StripLen(s: string): (n: nat)
    ensures n <= |s|
    decreases |s|
  {
    if s == [] then 0
    else if IsSpace(s[0]) then StripLen(s[1..])
    else if IsSpace(s[|s| - 1]) then StripLen(s[..|s| - 1])
    else |s|
  }

  lemma {:induction false} StripLenIsStrip(s: string)
    ensures StripLen(s) == |Strip(s)|
    decreases |s|
  {
    if s != [] {
      if IsSpace(s[0]) {
        StripLenIsStrip(s[1..]);
      } else if IsSpace(s[|s| - 1]) {
        var p := s[..|s| - 1];
        StripLenIsStrip(p);
        assert TrimLeftSpace(s) == s;
        assert p != [] && p[0] == s[0];
        assert TrimLeftSpace(p) == p;
      } else {
        assert TrimLeftSpace(s) == s;
      }
    }
  }

  /** Text with no whitespace at either end is its own `strip()`. */
  lemma StripTrimmed(s: string)
    requires s == [] || (!IsSpace(s[0]) && !IsSpace(s[|s| - 1]))
    ensures Strip(s) == s
  {
    assert TrimLeftSpace(s) == s;
  }

  /** `strip()` only removes characters: one absent before is absent after. */
  lemma StripKeepsAbsent(s: string, c: char)
    requires c !in s
    ensures c !in Strip(s)
  {
    var l := TrimLeftSpace(s);
    assert c !in l by {
      assert l == s[|s| - |l|..];
    }
    var r := TrimRightSpace(l);
    assert r == l[..|r|];
  }

  /** `s.rstrip(ch)`. */
  function TrimRightChar(s: string, ch: char): (r: string)
    ensures |r| <= |s| && r == s[..|r|]
    ensures r == [] || r[|r| - 1] != ch
    ensures forall i :: |r| <= i < |s| ==> s[i] == ch
  {
    if s != [] && s[|s| - 1] == ch then TrimRightChar(s[..|s| - 1], ch) else s
  }

  /** `s.lstrip(ch)`. */
  function TrimLeftChar(s: string, ch: char): (r: string)
    ensures |r| <= |s| && r == s[|s| - |r|..]
    ensures r == [] || r[0] != ch
    ensures forall i :: 0 <= i < |s| - |r| ==> s[i] == ch
  {
    if s != [] && s[0] == ch then TrimLeftChar(s[1..], ch) else s
  }

  /** `s.strip(ch)`. */
  function StripChar(s: string, ch: char): (r: string)
    ensures r == [] || (r[0] != ch && r[|r| - 1] != ch)
  {
    TrimRightChar(TrimLeftChar(s, ch), ch)
  }

  // ---------------------------------------------------------------- search

  predicate StartsWith(s: string, p: string) {
    |p| <= |s| && s[..|p|] == p
  }

  predicate EndsWith(s: string, p: string) {
    |p| <= |s| && s[|s| - |p|..] == p
  }

  predicate OccursAt(s: string, p: string, i: int) {
    0 <= i && i + |p| <= |s| && s[i..i + |p|] == p
  }

  function FindFrom(s: string, p: string, from: nat): (r: int)
    requires from <= |s|
    ensures r == -1 || (from <= r && OccursAt(s, p, r))
    ensures forall i :: from <= i && (r == -1 || i < r) ==> !OccursAt(s, p, i)
    decreases |s| - from
  {
    if OccursAt(s, p, from) then from
    else if from == |s| then -1
    else FindFrom(s, p, from + 1)
  }

  /** `s.find(p)`: the leftmost occurrence of `p`, or -1. */
  function Find(s: string, p: string): (r: int)
    ensures r == -1 || OccursAt(s, p, r)
    ensures forall i :: 0 <= i && (r == -1 || i < r) ==> !OccursAt(s, p, i)
  {
    FindFrom(s, p, 0)
  }

  /** `p in s`. */
  predicate Contains(s: string, p: string) {
    Find(s, p) >= 0
  }

  lemma ContainsAt(s: string, p: string, i: int)
    requires OccursAt(s, p, i)
    ensures Contains(s, p)
  {
  }

  /**
   * `s.split(p)[-1]`: a suffix of `s` holding no `p`; unless it is all of `s`, an occurrence of
   * `p` ends where it starts.
   */
  function LastPiece(s: string, p: string): (r: string)
    requires |p| > 0
    ensures |r| <= |s| && r == s[|s| - |r|..]
    ensures !Contains(r, p)
    ensures |r| < |s| ==> |r| + |p| <= |s| && s[|s| - |r| - |p|..|s| - |r|] == p
    decreases |s|
  {
    var i := Find(s, p);
    if i < 0 then s
    else
      var rest := s[i + |p|..];
      var r := LastPiece(rest, p);
      LastPieceStep(s, p, i, r);
      r
  }

  /** A suffix of the text after an occurrence of `p` is a suffix of the whole text. */
  lemma LastPieceStep(s: string, p: string, i: nat, r: string)
    requires |p| > 0 && OccursAt(s, p, i)
    requires var rest := s[i + |p|..];
      |r| <= |rest| && r == rest[|rest| - |r|..]
      && (|r| < |rest| ==> |r| + |p| <= |rest| && rest[|rest| - |r| - |p|..|rest| - |r|] == p)
    ensures |r| < |s| && r == s[|s| - |r|..]
    ensures |r| + |p| <= |s| && s[|s| - |r| - |p|..|s| - |r|] == p
  {
    var rest := s[i + |p|..];
    var n, m, q := |s|, |r|, |p|;
    assert |rest| == n - i - q;
    forall k | 0 <= k < m ensures r[k] == s[n - m + k] {
      assert r[k] == rest[|rest| - m + k];
    }
    assert r == s[n - m..];
    if m < |rest| {
      var w := rest[|rest| - m - q..|rest| - m];
      forall k | 0 <= k < q ensures p[k] == s[n - m - q + k] {
        assert p[k] == w[k] == rest[|rest| - m - q + k];
      }
      assert s[n - m - q..n - m] == p;
    } else {
      assert n - m - q == i;
    }
  }

  /** `s.replace(p, "")`: every occurrence found left to right is removed. */
  function RemoveAll(s: string, p: string): (r: string)
    requires |p| > 0
    ensures |r| <= |s|
    ensures !Contains(s, p) ==> r == s
    decreases |s|
  {
    var i := Find(s, p);
    if i < 0 then s else s[..i] + RemoveAll(s[i + |p|..], p)
  }

  /** `s.split(c)[0]`: the text before the first `c`. */
  function CutAt(s: string, c: char): (r: string)
    ensures |r| <= |s| && r == s[..|r|]
    ensures c !in r
    ensures |r| < |s| ==> s[|r|] == c
  {
    if s == [] then [] else if s[0] == c then [] else [s[0]] + CutAt(s[1..], c)
  }

  /** Text without `c` is kept whole. */
  lemma {:induction false} CutAtAbsent(s: string, c: char)
    requires c !in s
    ensures CutAt(s, c) == s
    decreases |s|
  {
    if s != [] {
      CutAtAbsent(s[1..], c);
    }
  }

  /** The text before the first `c`. */
  lemma {:induction false} CutAtFirst(p: string, c: char, q: string)
    requires c !in p
    ensures CutAt(p + [c] + q, c) == p
    decreases |p|
  {
    if p != [] {
      CutAtFirst(p[1..], c, q);
      assert (p + [c] + q)[1..] == p[1..] + [c] + q;
    } else {
      assert p + [c] + q == [c] + q;
    }
  }

  /** `s.split(c)` for a one-character separator. */
  function Split(s: string, c: char): (r: seq<string>)
    ensures |r| >= 1
    ensures forall k :: 0 <= k < |r| ==> c !in r[k]
    decreases |s|
  {
    var piece := CutAt(s, c);
    if |piece| == |s| then [s] else [piece] + Split(s[|piece| + 1..], c)
  }

  /** `c.join(pieces)`. */
  function Join(pieces: seq<string>, c: char): string
  {
    if pieces == [] then [] else if |pieces| == 1 then pieces[0] else pieces[0] + [c] + Join(pieces[1..], c)
  }

  /** Splitting and joining again gives back the original text. */
  lemma {:induction false} SplitJoin(s: string, c: char)
    ensures Join(Split(s, c), c) == s
    decreases |s|
  {
    var piece := CutAt(s, c);
    if |piece| < |s| {
      var rest := s[|piece| + 1..];
      SplitJoin(rest, c);
      calc {
        Join(Split(s, c), c);
        Join([piece] + Split(rest, c), c);
        { assert ([piece] + Split(rest, c))[1..] == Split(rest, c); }
        piece + [c] + Join(Split(rest, c), c);
        piece + [c] + rest;
        { assert s == s[..|piece|] + [s[|piece|]] + s[|piece| + 1..]; }
        s;
      }
    }
  }

  /** `s[:n]`. */
  function Take(s: string, n: nat): (r: string)
    ensures |r| == if |s| <= n then |s| else n
    ensures r == s[..|r|]
  {
    if |s| <= n then s else s[..n]
  }

  // ---------------------------------------------------------------- integers

  function DigitChar(d: nat): (c: char)
    requires d < 10
    ensures IsAsciiDigit(c)
  {
    "0123456789"[d]
  }

  function DigitValue(c: char): nat
  {
    if IsAsciiDigit(c) then c as nat - '0' as nat else 0
  }

  /** `str(n)` for a natural number. */
  function NatToString(n: nat): (r: string)
    ensures |r| >= 1
    ensures forall i :: 0 <= i < |r| ==> IsAsciiDigit(r[i])
    decreases n
  {
    if n < 10 then [DigitChar(n)] else NatToString(n / 10) + [DigitChar(n % 10)]
  }

  /** `str(n)` for any integer. */
  function IntToString(n: int): (r: string)
    ensures |r| >= 1
  {
    if n < 0 then "-" + NatToString(-n) else NatToString(n)
  }

  /** `int(s)` for a string of decimal digits. */
  function ParseNat(s: string): nat
  {
    if s == [] then 0 else ParseNat(s[..|s| - 1]) * 10 + DigitValue(s[|s| - 1])
  }

  /** The decimal text of a number reads back as that number. */
  lemma {:induction false} NatToStringRoundTrip(n: nat)
    ensures ParseNat(NatToString(n)) == n
    decreases n
  {
    if n >= 10 {
      NatToStringRoundTrip(n / 10);
      var s := NatToString(n);
      assert s[..|s| - 1] == NatToString(n / 10);
    }
  }

  // ---------------------------------------------------------------- ordering

  /** Python's `a <= b` on strings: lexicographic by code point. */
  predicate LessEq(a: string, b: string)
    decreases |a|
  {
    a == [] || (b != [] && (a[0] < b[0] || (a[0] == b[0] && LessEq(a[1..], b[1..]))))
  }

  lemma {:induction false} LessEqReflexive(a: string)
    ensures LessEq(a, a)
    decreases |a|
  {
    if a != [] { LessEqReflexive(a[1..]); }
  }

  lemma {:induction false} LessEqTotal(a: string, b: string)
    ensures LessEq(a, b) || LessEq(b, a)
    decreases |a|
  {
    if a != [] && b != [] && a[0] == b[0] { LessEqTotal(a[1..], b[1..]); }
  }

  lemma {:induction false} LessEqTransitive(a: string, b: string, c: string)
    requires LessEq(a, b) && LessEq(b, c)
    ensures LessEq(a, c)
    decreases |a|
  {
    if a != [] && a[0] == b[0] && b[0] == c[0] { LessEqTransitive(a[1..], b[1..], c[1..]); }
  }

  lemma {:induction false} LessEqAntisymmetric(a: string, b: string)
    requires LessEq(a, b) && LessEq(b, a)
    ensures a == b
    decreases |a|
  {
    if a != [] {
      LessEqAntisymmetric(a[1..], b[1..]);
      assert a == [a[0]] + a[1..] && b == [b[0]] + b[1..];
    }
  }
}
