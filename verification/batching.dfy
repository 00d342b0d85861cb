/**
 * Cutting a work list into consecutive waves of at most `size` items, as
 * `for i in range(0, len(s), size): s[i:i + size]` does.
 */
module Batching {

  function Flatten<T>(xss: seq<seq<T>>): (r: seq<T>)
    decreases |xss|
  {
    if xss == [] then [] else Flatten(xss[..|xss| - 1]) + xss[|xss| - 1]
  }

  /** Each item's results, in item order. */
  function ConcatMap<T, U>(s: seq<T>, f: T -> seq<U>): (r: seq<U>)
    decreases |s|
  {
    if s == [] then [] else ConcatMap(s[..|s| - 1], f) + f(s[|s| - 1])
  }

  lemma ConcatMapSnoc<T, U>(s: seq<T>, x: T, f: T -> seq<U>)
    ensures ConcatMap(s + [x], f) == ConcatMap(s, f) + f(x)
  {
    assert (s + [x])[..|s|] == s;
  }

  lemma {:induction false} ConcatMapAppend<T, U>(a: seq<T>, b: seq<T>, f: T -> seq<U>)
    ensures ConcatMap(a + b, f) == ConcatMap(a, f) + ConcatMap(b, f)
    decreases |b|
  {
    if b == [] {
      assert a + b == a;
    } else {
      var p := b[..|b| - 1];
      var x := b[|b| - 1];
      assert a + b == (a + p) + [x];
      assert b == p + [x];
      calc {
        ConcatMap(a + b, f);
        { ConcatMapSnoc(a + p, x, f); }
        ConcatMap(a + p, f) + f(x);
        { ConcatMapAppend(a, p, f); }
        ConcatMap(a, f) + ConcatMap(p, f) + f(x);
        { ConcatMapSnoc(p, x, f); }
        ConcatMap(a, f) + ConcatMap(b, f);
      }
    }
  }

  lemma ConcatMapStep<T, U>(s: seq<T>, j: nat, f: T -> seq<U>)
    requires j < |s|
    ensures ConcatMap(s[..j + 1], f) == ConcatMap(s[..j], f) + f(s[j])
  {
    assert s[..j + 1] == s[..j] + [s[j]];
    ConcatMapSnoc(s[..j], s[j], f);
  }

  lemma MulAtLeast(k: int, d: int)
    requires k >= 1 && d >= 1
    ensures k * d >= d
  {
  }

  /** Euclidean division has one quotient. */
  lemma DivUnique(x: int, d: int, q: int, r: int)
    requires d >= 1 && 0 <= r < d && x == q * d + r
    ensures x / d == q
  {
    var q0, r0 := x / d, x % d;
    assert q0 * d + r0 == x;
    assert (q0 - q) * d == r - r0;
    if q0 > q {
      MulAtLeast(q0 - q, d);
    } else if q0 < q {
      MulAtLeast(q - q0, d);
    }
  }

  lemma FlattenSnoc<T>(xss: seq<seq<T>>, xs: seq<T>)
    ensures Flatten(xss + [xs]) == Flatten(xss) + xs
  {
    assert (xss + [xs])[..|xss|] == xss;
  }

  lemma {:induction false} FlattenCons<T>(xs: seq<T>, xss: seq<seq<T>>)
    ensures Flatten([xs] + xss) == xs + Flatten(xss)
    decreases |xss|
  {
    if xss == [] {
      assert [xs] + xss == [xs];
      assert Flatten([xs]) == Flatten([]) + xs;
    } else {
      var p := xss[..|xss| - 1];
      var last := xss[|xss| - 1];
      FlattenCons(xs, p);
      assert ([xs] + xss)[..|xss|] == [xs] + p;
      assert ([xs] + xss)[|xss|] == last;
    }
  }

  /** The number of waves of `size` items that `n` items need: none for none, one for up to `size`, one more per `size`. */
  lemma CeilSteps(n: nat, size: nat)
    requires size >= 1
    ensures n == 0 ==> (n + size - 1) / size == 0
    ensures 1 <= n <= size ==> (n + size - 1) / size == 1
    ensures n > size ==> (n + size - 1) / size == (n - size + size - 1) / size + 1
  {
    if n == 0 {
      DivUnique(size - 1, size, 0, size - 1);
    } else if n <= size {
      DivUnique(n + size - 1, size, 1, n - 1);
    } else {
      var q, r := (n - 1) / size, (n - 1) % size;
      assert n - 1 == q * size + r;
      assert n + size - 1 == (q + 1) * size + r;
      DivUnique(n + size - 1, size, q + 1, r);
    }
  }

  /**
   * The slices `s[i:i + size]` for `i` in `range(0, len(s), size)`: non-empty, and all of
   * length `size` but the last.
   */
  function Batches<T>(s: seq<T>, size: nat): (r: seq<seq<T>>)
    requires size >= 1
    ensures forall i :: 0 <= i < |r| ==> 1 <= |r[i]| <= size
    ensures forall i :: 0 <= i < |r| - 1 ==> |r[i]| == size
    decreases |s|
  {
    if s == [] then []
    else if |s| <= size then [s]
    else [s[..size]] + Batches(s[size..], size)
  }

  /** The batches, one after the other, are the whole of `s`, in order. */
  lemma {:induction false} BatchesCover<T>(s: seq<T>, size: nat)
    requires size >= 1
    ensures Flatten(Batches(s, size)) == s
    decreases |s|
  {
    if s == [] {
    } else if |s| <= size {
      assert Flatten([s]) == Flatten([]) + s;
    } else {
      var rest := Batches(s[size..], size);
      BatchesCover(s[size..], size);
      FlattenCons(s[..size], rest);
      assert s[..size] + s[size..] == s;
    }
  }

  /** There are ceil(|s| / size) batches. */
  lemma {:induction false} BatchCount<T>(s: seq<T>, size: nat)
    requires size >= 1
    ensures |Batches(s, size)| == (|s| + size - 1) / size
    decreases |s|
  {
    CeilSteps(|s|, size);
    if |s| > size {
      BatchCount(s[size..], size);
    }
  }

  lemma BatchTail<T>(s: seq<T>, size: nat, b: nat)
    requires size >= 1 && 0 < b < |Batches(s, size)|
    ensures |s| > size
    ensures b - 1 < |Batches(s[size..], size)|
    ensures Batches(s, size)[b] == Batches(s[size..], size)[b - 1]
  {
  }

  lemma BatchHead<T>(s: seq<T>, size: nat)
    requires size >= 1 && 0 < |Batches(s, size)|
    ensures s != []
    ensures Batches(s, size)[0] == s[..if size <= |s| then size else |s|]
  {
  }

  /** Where batch `b` starts: `size` items after where batch `b - 1` starts. */
  function Offset(b: nat, size: nat): nat
  {
    if b == 0 then 0 else Offset(b - 1, size) + size
  }

  lemma {:induction false} OffsetIsProduct(b: nat, size: nat)
    ensures Offset(b, size) == b * size
  {
    if b > 0 {
      OffsetIsProduct(b - 1, size);
    }
  }

  lemma {:induction false} BatchAtOffset<T>(s: seq<T>, size: nat, b: nat)
    requires size >= 1 && b < |Batches(s, size)|
    ensures Offset(b, size) < |s|
    ensures Batches(s, size)[b]
         == s[Offset(b, size) .. if Offset(b, size) + size <= |s| then Offset(b, size) + size else |s|]
    decreases |s|
  {
    if b == 0 {
      BatchHead(s, size);
    } else {
      BatchTail(s, size, b);
      BatchAtOffset(s[size..], size, b - 1);
      var st := Offset(b - 1, size);
      var e := if st + size <= |s| - size then st + size else |s| - size;
      SliceShift(s, size, st, e);
    }
  }

  lemma SliceShift<T>(s: seq<T>, k: nat, a: nat, c: nat)
    requires k <= |s| && a <= c <= |s| - k
    ensures s[k..][a..c] == s[k + a..k + c]
  {
    forall i | 0 <= i < c - a
      ensures s[k..][a..c][i] == s[k + a..k + c][i]
    {
    }
  }

  /** Batch `b` is the slice `s[b * size : b * size + size]`. */
  lemma BatchIsSlice<T>(s: seq<T>, size: nat, b: nat)
    requires size >= 1 && b < |Batches(s, size)|
    ensures b * size < |s|
    ensures Batches(s, size)[b] == s[b * size .. if b * size + size <= |s| then b * size + size else |s|]
  {
    BatchAtOffset(s, size, b);
    OffsetIsProduct(b, size);
  }
}
