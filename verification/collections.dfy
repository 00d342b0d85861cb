/**
 * A Python `dict`: a finite map that remembers the order in which keys were first
 * inserted. Assigning to an existing key keeps its position.
 */
module PyDict {

  datatype Dict<K(==,!new), V> = Dict(keys: seq<K>, vals: map<K, V>)

  ghost predicate Valid<K(!new), V>(d: Dict<K, V>) {
    && (forall i, j :: 0 <= i < j < |d.keys| ==> d.keys[i] != d.keys[j])
    && (forall k :: k in d.vals <==> k in d.keys)
  }

  function Empty<K(==,!new), V>(): (d: Dict<K, V>)
    ensures Valid(d) && d.keys == [] && d.vals == map[]
  {
    Dict([], map[])
  }

  /** `d[k] = v`. */
  function Put<K(==,!new), V>(d: Dict<K, V>, k: K, v: V): (r: Dict<K, V>)
    ensures Valid(d) ==> Valid(r)
    ensures r.vals == d.vals[k := v]
    ensures r.keys == if k in d.vals then d.keys else d.keys + [k]
  {
    if k in d.vals then Dict(d.keys, d.vals[k := v]) else Dict(d.keys + [k], d.vals[k := v])
  }

  /** `d` maps the key of each item of `f`, in the order of `f`, to that item. */
  ghost predicate KeyedBy<K(!new), V>(d: Dict<K, V>, f: seq<V>, key: V -> K) {
    && Valid(d)
    && |d.keys| == |f|
    && forall j :: 0 <= j < |f| ==> d.keys[j] == key(f[j]) && d.vals[d.keys[j]] == f[j]
  }

  /** Adding an item under a new key keeps the dictionary keyed by the items. */
  lemma KeyedByPut<K(!new), V>(d: Dict<K, V>, f: seq<V>, x: V, key: V -> K)
    requires KeyedBy(d, f, key) && key(x) !in d.vals
    ensures KeyedBy(Put(d, key(x), x), f + [x], key)
  {
    var r := Put(d, key(x), x);
    forall j | 0 <= j < |f| + 1
      ensures r.keys[j] == key((f + [x])[j]) && r.vals[r.keys[j]] == (f + [x])[j]
    {
      if j < |f| {
        assert d.keys[j] in d.vals;
      }
    }
  }

  /** `d.get(k, default)`. */
  function Get<K(==,!new), V>(d: Dict<K, V>, k: K, default: V): (v: V)
    ensures k in d.vals ==> v == d.vals[k]
    ensures k !in d.vals ==> v == default
  {
    if k in d.vals then d.vals[k] else default
  }

  /** `list(d.values())`, in key order. */
  function Values<K(==,!new), V>(d: Dict<K, V>): (r: seq<V>)
    requires Valid(d)
    ensures |r| == |d.keys|
    ensures forall i :: 0 <= i < |r| ==> r[i] == d.vals[d.keys[i]]
  {
    seq(|d.keys|, i requires 0 <= i < |d.keys| && Valid(d) => d.vals[d.keys[i]])
  }

  /** The values of a dictionary keyed by the items of `f` are those items, in order. */
  lemma ValuesKeyedBy<K(!new), V>(d: Dict<K, V>, f: seq<V>, key: V -> K)
    requires KeyedBy(d, f, key)
    ensures Values(d) == f
  {
  }

  /**
   * The dictionary the loop `for x in s: if keep(x): d[key(x)] = val(x)` builds, starting
   * from an empty `d`.
   */
  function PutAll<T, K(==,!new), V>(s: seq<T>, keep: T -> bool, key: T -> K, val: T -> V): (d: Dict<K, V>)
    ensures Valid(d)
    decreases |s|
  {
    if s == [] then Empty()
    else
      var d := PutAll(s[..|s| - 1], keep, key, val);
      var x := s[|s| - 1];
      if keep(x) then Put(d, key(x), val(x)) else d
  }

  /** One more item, as a loop over `s` sees it at position `i`. */
  lemma PutAllStep<T, K(!new), V>(s: seq<T>, i: nat, keep: T -> bool, key: T -> K, val: T -> V)
    requires i < |s|
    ensures PutAll(s[..i + 1], keep, key, val)
         == if keep(s[i]) then Put(PutAll(s[..i], keep, key, val), key(s[i]), val(s[i]))
            else PutAll(s[..i], keep, key, val)
  {
    assert s[..i + 1][..i] == s[..i];
  }

  /** Some kept item has key `k`. */
  ghost predicate HasKept<T, K(!new)>(s: seq<T>, keep: T -> bool, key: T -> K, k: K) {
    exists i :: 0 <= i < |s| && keep(s[i]) && key(s[i]) == k
  }

  /** Item `i` is kept, has key `k`, and no later kept item has that key. */
  ghost predicate LastKept<T, K(!new)>(s: seq<T>, keep: T -> bool, key: T -> K, k: K, i: int) {
    && 0 <= i < |s| && keep(s[i]) && key(s[i]) == k
    && forall j :: i < j < |s| && keep(s[j]) ==> key(s[j]) != k
  }

  /** The value stored under `k` is that of the last kept item with key `k`. */
  ghost predicate FromLastKept<T, K(!new), V>(s: seq<T>, keep: T -> bool, key: T -> K, val: T -> V, d: Dict<K, V>, k: K)
    requires k in d.vals
  {
    exists i :: LastKept(s, keep, key, k, i) && d.vals[k] == val(s[i])
  }

  lemma {:induction false} PutAllKey<T, K(!new), V>(s: seq<T>, keep: T -> bool, key: T -> K, val: T -> V, k: K)
    ensures k in PutAll(s, keep, key, val).vals <==> HasKept(s, keep, key, k)
    decreases |s|
  {
    if s != [] {
      var p := s[..|s| - 1];
      var x := s[|s| - 1];
      PutAllKey(p, keep, key, val, k);
      if HasKept(s, keep, key, k) && !(keep(x) && key(x) == k) {
        var i :| 0 <= i < |s| && keep(s[i]) && key(s[i]) == k;
        assert i < |p| && p[i] == s[i];
      }
      if HasKept(p, keep, key, k) {
        var i :| 0 <= i < |p| && keep(p[i]) && key(p[i]) == k;
        assert s[i] == p[i];
      }
    }
  }

  lemma {:induction false} PutAllValue<T, K(!new), V>(s: seq<T>, keep: T -> bool, key: T -> K, val: T -> V, k: K)
    requires k in PutAll(s, keep, key, val).vals
    ensures FromLastKept(s, keep, key, val, PutAll(s, keep, key, val), k)
    decreases |s|
  {
    var p := s[..|s| - 1];
    var last := |s| - 1;
    var x := s[last];
    if keep(x) && key(x) == k {
      assert LastKept(s, keep, key, k, last);
    } else {
      PutAllValue(p, keep, key, val, k);
      var i :| LastKept(p, keep, key, k, i) && PutAll(p, keep, key, val).vals[k] == val(p[i]);
      assert s[i] == p[i];
      assert LastKept(s, keep, key, k, i);
    }
  }

  /**
   * The keys are exactly the keys of the kept items, and each maps to the value of the
   * last kept item with that key: a later assignment overwrites an earlier one.
   */
  lemma PutAllLastWins<T, K(!new), V>(s: seq<T>, keep: T -> bool, key: T -> K, val: T -> V)
    ensures var d := PutAll(s, keep, key, val);
      forall k :: k in d.vals <==> HasKept(s, keep, key, k)
    ensures var d := PutAll(s, keep, key, val);
      forall k :: k in d.vals ==> FromLastKept(s, keep, key, val, d, k)
  {
    forall k ensures k in PutAll(s, keep, key, val).vals <==> HasKept(s, keep, key, k) {
      PutAllKey(s, keep, key, val, k);
    }
    forall k | k in PutAll(s, keep, key, val).vals ensures FromLastKept(s, keep, key, val, PutAll(s, keep, key, val), k) {
      PutAllValue(s, keep, key, val, k);
    }
  }
}

/**
 * Python's `sorted(xs, key=...)` over string keys, as a stable insertion sort.
 */
module Sorting {
  import opened Text

  ghost predicate SortedBy<T>(s: seq<T>, key: T -> string) {
    forall i, j :: 0 <= i < j < |s| ==> LessEq(key(s[i]), key(s[j]))
  }

  /** Every key in `s` is at least `b`. */
  ghost predicate AllAtLeast<T>(b: string, s: seq<T>, key: T -> string) {
    forall j :: 0 <= j < |s| ==> LessEq(b, key(s[j]))
  }

  /** A sorted sequence stays sorted behind an element no larger than any of its keys. */
  lemma ConsSorted<T>(y: T, s: seq<T>, key: T -> string)
    requires SortedBy(s, key) && AllAtLeast(key(y), s, key)
    ensures SortedBy([y] + s, key)
  {
    var r := [y] + s;
    forall i, j | 0 <= i < j < |r|
      ensures LessEq(key(r[i]), key(r[j]))
    {
      if i > 0 {
        assert r[i] == s[i - 1] && r[j] == s[j - 1];
      }
    }
  }

  /** A lower bound of the keys of `t` and of `x` bounds every key of a permutation of `t + [x]`. */
  lemma AllAtLeastPermutation<T>(b: string, x: T, t: seq<T>, s: seq<T>, key: T -> string)
    requires multiset(s) == multiset(t) + multiset{x}
    requires AllAtLeast(b, t, key) && LessEq(b, key(x))
    ensures AllAtLeast(b, s, key)
  {
    forall j | 0 <= j < |s|
      ensures LessEq(b, key(s[j]))
    {
      assert s[j] in multiset(s);
      if s[j] != x {
        assert s[j] in multiset(t);
        var k :| 0 <= k < |t| && t[k] == s[j];
      }
    }
  }

  /** The first key of a sorted sequence bounds all of them. */
  lemma SortedHeadBound<T>(s: seq<T>, key: T -> string)
    requires SortedBy(s, key) && s != []
    ensures AllAtLeast(key(s[0]), s[1..], key)
  {
    forall j | 0 <= j < |s[1..]|
      ensures LessEq(key(s[0]), key(s[1..][j]))
    {
      assert s[1..][j] == s[j + 1];
    }
  }

  function Insert<T(==)>(x: T, s: seq<T>, key: T -> string): (r: seq<T>)
    requires SortedBy(s, key)
    ensures SortedBy(r, key)
    ensures multiset(r) == multiset(s) + multiset{x}
    ensures |r| == |s| + 1
  {
    if s == [] then [x]
    else if LessEq(key(x), key(s[0])) then
      SortedHeadBound(s, key);
      forall j | 0 <= j < |s| ensures LessEq(key(x), key(s[j])) {
        if j > 0 {
          assert s[j] == s[1..][j - 1];
          LessEqTransitive(key(x), key(s[0]), key(s[j]));
        }
      }
      ConsSorted(x, s, key);
      [x] + s
    else
      assert SortedBy(s[1..], key);
      var rest := Insert(x, s[1..], key);
      LessEqTotal(key(x), key(s[0]));
      SortedHeadBound(s, key);
      AllAtLeastPermutation(key(s[0]), x, s[1..], rest, key);
      ConsSorted(s[0], rest, key);
      assert s == [s[0]] + s[1..];
      [s[0]] + rest
  }

  /** `sorted(s, key=key)`: ordered by key, and a permutation of `s`. */
  function SortBy<T(==)>(s: seq<T>, key: T -> string): (r: seq<T>)
    ensures SortedBy(r, key)
    ensures multiset(r) == multiset(s)
    ensures |r| == |s|
  {
    if s == [] then []
    else
      var rest := SortBy(s[1..], key);
      assert s == [s[0]] + s[1..];
      Insert(s[0], rest, key)
  }

  function Id(s: string): string { s }

  /** `sorted(xs)` on a list of strings. */
  function SortStrings(xs: seq<string>): (r: seq<string>)
    ensures SortedBy(r, Id)
    ensures multiset(r) == multiset(xs)
  {
    SortBy(xs, Id)
  }
}

/**
 * The "keep the first item per key" loops of the crawler: an item is kept when its key
 * is neither in the initial `seen` set nor the key of an earlier item.
 */
module FirstByKey {

  function KeysOf<T, K(!new)>(s: seq<T>, key: T -> K): (r: set<K>)
    ensures forall k :: k in r <==> exists i :: 0 <= i < |s| && key(s[i]) == k
  {
    if s == [] then {} else KeysOf(s[..|s| - 1], key) + {key(s[|s| - 1])}
  }

  ghost predicate DistinctKeys<T, K(!new)>(s: seq<T>, key: T -> K) {
    forall i, j :: 0 <= i < j < |s| ==> key(s[i]) != key(s[j])
  }

  /** Position `i` holds the first item with its key, and that key was not seen beforehand. */
  ghost predicate IsFirst<T, K(!new)>(s: seq<T>, key: T -> K, seen: set<K>, i: int) {
    0 <= i < |s| && key(s[i]) !in seen && forall j :: 0 <= j < i ==> key(s[j]) != key(s[i])
  }

  /** The items kept, in input order. */
  function Firsts<T, K(!new)>(s: seq<T>, key: T -> K, seen: set<K>): seq<T>
  {
    if s == [] then []
    else
      var p := s[..|s| - 1];
      var x := s[|s| - 1];
      if key(x) in seen || key(x) in KeysOf(p, key) then Firsts(p, key, seen) else Firsts(p, key, seen) + [x]
  }

  /** The input positions of the kept items. */
  function FirstIndices<T, K(!new)>(s: seq<T>, key: T -> K, seen: set<K>): (r: seq<nat>)
    ensures forall j :: 0 <= j < |r| ==> r[j] < |s|
    ensures forall a, b :: 0 <= a < b < |r| ==> r[a] < r[b]
  {
    if s == [] then []
    else
      var p := s[..|s| - 1];
      var x := s[|s| - 1];
      if key(x) in seen || key(x) in KeysOf(p, key) then FirstIndices(p, key, seen)
      else FirstIndices(p, key, seen) + [|s| - 1]
  }

  lemma FirstsSnoc<T, K(!new)>(s: seq<T>, x: T, key: T -> K, seen: set<K>)
    ensures (s + [x])[..|s|] == s
    ensures Firsts(s + [x], key, seen)
         == if key(x) in seen || key(x) in KeysOf(s, key) then Firsts(s, key, seen) else Firsts(s, key, seen) + [x]
  {
    assert (s + [x])[..|s|] == s;
  }

  lemma KeysOfSnoc<T, K(!new)>(s: seq<T>, x: T, key: T -> K)
    ensures KeysOf(s + [x], key) == KeysOf(s, key) + {key(x)}
  {
    assert (s + [x])[..|s|] == s;
  }

  /** One more input item, as a loop over `s` sees it at position `i`. */
  lemma FirstsStep<T, K(!new)>(s: seq<T>, i: nat, key: T -> K, seen: set<K>)
    requires i < |s|
    ensures KeysOf(s[..i + 1], key) == KeysOf(s[..i], key) + {key(s[i])}
    ensures Firsts(s[..i + 1], key, seen)
         == if key(s[i]) in seen || key(s[i]) in KeysOf(s[..i], key) then Firsts(s[..i], key, seen)
            else Firsts(s[..i], key, seen) + [s[i]]
  {
    assert s[..i + 1] == s[..i] + [s[i]];
    FirstsSnoc(s[..i], s[i], key, seen);
    KeysOfSnoc(s[..i], s[i], key);
  }

  /**
   * The kept items are exactly the input items at first-occurrence positions, in input
   * order: the result is a subsequence of the input made of the original items.
   */
  lemma {:induction false} FirstsSelect<T, K(!new)>(s: seq<T>, key: T -> K, seen: set<K>)
    ensures var r, idx := Firsts(s, key, seen), FirstIndices(s, key, seen);
      && |r| == |idx|
      && (forall j :: 0 <= j < |r| ==> r[j] == s[idx[j]])
      && (forall i :: IsFirst(s, key, seen, i) <==> i in idx)
  {
    if s != [] {
      var p := s[..|s| - 1];
      var x := s[|s| - 1];
      FirstsSelect(p, key, seen);
      forall i | 0 <= i < |p| ensures IsFirst(s, key, seen, i) <==> IsFirst(p, key, seen, i) {
      }
      if key(x) in KeysOf(p, key) {
        var j :| 0 <= j < |p| && key(p[j]) == key(x);
        assert !IsFirst(s, key, seen, |s| - 1);
      }
    }
  }

  /** The kept keys are the input's keys that were not seen beforehand. */
  lemma {:induction false} FirstsKeys<T, K(!new)>(s: seq<T>, key: T -> K, seen: set<K>)
    ensures KeysOf(Firsts(s, key, seen), key) == KeysOf(s, key) - seen
  {
    if s != [] {
      var p := s[..|s| - 1];
      var x := s[|s| - 1];
      assert s == p + [x];
      FirstsKeys(p, key, seen);
      KeysOfSnoc(p, x, key);
      FirstsSnoc(p, x, key, seen);
      if !(key(x) in seen || key(x) in KeysOf(p, key)) {
        KeysOfSnoc(Firsts(p, key, seen), x, key);
      }
    }
  }

  /** No two kept items share a key, and no kept key was in `seen`. */
  lemma {:induction false} FirstsDistinct<T, K(!new)>(s: seq<T>, key: T -> K, seen: set<K>)
    ensures DistinctKeys(Firsts(s, key, seen), key)
    ensures KeysOf(Firsts(s, key, seen), key) == KeysOf(s, key) - seen
  {
    FirstsKeys(s, key, seen);
    if s != [] {
      var p := s[..|s| - 1];
      var x := s[|s| - 1];
      assert s == p + [x];
      FirstsDistinct(p, key, seen);
      FirstsSnoc(p, x, key, seen);
      if !(key(x) in seen || key(x) in KeysOf(p, key)) {
        var r := Firsts(p, key, seen);
        FirstsKeys(p, key, seen);
        forall i | 0 <= i < |r| ensures key(r[i]) != key(x) {
          assert key(r[i]) in KeysOf(r, key);
        }
        var r' := r + [x];
        forall i, j | 0 <= i < j < |r'| ensures key(r'[i]) != key(r'[j]) {
          if j < |r| {
            assert r'[i] == r[i] && r'[j] == r[j];
          }
        }
      }
    }
  }

  /** An input that already has distinct, unseen keys is kept whole. */
  lemma {:induction false} FirstsOfDistinct<T, K(!new)>(s: seq<T>, key: T -> K, seen: set<K>)
    requires DistinctKeys(s, key)
    requires forall i :: 0 <= i < |s| ==> key(s[i]) !in seen
    ensures Firsts(s, key, seen) == s
  {
    if s != [] {
      var p := s[..|s| - 1];
      FirstsOfDistinct(p, key, seen);
      assert forall j :: 0 <= j < |p| ==> key(p[j]) != key(s[|s| - 1]);
      assert key(s[|s| - 1]) !in KeysOf(p, key);
      assert s == p + [s[|s| - 1]];
    }
  }

  /** Keeping the first item per key a second time changes nothing. */
  lemma FirstsIdempotent<T, K(!new)>(s: seq<T>, key: T -> K, seen: set<K>)
    ensures Firsts(Firsts(s, key, seen), key, seen) == Firsts(s, key, seen)
  {
    var r := Firsts(s, key, seen);
    FirstsDistinct(s, key, seen);
    forall i | 0 <= i < |r| ensures key(r[i]) !in seen {
      assert key(r[i]) in KeysOf(r, key);
    }
    FirstsOfDistinct(r, key, seen);
  }
}
