/**
 * Duplicate-free sequences and first-occurrence de-duplication, the shape
 * of the `genresList`/`idList` loops and of set-valued SQL results.
 */
module Sequences {

  predicate NoDuplicates<T(==)>(s: seq<T>) {
    forall i, j :: 0 <= i < j < |s| ==> s[i] != s[j]
  }

  function Elements<T>(s: seq<T>): set<T> {
    set x | x in s
  }

  /** The position of the first occurrence of `x` in `s`. */
  function FirstIndexOf<T(==)>(s: seq<T>, x: T): (k: nat)
    requires x in s
    ensures k < |s| && s[k] == x
    ensures forall j :: 0 <= j < k ==> s[j] != x
  {
    if s[0] == x then 0 else 1 + FirstIndexOf(s[1..], x)
  }

  /** `s` with every element after its first occurrence dropped. */
  function Dedup<T(==)>(s: seq<T>): (r: seq<T>)
    ensures NoDuplicates(r)
    ensures forall i :: 0 <= i < |s| ==> s[i] in r
    ensures forall i :: 0 <= i < |r| ==> r[i] in s
    ensures |r| <= |s|
  {
    if s == [] then []
    else
      var p := Dedup(s[..|s| - 1]);
      if s[|s| - 1] in s[..|s| - 1] then p else p + [s[|s| - 1]]
  }

  lemma DedupAppend<T>(s: seq<T>, x: T)
    ensures Dedup(s + [x]) == if x in s then Dedup(s) else Dedup(s) + [x]
  {
    assert (s + [x])[..|s|] == s;
  }

  lemma DedupMembership<T>(s: seq<T>, x: T)
    ensures x in Dedup(s) <==> x in s
  {
    if x in s {
      var k :| 0 <= k < |s| && s[k] == x;
    }
  }

  /** A duplicate-free sequence is its own de-duplication. */
  lemma {:induction false} DedupOfDistinct<T>(s: seq<T>)
    requires NoDuplicates(s)
    ensures Dedup(s) == s
  {
    if s != [] {
      var p := s[..|s| - 1];
      assert s == p + [s[|s| - 1]];
      DedupOfDistinct(p);
      DedupAppend(p, s[|s| - 1]);
    }
  }

  lemma DedupIdempotent<T>(s: seq<T>)
    ensures Dedup(Dedup(s)) == Dedup(s)
  {
    DedupOfDistinct(Dedup(s));
  }

  lemma FirstIndexOfPrefix<T>(p: seq<T>, x: T, y: T)
    requires y in p
    ensures FirstIndexOf(p + [x], y) == FirstIndexOf(p, y)
  {
    var k, k' := FirstIndexOf(p + [x], y), FirstIndexOf(p, y);
    assert (p + [x])[k'] == y;
  }

  /** Elements of `d` ordered by first occurrence in `p` stay so ordered when `p` grows. */
  lemma OrderedExtend<T>(p: seq<T>, x: T, d: seq<T>)
    requires forall i :: 0 <= i < |d| ==> d[i] in p
    requires forall i, j :: 0 <= i < j < |d| ==> FirstIndexOf(p, d[i]) < FirstIndexOf(p, d[j])
    ensures forall i :: 0 <= i < |d| ==> d[i] in p + [x] && FirstIndexOf(p + [x], d[i]) == FirstIndexOf(p, d[i])
  {
    forall i | 0 <= i < |d| ensures d[i] in p + [x] && FirstIndexOf(p + [x], d[i]) == FirstIndexOf(p, d[i]) {
      FirstIndexOfPrefix(p, x, d[i]);
    }
  }

  /** A new element occurs first after everything already in `p`. */
  lemma OrderedAppendNew<T>(p: seq<T>, x: T, d: seq<T>)
    requires x !in p
    requires forall i :: 0 <= i < |d| ==> d[i] in p
    requires forall i, j :: 0 <= i < j < |d| ==> FirstIndexOf(p, d[i]) < FirstIndexOf(p, d[j])
    ensures forall i, j :: 0 <= i < j < |d| + 1 ==>
      FirstIndexOf(p + [x], (d + [x])[i]) < FirstIndexOf(p + [x], (d + [x])[j])
  {
    OrderedExtend(p, x, d);
    var e := d + [x];
    assert FirstIndexOf(p + [x], x) == |p|;
    forall i, j | 0 <= i < j < |e| ensures FirstIndexOf(p + [x], e[i]) < FirstIndexOf(p + [x], e[j]) {
      assert e[i] == d[i];
      if j < |d| {
        assert e[j] == d[j];
      }
    }
  }

  /** De-duplication keeps the order of first occurrences. */
  lemma {:induction false} DedupKeepsFirstOccurrenceOrder<T>(s: seq<T>)
    ensures forall i, j :: 0 <= i < j < |Dedup(s)| ==>
      FirstIndexOf(s, Dedup(s)[i]) < FirstIndexOf(s, Dedup(s)[j])
  {
    if s != [] {
      var p, x := s[..|s| - 1], s[|s| - 1];
      assert s == p + [x];
      DedupKeepsFirstOccurrenceOrder(p);
      DedupAppend(p, x);
      var d := Dedup(p);
      if x in p {
        OrderedExtend(p, x, d);
      } else {
        OrderedAppendNew(p, x, d);
      }
    }
  }

  /** A duplicate-free sequence has as many elements as its set. */
  lemma {:induction false} DistinctCardinality<T>(s: seq<T>)
    requires NoDuplicates(s)
    ensures |Elements(s)| == |s|
  {
    if s != [] {
      var p, x := s[..|s| - 1], s[|s| - 1];
      assert s == p + [x];
      DistinctCardinality(p);
      assert Elements(s) == Elements(p) + {x};
      assert x !in Elements(p);
    }
  }

  /**
   * Lists the elements of a set in some order, as iterating a `HashSet` or
   * the key set of a `HashMap` does; the order is unspecified.
   */
  method Enumerate<T>(s: set<T>) returns (r: seq<T>)
    ensures NoDuplicates(r)
    ensures Elements(r) == s
    ensures |r| == |s|
  {
    r := [];
    var rest := s;
    while rest != {}
      invariant rest <= s
      invariant NoDuplicates(r)
      invariant Elements(r) == s - rest
      decreases rest
    {
      var x :| x in rest;
      assert Elements(r + [x]) == Elements(r) + {x};
      r := r + [x];
      rest := rest - {x};
    }
    DistinctCardinality(r);
  }

  /**
   * Lists the values of a map in some order, as `new ArrayList<>(map.values())`
   * does; `keys` says which key each value was stored under.
   */
  method MapValues<K, V>(m: map<K, V>) returns (r: seq<V>, ghost keys: seq<K>)
    ensures |r| == |keys| == |m.Keys|
    ensures NoDuplicates(keys) && Elements(keys) == m.Keys
    ensures forall i :: 0 <= i < |r| ==> keys[i] in m && r[i] == m[keys[i]]
  {
    var ks := Enumerate(m.Keys);
    forall i | 0 <= i < |ks| ensures ks[i] in m {
      assert ks[i] in Elements(ks);
    }
    r := seq(|ks|, i requires 0 <= i < |ks| => m[ks[i]]);
    keys := ks;
  }
}
