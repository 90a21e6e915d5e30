/**
 * Order-preserving filtering of sequences, the `Array.prototype.filter`
 * that the aggregation query applies to the flattened population.
 */
module Seqs {

  /**
   * The elements of `s` that satisfy `p`, in their order in `s`: never longer
   * than `s`; which elements it keeps is `FilterMembers`, that it keeps their
   * order is `FilterSubseq`.
   */
  function Filter<T>(s: seq<T>, p: T -> bool): (r: seq<T>)
    ensures |r| <= |s|
  {
    if s == [] then [] else (if p(s[0]) then [s[0]] else []) + Filter(s[1..], p)
  }

  /** `a` can be obtained from `b` by deleting elements (order is kept). */
  ghost predicate Subseq<T>(a: seq<T>, b: seq<T>)
    decreases |b|
  {
    if b == [] then a == []
    else Subseq(a, b[1..]) || (a != [] && a[0] == b[0] && Subseq(a[1..], b[1..]))
  }

  /** A filter keeps exactly the elements that satisfy the predicate. */
  lemma {:induction false} FilterMembers<T>(s: seq<T>, p: T -> bool)
    ensures forall x :: x in Filter(s, p) <==> x in s && p(x)
  {
    if s != [] {
      FilterMembers(s[1..], p);
      assert s == [s[0]] + s[1..];
    }
  }

  /** A filter preserves the relative order of the elements it keeps. */
  lemma {:induction false} FilterSubseq<T>(s: seq<T>, p: T -> bool)
    ensures Subseq(Filter(s, p), s)
  {
    if s != [] {
      FilterSubseq(s[1..], p);
      var r := Filter(s, p);
      if p(s[0]) {
        assert r[0] == s[0] && r[1..] == Filter(s[1..], p);
      } else {
        assert r == Filter(s[1..], p);
      }
    }
  }

  /** Filtering distributes over concatenation. */
  lemma {:induction false} FilterConcat<T>(a: seq<T>, b: seq<T>, p: T -> bool)
    ensures Filter(a + b, p) == Filter(a, p) + Filter(b, p)
  {
    if a == [] {
      assert a + b == b;
    } else {
      var x, t := a[0], a[1..];
      FilterConcat(t, b, p);
      assert a == [x] + t && a + b == [x] + (t + b);
      FilterCons(x, t, p);
      FilterCons(x, t + b, p);
      Assoc(if p(x) then [x] else [], Filter(t, p), Filter(b, p));
    }
  }

  /** Filtering a sequence with a known first element. */
  lemma FilterCons<T>(x: T, t: seq<T>, p: T -> bool)
    ensures Filter([x] + t, p) == (if p(x) then [x] else []) + Filter(t, p)
  {
    assert ([x] + t)[0] == x && ([x] + t)[1..] == t;
  }

  /** Concatenation is associative. */
  lemma Assoc<T>(a: seq<T>, b: seq<T>, c: seq<T>)
    ensures a + (b + c) == (a + b) + c
  {
  }

  /** Appending one element appends it to the filter exactly when it satisfies the predicate. */
  lemma FilterSnoc<T>(s: seq<T>, x: T, p: T -> bool)
    ensures Filter(s + [x], p) == Filter(s, p) + (if p(x) then [x] else [])
  {
    FilterConcat(s, [x], p);
    assert Filter([x], p) == (if p(x) then [x] else []) + Filter([x][1..], p);
  }

  /**
   * A predicate and its negation split `s` into two parts that together hold
   * every element of `s` exactly as often as `s` does.
   */
  lemma {:induction false} FilterSplit<T>(s: seq<T>, p: T -> bool, q: T -> bool)
    requires forall x :: x in s ==> (q(x) <==> !p(x))
    ensures multiset(Filter(s, p)) + multiset(Filter(s, q)) == multiset(s)
    ensures |Filter(s, p)| + |Filter(s, q)| == |s|
  {
    if s != [] {
      assert forall x :: x in s[1..] ==> x in s;
      FilterSplit(s[1..], p, q);
      var hp: seq<T> := if p(s[0]) then [s[0]] else [];
      var hq: seq<T> := if q(s[0]) then [s[0]] else [];
      assert Filter(s, p) == hp + Filter(s[1..], p);
      assert Filter(s, q) == hq + Filter(s[1..], q);
      SplitStep(s[0], hp, hq, Filter(s[1..], p), Filter(s[1..], q), s[1..]);
      assert s == [s[0]] + s[1..];
    }
  }

  /** One element that goes to exactly one side, followed by a split of the rest, splits the whole. */
  lemma SplitStep<T>(x: T, hp: seq<T>, hq: seq<T>, a: seq<T>, b: seq<T>, rest: seq<T>)
    requires (hp == [x] && hq == []) || (hp == [] && hq == [x])
    requires multiset(a) + multiset(b) == multiset(rest) && |a| + |b| == |rest|
    ensures multiset(hp + a) + multiset(hq + b) == multiset([x] + rest)
    ensures |hp + a| + |hq + b| == |[x] + rest|
  {
  }
}
