/** Sequences: putting an element in, taking one out, joining parts. */
module Sequences {

  function PutIn<T>(s: seq<T>, at: nat, x: T): (r: seq<T>)
    requires at <= |s|
    ensures |r| == |s| + 1
  {
    s[..at] + [x] + s[at..]
  }

  lemma PutInAt<T>(s: seq<T>, at: nat, x: T, i: nat)
    requires at <= |s| && i <= |s|
    ensures PutIn(s, at, x)[i] == if i < at then s[i] else if i == at then x else s[i - 1]
  {
  }

  function Removed<T>(s: seq<T>, x: nat): (r: seq<T>)
    requires x < |s|
    ensures |r| == |s| - 1
    ensures forall q :: 0 <= q < x ==> r[q] == s[q]
    ensures forall q :: x < q < |s| ==> r[q - 1] == s[q]
  {
    s[..x] + s[x + 1..]
  }

  lemma RemovedAt<T>(s: seq<T>, x: nat, q': nat)
    requires x < |s| && q' < |s| - 1
    ensures Removed(s, x)[q'] == s[if q' < x then q' else q' + 1]
  {
  }

  lemma RemovedFront<T>(s: seq<T>, x: nat)
    requires x < |s|
    ensures x == |s| - 1 ==> Removed(s, x) == s[..x]
    ensures x < |s| - 1 ==> Removed(s, x) == Removed(s[..|s| - 1], x) + [s[|s| - 1]]
  {
  }

  function Concat<T>(parts: seq<seq<T>>): seq<T> {
    if parts == [] then [] else Concat(parts[..|parts| - 1]) + parts[|parts| - 1]
  }

  lemma {:induction false} ConcatAppend<T>(a: seq<seq<T>>, b: seq<seq<T>>)
    ensures Concat(a + b) == Concat(a) + Concat(b)
  {
    if b == [] {
      assert a + b == a;
    } else {
      var front, last := b[..|b| - 1], b[|b| - 1];
      assert (a + b)[..|a + b| - 1] == a + front && (a + b)[|a + b| - 1] == last;
      assert Concat(a + b) == Concat(a + front) + last && Concat(b) == Concat(front) + last;
      hide Concat;
      ConcatAppend(a, front);
      assert Concat(a) + Concat(front) + last == Concat(a) + (Concat(front) + last);
    }
  }

  lemma ConcatOne<T>(part: seq<T>)
    ensures Concat([part]) == part && Concat<T>([]) == []
  {
    assert [part][..0] == [];
  }

  /** `a` is `b` with some elements left out. */
  predicate Inside<T(==)>(a: seq<T>, b: seq<T>)
    decreases |b|
  {
    if a == [] then true
    else if b == [] then false
    else
      || (a[|a| - 1] == b[|b| - 1] && Inside(a[..|a| - 1], b[..|b| - 1]))
      || Inside(a, b[..|b| - 1])
  }

  lemma {:induction false} InsideSize<T>(a: seq<T>, b: seq<T>)
    requires Inside(a, b)
    ensures |a| <= |b| && (|a| == |b| ==> a == b)
    decreases |b|
  {
    if a == [] {
    } else if Inside(a, b[..|b| - 1]) {
      InsideSize(a, b[..|b| - 1]);
    } else {
      InsideSize(a[..|a| - 1], b[..|b| - 1]);
    }
  }

  /** The same elements behind both. */
  lemma {:induction false} InsideBoth<T>(a: seq<T>, b: seq<T>, c: seq<T>)
    requires Inside(a, b)
    ensures Inside(a + c, b + c)
    decreases |c|
  {
    if c == [] {
      assert a + c == a && b + c == b;
    } else {
      var n := |c| - 1;
      InsideBoth(a, b, c[..n]);
      assert (a + c)[..|a + c| - 1] == a + c[..n] && (b + c)[..|b + c| - 1] == b + c[..n];
    }
  }

  /** More elements behind the longer one. */
  lemma {:induction false} InsideMore<T>(a: seq<T>, b: seq<T>, c: seq<T>)
    requires Inside(a, b)
    ensures Inside(a, b + c)
    decreases |c|
  {
    if c == [] {
      assert b + c == b;
    } else {
      var n := |c| - 1;
      InsideMore(a, b, c[..n]);
      assert (b + c)[..|b + c| - 1] == b + c[..n];
    }
  }

  function Sum(ns: seq<nat>): nat {
    if ns == [] then 0 else Sum(ns[..|ns| - 1]) + ns[|ns| - 1]
  }

  lemma {:induction false} SumAppend(a: seq<nat>, b: seq<nat>)
    ensures Sum(a + b) == Sum(a) + Sum(b)
  {
    if b == [] {
      assert a + b == a;
    } else {
      var n := |b| - 1;
      SumAppend(a, b[..n]);
      assert (a + b)[..|a + b| - 1] == a + b[..n];
    }
  }
}
