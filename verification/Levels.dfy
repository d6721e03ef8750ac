/** The shape of a skip list as a sequence of heights: which node follows which
    on every level. Position 0 is the head, which takes part in all levels. */
module Levels {
  import opened Sequences

  /** The next position after `p` whose height exceeds `i`, or `|h|` at the end of level `i`. */
  function NextAt(h: seq<nat>, p: nat, i: nat): (q: nat)
    requires p < |h|
    ensures p < q <= |h|
    decreases |h| - p
  {
    if p + 1 == |h| then |h|
    else if h[p + 1] > i then p + 1
    else NextAt(h, p + 1, i)
  }

  /** The last position up to `p` whose height exceeds `i`. */
  function PrevAt(h: seq<nat>, p: nat, i: nat): (q: nat)
    requires p < |h|
    ensures q <= p
  {
    if p == 0 || h[p] > i then p else PrevAt(h, p - 1, i)
  }

  ghost predicate IsNext(h: seq<nat>, p: nat, i: nat, q: nat) {
    && p < q <= |h|
    && (q < |h| ==> h[q] > i)
    && forall r :: p < r < q ==> h[r] <= i
  }

  ghost predicate IsPrev(h: seq<nat>, p: nat, i: nat, q: nat) {
    && q <= p < |h|
    && h[q] > i
    && forall r :: q < r <= p ==> h[r] <= i
  }

  lemma {:induction false} NextIs(h: seq<nat>, p: nat, i: nat)
    requires p < |h|
    ensures IsNext(h, p, i, NextAt(h, p, i))
    decreases |h| - p
  {
    if p + 1 < |h| && h[p + 1] <= i {
      NextIs(h, p + 1, i);
    }
  }

  lemma NextUnique(h: seq<nat>, p: nat, i: nat, q: nat)
    requires IsNext(h, p, i, q)
    ensures NextAt(h, p, i) == q
  {
    NextIs(h, p, i);
  }

  lemma {:induction false} PrevIs(h: seq<nat>, p: nat, i: nat)
    requires p < |h| && h[0] > i
    ensures IsPrev(h, p, i, PrevAt(h, p, i))
  {
    if p > 0 && h[p] <= i {
      PrevIs(h, p - 1, i);
    }
  }

  lemma PrevUnique(h: seq<nat>, p: nat, i: nat, q: nat)
    requires IsPrev(h, p, i, q) && h[0] > i
    ensures PrevAt(h, p, i) == q
  {
    PrevIs(h, p, i);
  }

  /** The node whose level-`i` link passes over the gap after `p` is the one before the gap. */
  lemma PassesOver(h: seq<nat>, p: nat, i: nat, q: nat)
    requires q <= p < |h| && h[0] > i && h[q] > i
    ensures NextAt(h, q, i) > p <==> q == PrevAt(h, p, i)
    ensures NextAt(h, p, i) == NextAt(h, PrevAt(h, p, i), i)
  {
    NextIs(h, q, i);
    NextIs(h, p, i);
    PrevIs(h, p, i);
    var r := PrevAt(h, p, i);
    NextIs(h, r, i);
    NextUnique(h, r, i, NextAt(h, p, i));
    if NextAt(h, q, i) > p {
      PrevUnique(h, p, i, q);
    }
  }

  function Inserted<T>(s: seq<T>, p: nat, x: T): (r: seq<T>)
    requires p < |s|
    ensures |r| == |s| + 1
    ensures r[p + 1] == x
    ensures forall q :: 0 <= q <= p ==> r[q] == s[q]
    ensures forall q :: p < q < |s| ==> r[q + 1] == s[q]
  {
    PutIn(s, p + 1, x)
  }

  lemma InsertedAt<T>(s: seq<T>, p: nat, x: T, q': nat)
    requires p < |s| && q' <= |s|
    ensures Inserted(s, p, x)[q'] == if q' == p + 1 then x else s[if q' > p then q' - 1 else q']
  {
  }

  lemma InsertedFront<T>(s: seq<T>, p: nat, x: T)
    requires p < |s|
    ensures p == |s| - 1 ==> Inserted(s, p, x) == s + [x]
    ensures p < |s| - 1 ==> Inserted(s, p, x) == Inserted(s[..|s| - 1], p, x) + [s[|s| - 1]]
  {
  }

  /** Where a position of the old list is after an insertion behind `p`. */
  function Shift(q: nat, p: nat): nat { if q > p then q + 1 else q }

  /** A node of height `level` placed behind `p` cuts exactly the links that pass over the gap
      below its height. */
  lemma NextAfterInsert(h: seq<nat>, p: nat, level: nat, q: nat, i: nat)
    requires p < |h| && q < |h| && h[0] > i && h[q] > i
    ensures NextAt(Inserted(h, p, level), Shift(q, p), i) ==
            if i < level && q == PrevAt(h, p, i) then p + 1 else Shift(NextAt(h, q, i), p)
  {
    hide Inserted, NextAt, PrevAt;
    var h' := Inserted(h, p, level);
    NextIs(h, q, i);
    var n := NextAt(h, q, i);
    if q <= p {
      PassesOver(h, p, i, q);
      var r := if i < level && n > p then p + 1 else Shift(n, p);
      assert forall k :: q < k < r && k <= p ==> h'[k] == h[k];
      assert forall k :: p + 1 < k < r ==> h'[k] == h[k - 1];
      assert IsNext(h', q, i, r);
      NextUnique(h', q, i, r);
    } else {
      PrevAtMost(h, p, i);
      assert forall k :: q + 1 < k < n + 1 ==> h'[k] == h[k - 1];
      assert IsNext(h', q + 1, i, n + 1);
      NextUnique(h', q + 1, i, n + 1);
    }
  }

  lemma PrevAtMost(h: seq<nat>, p: nat, i: nat)
    requires p < |h|
    ensures PrevAt(h, p, i) <= p
  {
  }

  lemma NextOfInserted(h: seq<nat>, p: nat, level: nat, i: nat)
    requires p < |h| && h[0] > i
    ensures NextAt(Inserted(h, p, level), p + 1, i) == Shift(NextAt(h, PrevAt(h, p, i), i), p)
  {
    hide Inserted, NextAt, PrevAt;
    var h' := Inserted(h, p, level);
    NextIs(h, p, i);
    PrevIs(h, p, i);
    PassesOver(h, p, i, PrevAt(h, p, i));
    var n := NextAt(h, p, i);
    assert forall k :: p + 1 < k < n + 1 ==> h'[k] == h[k - 1];
    assert IsNext(h', p + 1, i, n + 1);
    NextUnique(h', p + 1, i, n + 1);
  }

  /** The position of `q` after a removal of `x`. */
  function Unshift(q: nat, x: nat): nat { if q > x then q - 1 else q }

  /** Which links lead to position `x`. */
  lemma NextIsRemoved(h: seq<nat>, x: nat, q: nat, i: nat)
    requires 0 < x < |h| && q < |h| && q != x && h[0] > i && h[q] > i
    ensures NextAt(h, q, i) == x <==> h[x] > i && q == PrevAt(h, x - 1, i)
  {
    hide NextAt, PrevAt;
    NextIs(h, q, i);
    PrevIs(h, x - 1, i);
    if q < x {
      PassesOver(h, x - 1, i, q);
      if h[x] > i && q == PrevAt(h, x - 1, i) {
        NextUnique(h, q, i, x);
      }
    }
  }

  /** Without position `x`, the links to it go where its own links went. */
  lemma NextAfterRemove(h: seq<nat>, x: nat, q: nat, i: nat)
    requires 0 < x < |h| && q < |h| && q != x && h[q] > i
    ensures var n := NextAt(h, q, i);
            NextAt(Removed(h, x), Unshift(q, x), i) == Unshift(if n == x then NextAt(h, x, i) else n, x)
  {
    hide Removed, NextAt;
    var h' := Removed(h, x);
    NextIs(h, q, i);
    NextIs(h, x, i);
    var n := NextAt(h, q, i);
    var m := if n == x then NextAt(h, x, i) else n;
    assert forall k :: 0 <= k < x ==> h'[k] == h[k];
    assert forall k :: x <= k < |h'| ==> h'[k] == h[k + 1];
    assert IsNext(h', Unshift(q, x), i, Unshift(m, x));
    NextUnique(h', Unshift(q, x), i, Unshift(m, x));
  }
}
