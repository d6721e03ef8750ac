/** The skip list of `ds/kv_skiplist.h`: heap nodes with a `next` array each, a
    descent that records its predecessors level by level, splicing, unlinking and
    a floating current level.  Keys are integers; values are of any type. */
module SkipList {
  import opened Levels
  import opened Sequences
  import opened Wrappers

  class Node<V> {
    const key: int
    const val: V
    const level: nat
    const next: array<Node?<V>>

    constructor (key: int, val: V, level: nat)
      ensures this.key == key && this.val == val && this.level == level
      ensures fresh(next) && next[..] == Nulls(level + 1)
    {
      this.key, this.val, this.level := key, val, level;
      next := new Node?<V>[level + 1](_ => null);
    }
  }

  function Nulls<V>(n: nat): (s: seq<Node?<V>>)
    ensures |s| == n
    ensures forall i :: 0 <= i < n ==> s[i] == null
  {
    seq(n, i => null)
  }

  // ------------------------------------------------------- the list as values

  /** The node at a position, or null behind the last one. */
  function At<V>(chain: seq<Node<V>>, p: nat): Node?<V> {
    if p < |chain| then chain[p] else null
  }

  /** Every link on every level leads to the next node that is tall enough. */
  ghost predicate Linked<V>(chain: seq<Node<V>>, h: seq<nat>, links: seq<seq<Node?<V>>>) {
    && |chain| == |h| == |links|
    && forall p, i :: 0 <= p < |h| && 0 <= i < h[p] ==> LinkedAt(chain, h, links, p, i)
  }

  ghost predicate LinkedAt<V>(chain: seq<Node<V>>, h: seq<nat>, links: seq<seq<Node?<V>>>, p: nat, i: nat)
    requires p < |h| == |links|
  {
    i < |links[p]| && links[p][i] == At(chain, NextAt(h, p, i))
  }

  ghost predicate Sorted<V>(chain: seq<Node<V>>) {
    forall p, q :: 1 <= p < q < |chain| ==> chain[p].key < chain[q].key
  }

  /** The key-value pairs behind the head. */
  ghost function MapOf<V>(chain: seq<Node<V>>): map<int, V> {
    if |chain| <= 1 then map[]
    else MapOf(chain[..|chain| - 1])[chain[|chain| - 1].key := chain[|chain| - 1].val]
  }

  /** A plain scan of the bottom level: the last position whose key is below `key`. */
  function Rank<V>(chain: seq<Node<V>>, key: int): (p: nat)
    ensures |chain| > 0 ==> p < |chain|
    ensures p > 0 ==> p < |chain| && chain[p].key < key
  {
    if |chain| <= 1 then 0
    else if chain[|chain| - 1].key < key then |chain| - 1
    else Rank(chain[..|chain| - 1], key)
  }

  lemma {:induction false} RankSplits<V>(chain: seq<Node<V>>, key: int)
    requires |chain| > 0 && Sorted(chain)
    ensures forall q :: 1 <= q <= Rank(chain, key) ==> chain[q].key < key
    ensures forall q :: Rank(chain, key) < q < |chain| ==> chain[q].key >= key
  {
    if |chain| > 1 && chain[|chain| - 1].key >= key {
      RankSplits(chain[..|chain| - 1], key);
    }
  }

  lemma {:induction false} KeysAtMost<V>(chain: seq<Node<V>>)
    requires Sorted(chain)
    ensures forall k :: k in MapOf(chain) ==> |chain| > 1 && k <= chain[|chain| - 1].key
    ensures |chain| > 0 ==> |MapOf(chain)| == |chain| - 1
  {
    if |chain| <= 1 {
    } else {
      KeysAtMost(chain[..|chain| - 1]);
    }
  }

  lemma RankOfKey<V>(chain: seq<Node<V>>, p: nat)
    requires 1 <= p < |chain| && Sorted(chain)
    ensures Rank(chain, chain[p].key) == p - 1
  {
    RankSplits(chain, chain[p].key);
  }

  lemma {:induction false} KeyAt<V>(chain: seq<Node<V>>, p: nat)
    requires 1 <= p < |chain|
    ensures chain[p].key in MapOf(chain)
  {
    if p == |chain| - 1 {
    } else {
      KeyAt(chain[..|chain| - 1], p);
    }
  }

  lemma OnlyHead<V>(chain: seq<Node<V>>)
    ensures |chain| <= 1 ==> MapOf(chain) == map[]
  {
  }

  /** Whether a key is present shows right behind its rank. */
  lemma {:induction false} PresentAtRank<V>(chain: seq<Node<V>>, key: int)
    requires |chain| > 0 && Sorted(chain)
    ensures var n := At(chain, Rank(chain, key) + 1);
            && (key in MapOf(chain) <==> n != null && n.key == key)
            && (key in MapOf(chain) ==> n.val == MapOf(chain)[key])
  {
    KeysAtMost(chain);
    var n := |chain| - 1;
    if n > 0 && chain[n].key >= key {
      PresentAtRank(chain[..n], key);
    }
  }

  lemma MapOfAppend<V>(chain: seq<Node<V>>, node: Node<V>)
    requires |chain| > 0
    ensures MapOf(chain + [node]) == MapOf(chain)[node.key := node.val]
  {
    assert (chain + [node])[..|chain|] == chain;
  }

  lemma {:induction false} InsertedContents<V>(chain: seq<Node<V>>, node: Node<V>)
    requires |chain| > 0 && node.key !in MapOf(chain)
    ensures MapOf(Inserted(chain, Rank(chain, node.key), node)) == MapOf(chain)[node.key := node.val]
  {
    hide Inserted;
    var n := |chain| - 1;
    var p := Rank(chain, node.key);
    InsertedFront(chain, p, node);
    if p == n {
      MapOfAppend(chain, node);
    } else {
      var front := chain[..n];
      InsertedContents(front, node);
      MapOfAppend(Inserted(front, p, node), chain[n]);
    }
  }

  lemma FirstNotBelow<V>(chain: seq<Node<V>>, key: int)
    requires |chain| > 0 && Sorted(chain) && key !in MapOf(chain)
    ensures forall q :: Rank(chain, key) < q < |chain| ==> chain[q].key > key
  {
    RankSplits(chain, key);
    PresentAtRank(chain, key);
  }

  lemma SortedInserted<V>(chain: seq<Node<V>>, p: nat, node: Node<V>)
    requires p < |chain| && Sorted(chain)
    requires forall q :: 1 <= q <= p ==> chain[q].key < node.key
    requires forall q :: p < q < |chain| ==> chain[q].key > node.key
    ensures Sorted(Inserted(chain, p, node))
  {
    hide Inserted;
    var chain' := Inserted(chain, p, node);
    forall a, b | 1 <= a < b < |chain'| ensures chain'[a].key < chain'[b].key {
      assert a <= p ==> chain'[a] == chain[a];
      assert b <= p ==> chain'[b] == chain[b];
      assert a > p + 1 ==> chain'[a] == chain[a - 1];
      assert b > p + 1 ==> chain'[b] == chain[b - 1];
    }
  }

  lemma SortedRemoved<V>(chain: seq<Node<V>>, x: nat)
    requires 0 < x < |chain| && Sorted(chain)
    ensures Sorted(Removed(chain, x))
  {
  }

  lemma SortedFront<V>(chain: seq<Node<V>>)
    requires |chain| > 0 && Sorted(chain)
    ensures Sorted(chain[..|chain| - 1])
    ensures forall p :: 1 <= p < |chain| - 1 ==> chain[p].key < chain[|chain| - 1].key
  {
  }

  lemma {:induction false} RemovedContents<V>(chain: seq<Node<V>>, x: nat)
    requires 0 < x < |chain| && Sorted(chain)
    ensures MapOf(Removed(chain, x)) == MapOf(chain) - {chain[x].key}
  {
    hide Removed, Sorted;
    var n := |chain| - 1;
    var front := chain[..n];
    SortedFront(chain);
    RemovedFront(chain, x);
    KeysAtMost(front);
    if x == n {
    } else {
      RemovedContents(front, x);
      MapOfAppend(Removed(front, x), chain[n]);
      assert chain[x] == front[x];
    }
  }

  /** Below height `level`, on each level `i`, the link that passes over the gap behind `p` has
      been replaced by `target(i)`; all other links are as they were. */
  ghost predicate Redirected<V>(h: seq<nat>, links: seq<seq<Node?<V>>>, links': seq<seq<Node?<V>>>,
                                p: nat, level: nat, targets: seq<Node?<V>>)
    requires p < |h| && level <= |targets|
  {
    && |links'| == |links| == |h|
    && forall q, i :: 0 <= q < |h| && 0 <= i < h[q] ==> RedirectedAt(h, links, links', p, level, targets, q, i)
  }

  ghost predicate RedirectedAt<V>(h: seq<nat>, links: seq<seq<Node?<V>>>, links': seq<seq<Node?<V>>>,
                                  p: nat, level: nat, targets: seq<Node?<V>>, q: nat, i: nat)
    requires p < |h| && level <= |targets| && q < |links'| == |links|
  {
    && i < |links[q]| && i < |links'[q]|
    && links'[q][i] == if i < level && q == PrevAt(h, p, i) then targets[i] else links[q][i]
  }

  lemma LinkedThere<V>(chain: seq<Node<V>>, h: seq<nat>, links: seq<seq<Node?<V>>>, p: nat, i: nat)
    requires Linked(chain, h, links) && p < |h| && i < h[p]
    ensures LinkedAt(chain, h, links, p, i)
  {
  }

  /** One more level redirected. */
  lemma RedirectNext<V>(h: seq<nat>, links: seq<seq<Node?<V>>>, now: seq<seq<Node?<V>>>,
                        p: nat, i: nat, targets: seq<Node?<V>>)
    requires p < |h| && i < |targets| && i < h[0]
    requires Redirected(h, links, now, p, i, targets)
    ensures var q := PrevAt(h, p, i);
            && q < |h| && i < h[q] && i < |now[q]| && i < |links[q]| && now[q][i] == links[q][i]
            && Redirected(h, links, now[q := now[q][i := targets[i]]], p, i + 1, targets)
  {
    hide PrevAt;
    PrevIs(h, p, i);
    var q := PrevAt(h, p, i);
    assert RedirectedAt(h, links, now, p, i, targets, q, i);
    var next, level := now[q := now[q][i := targets[i]]], i + 1;
    forall r, j | 0 <= r < |h| && 0 <= j < h[r] ensures RedirectedAt(h, links, next, p, level, targets, r, j) {
      assert RedirectedAt(h, links, now, p, i, targets, r, j);
    }
  }

  /** The links of the node behind the gap are none of those. */
  lemma OwnLinks<V>(h: seq<nat>, links: seq<seq<Node?<V>>>, now: seq<seq<Node?<V>>>,
                    p: nat, i: nat, targets: seq<Node?<V>>)
    requires p + 1 < |h| && i <= |targets| && i < h[p + 1] && Redirected(h, links, now, p, i, targets)
    ensures i < |now[p + 1]| && i < |links[p + 1]| && now[p + 1][i] == links[p + 1][i]
  {
    assert RedirectedAt(h, links, now, p, i, targets, p + 1, i);
  }

  lemma NothingRedirected<V>(h: seq<nat>, links: seq<seq<Node?<V>>>, p: nat, targets: seq<Node?<V>>)
    requires p < |h| == |links|
    requires forall q :: 0 <= q < |h| ==> h[q] <= |links[q]|
    ensures Redirected(h, links, links, p, 0, targets)
  {
  }

  lemma LinkAfterInsert<V>(chain: seq<Node<V>>, h: seq<nat>, p: nat, node: Node<V>, level: nat,
                           q: nat, i: nat, link: Node?<V>)
    requires |h| == |chain| && p < |h| && q < |h| && h[0] > i && h[q] > i
    requires link == if i < level && q == PrevAt(h, p, i) then node else At(chain, NextAt(h, q, i))
    ensures link == At(Inserted(chain, p, node), NextAt(Inserted(h, p, level), Shift(q, p), i))
  {
    NextAfterInsert(h, p, level, q, i);
    ShiftedAt(chain, p, node, NextAt(h, q, i));
  }

  /** Splicing below height `level` behind position `p` links the longer list. */
  lemma LinkedAfterInsert<V>(chain: seq<Node<V>>, h: seq<nat>, links: seq<seq<Node?<V>>>,
                             p: nat, node: Node<V>, level: nat,
                             own: seq<Node?<V>>, links': seq<seq<Node?<V>>>)
    requires Linked(chain, h, links) && p < |chain| && level <= |own| && level <= h[0]
    requires forall q :: 0 <= q < |h| ==> h[q] <= h[0]
    requires Redirected(h, links, links', p, level, seq(level, i => node))
    requires forall i :: 0 <= i < level ==> own[i] == At(chain, NextAt(h, PrevAt(h, p, i), i))
    ensures Linked(Inserted(chain, p, node), Inserted(h, p, level), Inserted(links', p, own))
  {
    hide Inserted, NextAt, PrevAt, At;
    var chain', h', links2 := Inserted(chain, p, node), Inserted(h, p, level), Inserted(links', p, own);
    forall q', i | 0 <= q' < |h'| && 0 <= i < h'[q']
      ensures LinkedAt(chain', h', links2, q', i)
    {
      InsertedAt(h, p, level, q');
      InsertedAt(links', p, own, q');
      if q' == p + 1 {
        NextOfInserted(h, p, level, i);
        ShiftedAt(chain, p, node, NextAt(h, PrevAt(h, p, i), i));
      } else {
        var q := if q' > p then q' - 1 else q';
        assert LinkedAt(chain, h, links, q, i);
        assert RedirectedAt(h, links, links', p, level, seq(level, i => node), q, i);
        LinkAfterInsert(chain, h, p, node, level, q, i, links'[q][i]);
      }
    }
  }

  lemma ShiftedAt<V>(chain: seq<Node<V>>, p: nat, node: Node<V>, q: nat)
    requires p < |chain|
    ensures At(Inserted(chain, p, node), Shift(q, p)) == At(chain, q)
  {
  }

  lemma LinkAfterRemove<V>(chain: seq<Node<V>>, h: seq<nat>, x: nat, q: nat, i: nat, link: Node?<V>)
    requires |h| == |chain| && 0 < x < |h| && q < |h| && q != x && h[0] > i && h[q] > i
    requires link == if i < h[x] && q == PrevAt(h, x - 1, i) then At(chain, NextAt(h, x, i))
                     else At(chain, NextAt(h, q, i))
    ensures link == At(Removed(chain, x), NextAt(Removed(h, x), Unshift(q, x), i))
  {
    NextIsRemoved(h, x, q, i);
    NextAfterRemove(h, x, q, i);
    UnshiftedAt(chain, x, NextAt(h, q, i));
    UnshiftedAt(chain, x, NextAt(h, x, i));
    NextIs(h, x, i);
  }

  /** Links to position `x` redirected to where `x` led: the shorter list. */
  lemma LinkedAfterRemove<V>(chain: seq<Node<V>>, h: seq<nat>, links: seq<seq<Node?<V>>>,
                             x: nat, links': seq<seq<Node?<V>>>)
    requires Linked(chain, h, links) && 0 < x < |chain| && h[x] <= |links[x]|
    requires forall q :: 0 <= q < |h| ==> h[q] <= h[0]
    requires Redirected(h, links, links', x - 1, h[x], links[x])
    ensures Linked(Removed(chain, x), Removed(h, x), Removed(links', x))
  {
    hide Removed, NextAt, PrevAt, At;
    var chain', h', links2 := Removed(chain, x), Removed(h, x), Removed(links', x);
    forall q', i | 0 <= q' < |h'| && 0 <= i < h'[q']
      ensures LinkedAt(chain', h', links2, q', i)
    {
      var q := if q' < x then q' else q' + 1;
      RemovedAt(h, x, q');
      RemovedAt(links', x, q');
      assert LinkedAt(chain, h, links, q, i);
      assert RedirectedAt(h, links, links', x - 1, h[x], links[x], q, i);
      if i < h[x] {
        assert LinkedAt(chain, h, links, x, i);
      }
      LinkAfterRemove(chain, h, x, q, i, links'[q][i]);
    }
  }

  lemma UnshiftedAt<V>(chain: seq<Node<V>>, x: nat, q: nat)
    requires x < |chain|
    ensures q != x ==> At(Removed(chain, x), Unshift(q, x)) == At(chain, q)
  {
  }

  function Max(a: nat, b: nat): nat { if a < b then b else a }

  /** Heights and `next` arrays of the nodes: in bounds, and not shared. */
  ghost predicate WellShaped<V>(chain: seq<Node<V>>, h: seq<nat>, maxLevel: nat, Repr: set<object>) {
    && |h| == |chain| > 0 && chain[0].level == maxLevel && h[0] == maxLevel + 1
    && (forall p :: 1 <= p < |chain| ==> h[p] == chain[p].level && 1 <= h[p] <= maxLevel)
    && (forall p :: 0 <= p < |chain| ==> chain[p].next in Repr && chain[p].next.Length == chain[p].level + 1)
    && (forall p, q :: 0 <= p < q < |chain| ==> chain[p] != chain[q] && chain[p].next != chain[q].next)
  }

  lemma ShapeInserted<V>(chain: seq<Node<V>>, h: seq<nat>, maxLevel: nat, Repr: set<object>, p: nat, node: Node<V>)
    requires WellShaped(chain, h, maxLevel, Repr) && p < |chain|
    requires node !in chain && node.next !in Repr && 1 <= node.level <= maxLevel
    requires node.next.Length == node.level + 1
    ensures WellShaped(Inserted(chain, p, node), Inserted(h, p, node.level), maxLevel, Repr + {node.next})
  {
    hide Inserted;
    var chain', h' := Inserted(chain, p, node), Inserted(h, p, node.level);
    forall q | 0 <= q < |chain'|
      ensures q != p + 1 ==> chain'[q] == chain[if q > p then q - 1 else q] && h'[q] == h[if q > p then q - 1 else q]
    {
      InsertedAt(chain, p, node, q);
      InsertedAt(h, p, node.level, q);
    }
  }

  lemma ShapeRemoved<V>(chain: seq<Node<V>>, h: seq<nat>, maxLevel: nat, Repr: set<object>, x: nat)
    requires WellShaped(chain, h, maxLevel, Repr) && 0 < x < |chain|
    ensures WellShaped(Removed(chain, x), Removed(h, x), maxLevel, Repr)
  {
    hide Removed;
    var chain', h' := Removed(chain, x), Removed(h, x);
    forall q | 0 <= q < |chain'|
      ensures chain'[q] == chain[if q < x then q else q + 1] && h'[q] == h[if q < x then q else q + 1]
    {
      RemovedAt(chain, x, q);
      RemovedAt(h, x, q);
    }
  }

  // ---------------------------------------------------------------- the list

  class SkipList<V(0)> {
    const maxLevel: nat
    var curLevel: nat
    var head: Node<V>
    var counts: int

    ghost var chain: seq<Node<V>>          // the head, then the nodes in key order
    ghost var heights: seq<nat>            // on how many levels each takes part
    ghost var links: seq<seq<Node?<V>>>    // what each `next` array holds
    ghost var freed: set<Node<V>>          // the nodes that `delete` was applied to
    ghost var Repr: set<object>            // the `next` arrays

    ghost predicate Shape()
      reads this`chain, this`heights, this`links, this`head, this`Repr
    {
      |links| == |heights| == |chain| > 0 && head == chain[0] && WellShaped(chain, heights, maxLevel, Repr)
    }

    ghost predicate Mirrors()
      requires Shape()
      reads this`chain, this`heights, this`links, this`head, this`Repr, Repr
    {
      forall p :: 0 <= p < |chain| ==> links[p] == chain[p].next[..]
    }

    /** No node is linked at or above level `top`. */
    ghost predicate EmptyFrom(top: nat)
      reads this`heights
    {
      forall p :: 1 <= p < |heights| ==> heights[p] <= top
    }

    ghost predicate Valid()
      reads this, Repr
    {
      && this !in Repr && Shape() && Mirrors()
      && Linked(chain, heights, links) && Sorted(chain)
      && curLevel <= maxLevel && EmptyFrom(curLevel + 1)
      && counts == |chain| - 1
      && forall p :: 0 <= p < |chain| ==> chain[p] !in freed
    }

    ghost function Contents(): map<int, V>
      reads this`chain
    {
      MapOf(chain)
    }

    constructor (maxLevel: nat)
      ensures Valid() && fresh(Repr) && this.maxLevel == maxLevel
      ensures Contents() == map[] && counts == 0 && curLevel == 0 && freed == {} && EmptyFrom(curLevel)
    {
      var key: int := *;     // the head's key is never read
      var val: V := *;
      var node := new Node<V>(key, val, maxLevel);
      this.maxLevel := maxLevel;
      curLevel, counts, head := 0, 0, node;
      chain, heights, links, freed := [node], [maxLevel + 1], [Nulls(maxLevel + 1)], {};
      Repr := {node.next};
    }

    lemma FollowLink(p: nat, i: nat)
      requires Shape() && Mirrors() && Linked(chain, heights, links) && p < |chain| && i < heights[p]
      ensures i < chain[p].next.Length && chain[p].next[i] == At(chain, NextAt(heights, p, i))
      ensures NextAt(heights, p, i) < |heights| ==> heights[NextAt(heights, p, i)] > i
    {
      assert LinkedAt(chain, heights, links, p, i);
      NextIs(heights, p, i);
    }

    /** The bottom level links every node to the one behind it. */
    lemma Bottom(p: nat)
      requires Shape() && Mirrors() && Linked(chain, heights, links) && p < |chain|
      ensures chain[p].next.Length > 0 && chain[p].next[0] == At(chain, p + 1)
    {
      FollowLink(p, 0);
    }

    /** A node whose level-`i` link passes over the rank is the predecessor on that level. */
    lemma Arrived(p: nat, rank: nat, i: nat)
      requires Shape() && p <= rank < |chain| && i <= maxLevel && i < heights[p]
      requires NextAt(heights, p, i) > rank
      ensures p == PrevAt(heights, rank, i) && (i == 0 ==> p == rank)
    {
      PassesOver(heights, rank, i, p);
      PrevIs(heights, rank, i);
    }

    /** The inner loop of the descent: along level `i` up to the last key below `key`. */
    method Walk(start: Node<V>, i: nat, key: int, ghost p: nat) returns (current: Node<V>, ghost q: nat)
      requires Valid() && i <= maxLevel
      requires p <= Rank(chain, key) && start == chain[p] && i < heights[p]
      ensures q <= Rank(chain, key) && current == chain[q] && i < heights[q]
      ensures q == PrevAt(heights, Rank(chain, key), i) && (i == 0 ==> q == Rank(chain, key))
    {
      hide NextAt, PrevAt, Linked, Sorted, Rank;
      current := start;
      q := p;
      ghost var rank := Rank(chain, key);
      RankSplits(chain, key);
      FollowLink(q, i);
      while current.next[i] != null && current.next[i].key < key
        invariant q <= rank && current == chain[q] && i < heights[q]
        invariant i < current.next.Length && current.next[i] == At(chain, NextAt(heights, q, i))
        decreases |chain| - q
      {
        FollowLink(q, i);
        current := current.next[i];
        q := NextAt(heights, q, i);
        FollowLink(q, i);
      }
      Arrived(q, rank, i);
    }

    /** From the top level down: on every level, the last node with a key below `key`. */
    method Descend(key: int) returns (current: Node<V>, update: array<Node?<V>>)
      requires Valid()
      ensures current == chain[Rank(chain, key)]
      ensures fresh(update) && update.Length == maxLevel + 1
      ensures forall i :: 0 <= i <= curLevel ==> update[i] == chain[PrevAt(heights, Rank(chain, key), i)]
    {
      hide NextAt, PrevAt, Linked, Sorted, Rank, Mirrors;
      update := new Node?<V>[maxLevel + 1](_ => null);
      current := head;
      ghost var p: nat := 0;
      var i := curLevel;
      while i >= 0
        invariant -1 <= i <= curLevel
        invariant p <= Rank(chain, key) && current == chain[p] && heights[p] > i
        invariant i == -1 ==> p == Rank(chain, key)
        invariant forall j :: i < j <= curLevel ==> update[j] == chain[PrevAt(heights, Rank(chain, key), j)]
      {
        current, p := Walk(current, i, key, p);
        update[i] := current;
        i := i - 1;
      }
    }

    /** The node of a key, or null. */
    method Find(key: int) returns (node: Node?<V>)
      requires Valid()
      ensures node != null <==> key in Contents()
      ensures node != null ==> node in chain && node.key == key && node.val == Contents()[key]
    {
      var pre := FindPre(key);
      Bottom(Rank(chain, key));
      PresentAtRank(chain, key);
      node := pre.next[0];
      if node != null && node.key == key {
        return node;
      }
      return null;
    }

    /** The predecessor that the descent finds is the one a scan of the bottom level finds,
        whatever the heights of the nodes. */
    method FindPre(key: int) returns (pre: Node<V>)
      requires Valid()
      ensures pre == chain[Rank(chain, key)]
    {
      var update;
      pre, update := Descend(key);
    }

    function RandomLevel(heads: nat): nat { if heads + 1 < maxLevel then heads + 1 else maxLevel }

    /** `getRandomLevel`, given how often its coin came up heads. */
    method GetRandomLevel(heads: nat) returns (k: nat)
      ensures 1 <= maxLevel ==> 1 <= k <= maxLevel
      ensures k <= heads + 1 && (k == heads + 1 || k == maxLevel) && k <= maxLevel
      ensures k == RandomLevel(heads)
    {
      k := 1;
      var flips := 0;
      while flips < heads
        invariant flips <= heads && k == flips + 1
      {
        flips := flips + 1;
        k := k + 1;
      }
      k := if k < maxLevel then k else maxLevel;
    }

    method SetNext(node: Node<V>, i: nat, target: Node?<V>, ghost q: nat)
      requires Shape() && Mirrors() && q < |chain| && chain[q] == node && i < node.next.Length
      modifies node.next, this`links
      ensures Shape() && Mirrors() && links == old(links)[q := old(links)[q][i := target]]
    {
      node.next[i] := target;
      links := links[q := links[q][i := target]];
      assert forall p :: 0 <= p < |chain| && p != q ==> chain[p].next[..] == old(chain[p].next[..]);
    }

    /** The splice loop: on every level of the new node, between the recorded predecessor and
        that one's successor. */
    method Splice(node: Node<V>, update: array<Node?<V>>, level: nat, ghost p: nat)
      requires Valid() && p < |chain| && level <= maxLevel
      requires node.level == level && node.next[..] == Nulls(level + 1)
      requires node.next !in Repr && update !in Repr && node.next != update && this !in {node.next as object, update}
      requires update.Length == maxLevel + 1
      requires forall i :: 0 <= i < level ==> update[i] == chain[PrevAt(heights, p, i)]
      modifies this`links, Repr, node.next
      ensures Shape() && Mirrors()
      ensures Redirected(heights, old(links), links, p, level, seq(level, i => node))
      ensures level == 0 ==> links == old(links)
      ensures forall i :: 0 <= i < level ==> node.next[i] == At(chain, NextAt(heights, PrevAt(heights, p, i), i))
    {
      hide NextAt, PrevAt, Linked, Redirected, Sorted;
      var i := 0;
      ghost var before, targets := links, seq(level, i => node);
      NothingRedirected(heights, links, p, targets);
      while i < level
        invariant i <= level && Shape() && Mirrors() && (i == 0 ==> links == before)
        invariant Redirected(heights, before, links, p, i, targets)
        invariant forall j :: 0 <= j < i ==> node.next[j] == At(chain, NextAt(heights, PrevAt(heights, p, j), j))
      {
        ghost var q := PrevAt(heights, p, i);
        RedirectNext(heights, before, links, p, i, targets);
        LinkedThere(chain, heights, before, q, i);
        node.next[i] := update[i].next[i];
        SetNext(update[i], i, node, q);
        i := i + 1;
      }
    }

    lemma HeightsBounded()
      requires Shape()
      ensures heights[0] == maxLevel + 1 == head.next.Length
      ensures forall q :: 1 <= q < |heights| ==> heights[q] == chain[q].level
      ensures forall q :: 0 <= q < |heights| ==> heights[q] <= heights[0]
      ensures forall q :: 0 <= q < |heights| ==> heights[q] <= |chain[q].next[..]|
      ensures forall q :: 1 <= q < |heights| ==> heights[q] >= 1
    {
    }

    /** Above the tallest node, the predecessor is the head. */
    lemma HeadAbove(p: nat, i: nat)
      requires Shape() && EmptyFrom(i) && p < |chain| && i <= maxLevel
      ensures PrevAt(heights, p, i) == 0
    {
      PrevIs(heights, p, i);
    }

    /** The chain has become `before` and a node of height `level` at the place of its key; the
        nodes of `before` are still the same ones. */
    ghost predicate OneMore(before: seq<Node<V>>, node: Node<V>, key: int, level: nat)
      reads this`chain
    {
      |before| > 0 && node.key == key && node.level == level && chain == Inserted(before, Rank(before, key), node)
    }

    /** Returns 1, and changes nothing, if the key is present; otherwise inserts and returns 0.
        `heads` is the outcome of the coin flips.  In a list of maximum level 0, which is always
        empty, the new node is linked nowhere but counted. */
    method Insert(key: int, val: V, heads: nat) returns (status: int)
      requires Valid()
      modifies this, Repr
      ensures status == if key in old(Contents()) then 1 else 0
      ensures 1 <= maxLevel ==>
                && Valid() && fresh(Repr - old(Repr)) && freed == old(freed)
                && Contents() == if key in old(Contents()) then old(Contents()) else old(Contents())[key := val]
      ensures 1 <= maxLevel && status == 0 ==>
                && curLevel == Max(old(curLevel), RandomLevel(heads))
                && exists node :: fresh(node) && OneMore(old(chain), node, key, RandomLevel(heads))
      ensures status == 1 ==> chain == old(chain) && curLevel == old(curLevel)
      ensures old(EmptyFrom(curLevel)) ==> EmptyFrom(curLevel)
      ensures maxLevel == 0 ==> status == 0 && counts == 1 && forall c: seq<Node<V>> :: !Usable(c)
    {
      hide NextAt, PrevAt, Linked, Redirected, Rank, MapOf;
      var current, update := Descend(key);
      ghost var p := Rank(chain, key);
      Bottom(p);
      PresentAtRank(chain, key);
      NoRoom();
      var next := current.next[0];
      if next != null && next.key == key {
        return 1;
      }
      InsertNew(key, val, heads, update, p);
      return 0;
    }

    /** The second half of `insert`: the key is absent and its predecessors are known. */
    method InsertNew(key: int, val: V, heads: nat, update: array<Node?<V>>, ghost p: nat)
      requires Valid() && key !in Contents() && p == Rank(chain, key)
      requires update !in Repr && update.Length == maxLevel + 1
      requires forall i :: 0 <= i <= curLevel ==> update[i] == chain[PrevAt(heights, p, i)]
      modifies this, Repr, update
      ensures 1 <= maxLevel ==>
                && Valid() && fresh(Repr - old(Repr)) && freed == old(freed)
                && Contents() == old(Contents())[key := val]
                && curLevel == Max(old(curLevel), RandomLevel(heads))
                && exists node :: fresh(node) && OneMore(old(chain), node, key, RandomLevel(heads))
      ensures old(EmptyFrom(curLevel)) ==> EmptyFrom(curLevel)
      ensures maxLevel == 0 ==> counts == 1 && forall c: seq<Node<V>> :: !Usable(c)
    {
      hide NextAt, PrevAt, Linked, Redirected, Rank, MapOf, Sorted, WellShaped, Usable;
      NoRoom();
      var randomLevel := GetRandomLevel(heads);
      if randomLevel > curLevel {
        RaiseTo(update, randomLevel, p);
      }
      LinkNew(key, val, randomLevel, update, p);
      HeightsAfterInsert(old(heights), p, randomLevel);
    }

    /** A node of a given level, at its place. */
    method LinkNew(key: int, val: V, level: nat, update: array<Node?<V>>, ghost p: nat)
      requires Valid() && key !in Contents() && p == Rank(chain, key)
      requires level <= curLevel && (level == 0 <==> maxLevel == 0)
      requires update !in Repr && update.Length == maxLevel + 1
      requires forall i :: 0 <= i < level ==> update[i] == chain[PrevAt(heights, p, i)]
      modifies this`links, this`counts, this`chain, this`heights, this`Repr, Repr
      ensures 0 < level ==>
                && Valid() && fresh(Repr - old(Repr)) && heights == Inserted(old(heights), p, level)
                && Contents() == old(Contents())[key := val]
                && exists node :: fresh(node) && OneMore(old(chain), node, key, level)
      ensures level == 0 ==>
                heights == old(heights) && counts == old(counts) + 1 && forall c: seq<Node<V>> :: !Usable(c)
    {
      hide NextAt, PrevAt, Linked, Redirected, Rank, MapOf, Sorted, WellShaped, Usable;
      var node := new Node<V>(key, val, level);
      ghost var before := links;
      Splice(node, update, level, p);
      counts := counts + 1;
      if level == 0 {
        NotCounted();
      } else {
        InsertedContents(chain, node);
        Adopt(node, p, before);
        assert OneMore(old(chain), node, key, level);
      }
    }

    /** With a maximum level of 0 there is no node but the head. */
    lemma NoRoom()
      requires Valid()
      ensures maxLevel == 0 ==> |chain| == 1 && Contents() == map[]
    {
      HeightsBounded();
      OnlyHead(chain);
      if |chain| > 1 {
        assert 1 <= heights[1] <= maxLevel;
      }
    }

    /** More nodes counted than linked. */
    lemma NotCounted()
      requires Shape() && Mirrors() && Linked(chain, heights, links) && counts != |chain| - 1
      ensures forall c: seq<Node<V>> :: !Usable(c)
    {
      hide NextAt, Linked, Usable, Path;
      ChainIsPath();
      forall c: seq<Node<V>> ensures !Usable(c) {
        NotUsable(chain, c, 0, 0);
      }
    }

    static lemma HeightsAfterInsert(h: seq<nat>, p: nat, level: nat)
      requires p < |h|
      ensures forall q :: 1 <= q <= |h| ==>
                Inserted(h, p, level)[q] == level || exists r :: 1 <= r < |h| && h[r] == Inserted(h, p, level)[q]
    {
      forall q | 1 <= q <= |h|
        ensures Inserted(h, p, level)[q] == level || exists r :: 1 <= r < |h| && h[r] == Inserted(h, p, level)[q]
      {
        InsertedAt(h, p, level, q);
        assert q != p + 1 ==> h[if q > p then q - 1 else q] == Inserted(h, p, level)[q];
      }
    }

    /** The spliced node becomes part of the chain. */
    ghost method Adopt(node: Node<V>, p: nat, before: seq<seq<Node?<V>>>)
      requires this !in Repr && Shape() && Mirrors() && Linked(chain, heights, before)
      requires Sorted(chain) && p == Rank(chain, node.key) && node.key !in MapOf(chain)
      requires node !in chain && node !in freed && node.next !in Repr && 1 <= node.level <= maxLevel
      requires node.next.Length == node.level + 1
      requires Redirected(heights, before, links, p, node.level, seq(node.level, i => node))
      requires forall i :: 0 <= i < node.level ==>
                 node.next[i] == At(chain, NextAt(heights, PrevAt(heights, p, i), i))
      requires curLevel <= maxLevel && EmptyFrom(curLevel + 1) && node.level <= curLevel + 1
      requires counts == |chain| && forall q :: 0 <= q < |chain| ==> chain[q] !in freed
      modifies this`chain, this`heights, this`links, this`Repr
      ensures Valid() && chain == Inserted(old(chain), p, node) && Repr == old(Repr) + {node.next}
      ensures heights == Inserted(old(heights), p, node.level)
    {
      hide NextAt, PrevAt, MapOf, Redirected, Rank, Linked, Sorted, WellShaped, Inserted;
      HeightsBounded();
      ShapeInserted(chain, heights, maxLevel, Repr, p, node);
      LinkedAfterInsert(chain, heights, before, p, node, node.level, node.next[..], links);
      RankSplits(chain, node.key);
      PresentAtRank(chain, node.key);
      FirstNotBelow(chain, node.key);
      SortedInserted(chain, p, node);
      ghost var chain', heights', links' :=
        Inserted(chain, p, node), Inserted(heights, p, node.level), Inserted(links, p, node.next[..]);
      forall q | 0 <= q < |chain'|
        ensures links'[q] == chain'[q].next[..] && chain'[q] !in freed && (q > 0 ==> heights'[q] <= curLevel + 1)
      {
        InsertedAt(chain, p, node, q);
        InsertedAt(heights, p, node.level, q);
        InsertedAt(links, p, node.next[..], q);
      }
      chain, heights, links, Repr := chain', heights', links', Repr + {node.next};
    }

    /** The list grows taller: above the old level the head is the predecessor. */
    method RaiseTo(update: array<Node?<V>>, level: nat, ghost p: nat)
      requires Valid() && p < |chain| && curLevel < level <= maxLevel
      requires update !in Repr && update.Length == maxLevel + 1
      requires forall i :: 0 <= i <= curLevel ==> update[i] == chain[PrevAt(heights, p, i)]
      modifies this`curLevel, update
      ensures Valid() && curLevel == level
      ensures forall i :: 0 <= i < level ==> update[i] == chain[PrevAt(heights, p, i)]
    {
      hide PrevAt, Linked, Sorted;
      var i := curLevel + 1;
      while i < level
        invariant curLevel < i <= level
        invariant forall j :: 0 <= j < i ==> update[j] == chain[PrevAt(heights, p, j)]
      {
        HeadAbove(p, i);
        update[i] := head;
        i := i + 1;
      }
      curLevel := level;
    }

    /** The unlink loop of `erase`, up to but not including level `top`: it stops at the first
        level on which the node is not linked. */
    method Unlink(update: array<Node?<V>>, node: Node<V>, top: nat, ghost p: nat)
      requires Valid() && p + 1 < |chain| && node == chain[p + 1] && top <= curLevel + 1
      requires update !in Repr && update.Length == maxLevel + 1
      requires forall i :: 0 <= i <= curLevel ==> update[i] == chain[PrevAt(heights, p, i)]
      modifies this`links, Repr
      ensures Shape() && Mirrors() && node.level <= |old(links)[p + 1]|
      ensures Redirected(heights, old(links), links, p, if node.level < top then node.level else top, old(links)[p + 1])
    {
      hide NextAt, PrevAt, Linked, Redirected, Sorted;
      HeightsBounded();
      var i := 0;
      ghost var before, targets := links, links[p + 1];
      NothingRedirected(heights, links, p, targets);
      while i < top
        invariant i <= top && i <= node.level && |targets| == node.level + 1 && Shape() && Mirrors()
        invariant Redirected(heights, before, links, p, i, targets)
      {
        ghost var q := PrevAt(heights, p, i);
        RedirectNext(heights, before, links, p, i, targets);
        LinkedThere(chain, heights, before, q, i);
        NextIsRemoved(heights, p + 1, q, i);
        if update[i].next[i] != node {
          break;
        }
        OwnLinks(heights, before, links, p, i, targets);
        SetNext(update[i], i, node.next[i], q);
        i := i + 1;
      }
    }

    /** The loop that lowers the current level past empty levels. */
    method Lower()
      requires curLevel < head.next.Length
      modifies this`curLevel
      ensures curLevel <= old(curLevel)
      ensures forall i :: curLevel < i <= old(curLevel) ==> head.next[i] == null
      ensures curLevel == 0 || head.next[curLevel] != null
    {
      while curLevel > 0 && head.next[curLevel] == null
        invariant curLevel <= old(curLevel)
        invariant forall i :: curLevel < i <= old(curLevel) ==> head.next[i] == null
      {
        curLevel := curLevel - 1;
      }
    }

    /** Everything that `Valid` says except the count and the freed nodes. */
    ghost predicate Structured()
      reads this, Repr
    {
      && this !in Repr && Shape() && Mirrors()
      && Linked(chain, heights, links) && Sorted(chain)
      && curLevel <= maxLevel && EmptyFrom(curLevel + 1)
    }

    /** A fully unlinked node leaves the chain. */
    ghost method Drop(x: nat, before: seq<seq<Node?<V>>>)
      requires this !in Repr && Shape() && Mirrors() && 0 < x < |chain|
      requires Linked(chain, heights, before) && Sorted(chain) && curLevel <= maxLevel && EmptyFrom(curLevel + 1)
      requires heights[x] <= |before[x]| && Redirected(heights, before, links, x - 1, heights[x], before[x])
      modifies this`chain, this`heights, this`links
      ensures Structured() && chain == Removed(old(chain), x) && old(chain)[x] !in chain
      ensures Contents() == old(Contents()) - {old(chain)[x].key}
    {
      hide NextAt, PrevAt, MapOf, Redirected, Linked, Sorted, Removed;
      HeightsBounded();
      LinkedAfterRemove(chain, heights, before, x, links);
      ShapeRemoved(chain, heights, maxLevel, Repr, x);
      SortedRemoved(chain, x);
      RemovedContents(chain, x);
      ghost var chain', heights', links' := Removed(chain, x), Removed(heights, x), Removed(links, x);
      forall q | 0 <= q < |chain'|
        ensures links'[q] == chain'[q].next[..] && chain'[q] != chain[x] && (q > 0 ==> heights'[q] <= curLevel + 1)
      {
        RemovedAt(chain, x, q);
        RemovedAt(heights, x, q);
        RemovedAt(links, x, q);
      }
      chain, heights, links := chain', heights', links';
    }

    /** Lowering past levels on which the head links nothing keeps the structure. */
    lemma StillStructured(top: nat)
      requires this !in Repr && Shape() && Mirrors() && Linked(chain, heights, links) && Sorted(chain)
      requires curLevel <= top <= maxLevel && EmptyFrom(top + 1)
      requires forall i :: curLevel < i <= top ==> i < head.next.Length && head.next[i] == null
      ensures Structured()
    {
      hide NextAt;
      if curLevel < top {
        var i := curLevel + 1;
        FollowLink(0, i);
        NextIs(heights, 0, i);
        assert NextAt(heights, 0, i) == |heights|;
      }
    }

    /** The chain has become `before` without the node of the key. */
    ghost predicate OneLess(before: seq<Node<V>>, key: int)
      reads this`chain
    {
      var x := Rank(before, key) + 1;
      x < |before| && before[x].key == key && chain == Removed(before, x)
    }

    /** `erase` with both repairs: an absent key changes nothing, and unlinking includes the
        current level. */
    method EraseRepaired(key: int)
      requires Valid()
      modifies this, Repr
      ensures Valid() && Repr == old(Repr)
      ensures Contents() == old(Contents()) - {key}
      ensures key !in old(Contents()) ==> chain == old(chain) && freed == old(freed) && curLevel == old(curLevel)
      ensures key in old(Contents()) ==> OneLess(old(chain), key) && TopInUse()
      ensures forall n :: n in freed <==> n in old(freed) || (n in old(chain) && n.key == key && n !in chain)
    {
      hide NextAt, PrevAt, Linked, Redirected, Rank, MapOf, Sorted, WellShaped;
      var current, update := Descend(key);
      ghost var p := Rank(chain, key);
      Bottom(p);
      PresentAtRank(chain, key);
      var node := current.next[0];
      if node == null || node.key != key {
        return;
      }
      HeightsBounded();
      EraseNode(update, node, curLevel + 1, p);
      assert OneLess(old(chain), key);
    }

    // ------------------------------------------- `erase` exactly as written

    /** The keys on which `erase` as written is right: present, and not linked on the current
        level.  A caller sees this from `find`, the node's level and `getCurLevel`. */
    ghost predicate Erasable(key: int)
      reads this`chain, this`curLevel
    {
      exists p :: 1 <= p < |chain| && chain[p].key == key && chain[p].level <= curLevel
    }

    /** `c` is what a client reaches from the head along the bottom level. */
    ghost predicate Path(c: seq<Node<V>>)
      reads this`head, set p | 0 <= p < |c| :: c[p].next
    {
      && |c| > 0 && c[0] == head
      && forall p :: 0 <= p < |c| ==> c[p].next.Length > 0 && c[p].next[0] == At(c, p + 1)
    }

    /** The least that any working skip list offers: the count is right, no freed node is reached,
        and no link on any level leads out of the list. */
    ghost predicate Usable(c: seq<Node<V>>)
      reads this, set p | 0 <= p < |c| :: c[p].next
    {
      && Path(c) && counts == |c| - 1
      && (forall p :: 0 <= p < |c| ==> c[p] !in freed)
      && forall p, i :: 0 <= p < |c| && 0 <= i < c[p].level && i < c[p].next.Length && c[p].next[i] != null ==>
           c[p].next[i] in c
    }

    lemma ChainIsPath()
      requires Shape() && Mirrors() && Linked(chain, heights, links)
      ensures Path(chain)
    {
      forall p | 0 <= p < |chain| ensures chain[p].next.Length > 0 && chain[p].next[0] == At(chain, p + 1) {
        Bottom(p);
      }
    }

    lemma ValidIsUsable()
      requires Valid()
      ensures Usable(chain)
    {
      hide NextAt, Linked, Path;
      ChainIsPath();
      HeightsBounded();
      forall p, i | 0 <= p < |chain| && 0 <= i < chain[p].level && i < chain[p].next.Length && chain[p].next[i] != null
        ensures chain[p].next[i] in chain
      {
        FollowLink(p, i);
      }
    }

    lemma {:induction false} PathUnique(c: seq<Node<V>>, d: seq<Node<V>>, n: nat)
      requires Path(c) && Path(d) && n <= |c| && n <= |d|
      ensures c[..n] == d[..n]
      ensures n > 0 ==> At(c, n) == At(d, n)
    {
      if n == 0 {
      } else {
        PathUnique(c, d, n - 1);
        assert c[n - 1] == d[n - 1] by {
          if n > 1 {
            assert At(c, n - 1) == At(d, n - 1);
          }
        }
      }
    }

    /** A freed node that the list still links to, or a wrong count, leaves no usable list. */
    lemma NotUsable(path: seq<Node<V>>, c: seq<Node<V>>, u: nat, i: nat)
      requires Path(path) && u < |path|
      requires (i < path[u].level && i < path[u].next.Length && path[u].next[i] != null && path[u].next[i] in freed)
               || counts != |path| - 1
      ensures !Usable(c)
    {
      if Usable(c) {
        var n := if |c| < |path| then |c| else |path|;
        PathUnique(c, path, n);
        assert c[..n] == path[..n];
        assert |c| == |path|;
        assert c == path by {
          assert c[..|c|] == c && path[..|path|] == path;
        }
      }
    }

    /** After an incomplete unlink of position `x`, which stopped below its height at level `top`:
        the bottom level's path, and the node on it that still links to `x`. */
    ghost function PathLeft(x: nat, top: nat): seq<Node<V>>
      requires x < |chain|
      reads this`chain
    {
      if top == 0 then chain else Removed(chain, x)
    }

    lemma PathLeftIsPath(before: seq<seq<Node?<V>>>, p: nat, top: nat)
      requires Shape() && Mirrors() && Linked(chain, heights, before)
      requires p + 1 < |chain| && top <= |before[p + 1]|
      requires Redirected(heights, before, links, p, top, before[p + 1])
      ensures Path(PathLeft(p + 1, top))
    {
      hide NextAt, PrevAt, Linked, Redirected, Removed, WellShaped;
      var path := PathLeft(p + 1, top);
      forall j | 0 <= j < |path| ensures path[j].next.Length > 0 && path[j].next[0] == At(path, j + 1) {
        if top == 0 {
          BottomAfter(before, p, top, j);
        } else {
          BottomAfter(before, p, top, if j < p + 1 then j else j + 1);
          RemovedAt(chain, p + 1, j);
          if j + 1 < |path| {
            RemovedAt(chain, p + 1, j + 1);
          }
        }
      }
      if top > 0 {
        RemovedAt(chain, p + 1, 0);
      }
    }

    lemma IncompleteUnlink(before: seq<seq<Node?<V>>>, p: nat, top: nat)
      requires Shape() && Mirrors() && Linked(chain, heights, before)
      requires p + 1 < |chain| && top < heights[p + 1] <= |before[p + 1]|
      requires Redirected(heights, before, links, p, top, before[p + 1])
      ensures var path, u := PathLeft(p + 1, top), PrevAt(heights, p, top);
              && Path(path) && u < |path|
              && top < path[u].level && top < path[u].next.Length && path[u].next[top] == chain[p + 1]
    {
      hide NextAt, PrevAt, Removed, Path;
      HeightsBounded();
      PathLeftIsPath(before, p, top);
      PrevIs(heights, p, top);
      var u := PrevAt(heights, p, top);
      NextIsRemoved(heights, p + 1, u, top);
      assert LinkedAt(chain, heights, before, u, top);
      assert RedirectedAt(heights, before, links, p, top, before[p + 1], u, top);
      if top > 0 {
        RemovedAt(chain, p + 1, u);
      }
    }

    lemma BottomAfter(before: seq<seq<Node?<V>>>, p: nat, top: nat, q: nat)
      requires Shape() && Mirrors() && Linked(chain, heights, before)
      requires p + 1 < |chain| && top <= |before[p + 1]| && q < |chain|
      requires Redirected(heights, before, links, p, top, before[p + 1])
      ensures chain[q].next.Length > 0
      ensures q != p + 1 || top == 0 ==>
                chain[q].next[0] == At(chain, if top > 0 && q == p then p + 2 else q + 1)
    {
      assert LinkedAt(chain, heights, before, q, 0);
      assert LinkedAt(chain, heights, before, p + 1, 0);
      assert RedirectedAt(heights, before, links, p, top, before[p + 1], q, 0);
    }

    /** The current level is as low as it can be. */
    ghost predicate TopInUse()
      reads this`curLevel, this`heights
    {
      curLevel == 0 || !EmptyFrom(curLevel)
    }

    /** `erase` of a node that is present, with `i < top` as the guard of the unlink loop. */
    method EraseNode(update: array<Node?<V>>, node: Node<V>, top: nat, ghost p: nat)
      requires Valid() && p + 1 < |chain| && node == chain[p + 1] && top <= curLevel + 1
      requires update !in Repr && update.Length == maxLevel + 1
      requires forall i :: 0 <= i <= curLevel ==> update[i] == chain[PrevAt(heights, p, i)]
      modifies this`links, this`chain, this`heights, this`curLevel, this`counts, this`freed, Repr
      ensures node.level <= top ==>
                && Valid() && Contents() == old(Contents()) - {node.key}
                && chain == Removed(old(chain), p + 1) && node !in chain
                && (|chain| > 1 ==> exists k :: k in Contents() && !Erasable(k))
                && TopInUse()
      ensures freed == old(freed) + {node}
      ensures node.level > top ==> forall c: seq<Node<V>> :: !Usable(c)
    {
      hide NextAt, PrevAt, Linked, Redirected, Rank, MapOf, Sorted, WellShaped, Removed, Usable;
      HeightsBounded();
      ghost var before, level := links, curLevel;
      Unlink(update, node, top, p);
      if node.level <= top {
        Drop(p + 1, before);
      }
      Lower();
      counts := counts - 1;
      freed := freed + {node};   // delete
      if node.level <= top {
        StillStructured(level);
        MembersOf(old(chain), p + 1);
        StuckKey();
        NoLower();
      } else {
        TallNodeBreaks(before, p, top);
      }
    }

    /** `erase` as written.  Exactly when the key is present and not linked on the current level
        does it remove that key and nothing else; otherwise no usable list is left behind. */
    method Erase(key: int)
      requires Valid()
      modifies this, Repr
      ensures old(Erasable(key)) ==> Valid() && Contents() == old(Contents()) - {key} && Usable(chain)
      ensures old(Erasable(key)) ==> OneLess(old(chain), key) && TopInUse()
      ensures !old(Erasable(key)) ==> forall c: seq<Node<V>> :: !Usable(c)
      ensures old(Erasable(key)) && Contents() != map[] ==> exists k :: k in Contents() && !Erasable(k)
    {
      hide NextAt, PrevAt, Linked, Rank, MapOf, Sorted, WellShaped, Usable, Removed;
      var pre, update := Descend(key);
      ghost var p := Rank(chain, key);
      Bottom(p);
      WhenErasable(key);
      HeightsBounded();
      var current := pre.next[0];
      if current != null && current.key == key {
        EraseNode(update, current, curLevel, p);
        if old(Erasable(key)) {
          ValidIsUsable();
          OnlyHead(chain);
        }
      } else {
        Lower();
        counts := counts - 1;
        if current != null {
          freed := freed + {current};   // delete, of a node that was never unlinked
        }
        AbsentKeyBreaks(p);
      }
    }

    static lemma MembersOf(chain: seq<Node<V>>, x: nat)
      requires x < |chain|
      ensures forall q :: 0 <= q < |chain| - 1 ==> Removed(chain, x)[q] in chain
    {
      forall q | 0 <= q < |chain| - 1 ensures Removed(chain, x)[q] in chain {
        RemovedAt(chain, x, q);
      }
    }

    /** As long as nothing has been erased, every key that is present can be: a first `erase` is
        right whenever its key is there. */
    lemma FirstErase(key: int)
      requires Valid() && EmptyFrom(curLevel)
      ensures Erasable(key) <==> key in Contents()
    {
      WhenErasable(key);
      HeightsBounded();
    }

    /** Once the current level has come down to the topmost level in use, the tallest nodes are
        out of reach of the next `erase`. */
    lemma StuckKey()
      requires Valid() && (curLevel == 0 || (curLevel < head.next.Length && head.next[curLevel] != null))
      ensures |chain| > 1 ==> exists k :: k in Contents() && !Erasable(k)
    {
      hide NextAt, Linked, MapOf, Rank;
      if |chain| > 1 {
        HeightsBounded();
        var p := 1;
        if curLevel > 0 {
          FollowLink(0, curLevel);
          p := NextAt(heights, 0, curLevel);
        }
        WhenErasable(chain[p].key);
        KeyAt(chain, p);
        RankOfKey(chain, p);
      }
    }

    lemma NoLower()
      requires Valid() && (curLevel == 0 || (curLevel < head.next.Length && head.next[curLevel] != null))
      ensures TopInUse()
    {
      hide NextAt, Linked, Sorted;
      if curLevel > 0 {
        HeightsBounded();
        FollowLink(0, curLevel);
        var q := NextAt(heights, 0, curLevel);
        assert heights[q] > curLevel;
      }
    }

    /** An absent key: the count is off, or the node behind the gap is freed but linked. */
    lemma AbsentKeyBreaks(p: nat)
      requires Shape() && Mirrors() && Linked(chain, heights, links) && p < |chain|
      requires if p + 1 < |chain| then chain[p + 1] in freed else counts == |chain| - 2
      ensures forall c: seq<Node<V>> :: !Usable(c)
    {
      hide NextAt, Linked, Usable;
      HeightsBounded();
      ChainIsPath();
      Bottom(p);
      forall c: seq<Node<V>> ensures !Usable(c) {
        NotUsable(chain, c, p, 0);
      }
    }

    /** A node that is linked on the current level stays linked there. */
    lemma TallNodeBreaks(before: seq<seq<Node?<V>>>, p: nat, top: nat)
      requires Shape() && Mirrors() && Linked(chain, heights, before)
      requires p + 1 < |chain| && top < heights[p + 1] <= |before[p + 1]| && chain[p + 1] in freed
      requires Redirected(heights, before, links, p, top, before[p + 1])
      ensures forall c: seq<Node<V>> :: !Usable(c)
    {
      hide PrevAt, Linked, Redirected, Usable, Path;
      IncompleteUnlink(before, p, top);
      forall c: seq<Node<V>> ensures !Usable(c) {
        NotUsable(PathLeft(p + 1, top), c, PrevAt(heights, p, top), top);
      }
    }

    /** In the terms of a caller: `find` returns a node whose level is at most `getCurLevel()`. */
    lemma WhenErasable(key: int)
      requires Valid()
      ensures var n := At(chain, Rank(chain, key) + 1);
              && (key in Contents() <==> n != null && n.key == key)
              && (Erasable(key) <==> n != null && n.key == key && n.level <= curLevel)
    {
      PresentAtRank(chain, key);
      RankSplits(chain, key);
    }
  }

  // ------------------------------------------------------------- whole runs

  datatype Op<V> = Insert(key: int, val: V, heads: nat) | Find(key: int) | Erase(key: int)

  /** What a client of an insert-if-absent map sees: 0 or 1, a value or nothing. */
  datatype Answer<V> = Status(code: int) | Found(value: Option<V>) | Erased

  /** The map after a run, and the answers on the way; the coin flips play no part. */
  function MapAfter<V>(ops: seq<Op<V>>): map<int, V> {
    if ops == [] then map[] else Next(MapAfter(ops[..|ops| - 1]), ops[|ops| - 1])
  }

  function Next<V>(m: map<int, V>, op: Op<V>): map<int, V> {
    match op
    case Insert(key, val, _) => if key in m then m else m[key := val]
    case Find(_) => m
    case Erase(key) => m - {key}
  }

  function AnswerIn<V>(m: map<int, V>, op: Op<V>): Answer<V> {
    match op
    case Insert(key, _, _) => Status(if key in m then 1 else 0)
    case Find(key) => Found(if key in m then Some(m[key]) else None)
    case Erase(_) => Erased
  }

  method Apply<V(0)>(list: SkipList<V>, op: Op<V>) returns (answer: Answer<V>)
    requires list.Valid() && (op.Insert? ==> 1 <= list.maxLevel)
    modifies list, list.Repr
    ensures list.Valid() && fresh(list.Repr - old(list.Repr))
    ensures answer == AnswerIn(old(list.Contents()), op) && list.Contents() == Next(old(list.Contents()), op)
  {
    hide MapOf, SkipList.Valid;
    match op {
      case Insert(key, val, heads) =>
        var code := list.Insert(key, val, heads);
        answer := Status(code);
      case Find(key) =>
        var node := list.Find(key);
        answer := Found(if node != null then Some(node.val) else None);
      case Erase(key) =>
        list.EraseRepaired(key);
        answer := Erased;
    }
  }

  /** Any run of insert, find and the repaired erase, with any coin flips, is a run of the map. */
  method Replay<V(0)>(maxLevel: nat, ops: seq<Op<V>>) returns (answers: seq<Answer<V>>, size: int)
    requires 1 <= maxLevel || forall i :: 0 <= i < |ops| ==> !ops[i].Insert?
    ensures |answers| == |ops| && size == |MapAfter(ops)|
    ensures forall i :: 0 <= i < |ops| ==> answers[i] == AnswerIn(MapAfter(ops[..i]), ops[i])
  {
    hide MapOf, SkipList.Valid, AnswerIn, Next;
    var list := new SkipList<V>(maxLevel);
    answers := [];
    var i := 0;
    while i < |ops|
      invariant i <= |ops| && |answers| == i
      invariant list.Valid() && fresh(list) && fresh(list.Repr) && list.maxLevel == maxLevel
      invariant list.Contents() == MapAfter(ops[..i])
      invariant forall j :: 0 <= j < i ==> answers[j] == AnswerIn(MapAfter(ops[..j]), ops[j])
    {
      assert ops[..i + 1][..i] == ops[..i];
      var answer := Apply(list, ops[i]);
      answers := answers + [answer];
      i := i + 1;
    }
    assert ops[..|ops|] == ops;
    CountIsSize(list);
    size := list.counts;
  }

  lemma CountIsSize<V(0)>(list: SkipList<V>)
    requires list.Valid()
    ensures list.counts == |list.Contents()|
  {
    KeysAtMost(list.chain);
  }
}
