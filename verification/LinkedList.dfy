/** The singly linked list of `ds/list.h`: positions that count from either end, and removal
    through a sentinel that exists only during the call. */
module LinkedList {
  import opened Sequences

  class Item<T> {
    const data: T
    var next: Item?<T>

    constructor (data: T)
      ensures this.data == data && next == null
    {
      this.data := data;
      next := null;
    }
  }

  // --------------------------------------------------------------- positions

  /** `posPos`: the position from the front, or -1. */
  function PosPos(len: int, realLen: int, pos: int): int {
    if pos < -1 * len - 1 || pos > len then -1
    else if pos < 0 then pos + realLen
    else pos
  }

  /** `insert` accepts the positions from -n to n, and a negative one counts from the end.  The
      comment above the code also promises -n - 1; the code turns that one into its error value. */
  lemma InsertPositions(n: nat, pos: int)
    ensures PosPos(n, n, pos) != -1 <==> 0 - n <= pos <= n
    ensures 0 - n <= pos <= n ==> PosPos(n, n, pos) == if pos < 0 then n + pos else pos
  {
  }

  /** `remove` and `get` accept -n to n - 1. */
  lemma RemovePositions(n: nat, pos: int)
    requires n > 0
    ensures PosPos(n - 1, n, pos) != -1 <==> 0 - n <= pos < n
    ensures 0 - n <= pos < n ==> PosPos(n - 1, n, pos) == if pos < 0 then n + pos else pos
  {
  }

  // ---------------------------------------------------------------- the list

  function Datas<T>(items: seq<Item<T>>): (r: seq<T>)
    ensures |r| == |items|
    ensures forall i :: 0 <= i < |items| ==> r[i] == items[i].data
  {
    seq(|items|, i requires 0 <= i < |items| => items[i].data)
  }

  lemma DatasPutIn<T>(items: seq<Item<T>>, at: nat, x: Item<T>)
    requires at <= |items|
    ensures Datas(PutIn(items, at, x)) == PutIn(Datas(items), at, x.data)
  {
  }

  lemma DatasRemoved<T>(items: seq<Item<T>>, at: nat)
    requires at < |items|
    ensures Datas(Removed(items, at)) == Removed(Datas(items), at)
  {
  }

  lemma SentinelAway<T>(items: seq<Item<T>>, itm: Item<T>, at: nat)
    requires at < |items|
    ensures Removed(Removed(PutIn(items, 0, itm), at + 1), 0) == Removed(items, at)
  {
  }

  function At<T>(items: seq<Item<T>>, i: nat): Item?<T> {
    if i < |items| then items[i] else null
  }

  /** The links of a chain of different objects, as values. */
  ghost predicate Linked<T>(items: seq<Item<T>>, links: seq<Item?<T>>) {
    && |links| == |items|
    && (forall i :: 0 <= i < |items| ==> links[i] == At(items, i + 1))
    && (forall i, j :: 0 <= i < j < |items| ==> items[i] != items[j])
  }

  lemma LinkedPutIn<T>(items: seq<Item<T>>, links: seq<Item?<T>>, at: nat, x: Item<T>)
    requires Linked(items, links) && at <= |items| && x !in items
    ensures Linked(PutIn(items, at, x),
                   PutIn(if at > 0 then links[at - 1 := x] else links, at, At(items, at)))
  {
    hide PutIn;
    var relinked := if at > 0 then links[at - 1 := x] else links;
    var items', links' := PutIn(items, at, x), PutIn(relinked, at, At(items, at));
    forall i | 0 <= i < |items'| ensures links'[i] == At(items', i + 1) {
      PutInAt(relinked, at, At(items, at), i);
      if i + 1 < |items'| {
        PutInAt(items, at, x, i + 1);
      }
    }
    forall i, j | 0 <= i < j < |items'| ensures items'[i] != items'[j] {
      PutInAt(items, at, x, i);
      PutInAt(items, at, x, j);
    }
  }

  lemma LinkedRemoved<T>(items: seq<Item<T>>, links: seq<Item?<T>>, at: nat)
    requires Linked(items, links) && at < |items|
    ensures Linked(Removed(items, at), Removed(if at > 0 then links[at - 1 := links[at]] else links, at))
  {
    hide Removed;
    var relinked := if at > 0 then links[at - 1 := links[at]] else links;
    var items', links' := Removed(items, at), Removed(relinked, at);
    forall i | 0 <= i < |items'| ensures links'[i] == At(items', i + 1) {
      RemovedAt(relinked, at, i);
      if i + 1 < |items'| {
        RemovedAt(items, at, i + 1);
      }
    }
    forall i, j | 0 <= i < j < |items'| ensures items'[i] != items'[j] {
      RemovedAt(items, at, i);
      RemovedAt(items, at, j);
    }
  }

  /** The outcome of `get`: a value, the end of the program, or a step past the last item. */
  datatype Got<+T> = Value(value: T) | Exited | PastTheEnd

  class List<T(0)> {
    var head: Item?<T>
    var len: nat
    ghost var items: seq<Item<T>>
    ghost var links: seq<Item?<T>>   // what the items' `next` fields hold

    /** The chain from the head is `items`, and they are `len` different objects. */
    ghost predicate Valid()
      reads this, items
    {
      Chain() && len == |items|
    }

    ghost predicate Chain()
      reads this`head, this`items, this`links, items
    {
      && head == At(items, 0) && Linked(items, links)
      && forall i :: 0 <= i < |items| ==> items[i].next == links[i]
    }

    ghost function Contents(): seq<T>
      reads this
    {
      Datas(items)
    }

    constructor ()
      ensures Valid() && Contents() == [] && items == []
    {
      head, len, items, links := null, 0, [], [];
    }

    predicate Empty()
      reads this
    {
      head == null && len == 0
    }

    /** Walks `pos` links; a step from null is outside the list. */
    method PToPos(pos: nat) returns (p: Item?<T>, ok: bool)
      requires Valid()
      ensures ok <==> pos <= |items|
      ensures ok ==> p == At(items, pos)
    {
      p := head;
      var i := 0;
      while i < pos
        invariant i <= pos && i <= |items| && p == At(items, i)
      {
        if p == null {
          return null, false;
        }
        p := p.next;
        i := i + 1;
      }
      ok := true;
    }

    /** Position `pos` of a list of `n`, counted from the end when negative. */
    static function FromFront(n: nat, pos: int): int { if pos < 0 then n + pos else pos }

    method Insert(pos: int, data: T) returns (status: int)
      requires Valid()
      modifies this, items
      ensures Valid()
      ensures status == if 0 - |old(items)| <= pos <= |old(items)| then 0 else -1
      ensures status == -1 ==> items == old(items)
      ensures status == 0 ==> Contents() == PutIn(old(Contents()), FromFront(|old(items)|, pos), data)
      ensures status == 0 ==> exists x :: fresh(x) && items == PutIn(old(items), FromFront(|old(items)|, pos), x)
    {
      hide PutIn, Datas, PosPos;
      InsertPositions(len, pos);
      var pospos := PosPos(len, len, pos);
      if pospos == -1 {
        return -1;
      }
      var np := new Item(data);
      DatasPutIn(items, pospos, np);
      if pospos == 0 {
        PushFront(np);
      } else {
        var p, _ := PToPos(pospos - 1);
        LinkBehind(p, np, pospos - 1);
      }
      len := len + 1;
      status := 0;
    }

    method PushFront(np: Item<T>)
      requires Chain() && np !in items
      modifies this`head, this`items, this`links, np
      ensures Chain() && items == PutIn(old(items), 0, np) && head == np
    {
      hide PutIn, Linked;
      LinkedPutIn(items, links, 0, np);
      Sizes();
      ghost var items', links' := PutIn(items, 0, np), PutIn(links, 0, head);
      np.next := head;
      head := np;
      forall i | 0 <= i < |items'| ensures items'[i].next == links'[i] {
        PutInAt(items, 0, np, i);
        PutInAt(links, 0, old(head), i);
      }
      PutInAt(items, 0, np, 0);
      items, links := items', links';
    }

    lemma Sizes()
      requires Chain()
      ensures |links| == |items|
      ensures forall i :: 0 <= i < |items| ==> items[i].next == At(items, i + 1)
      ensures forall i, j :: 0 <= i < j < |items| ==> items[i] != items[j]
    {
    }

    method LinkBehind(p: Item<T>, np: Item<T>, ghost k: nat)
      requires Chain() && k < |items| && p == items[k] && np !in items
      modifies this`items, this`links, p, np
      ensures Chain() && items == PutIn(old(items), k + 1, np)
    {
      hide PutIn, Linked;
      LinkedPutIn(items, links, k + 1, np);
      Sizes();
      assert links[k] == At(items, k + 1);
      var nextItem := p.next;
      p.next := np;
      np.next := nextItem;
      ghost var items', links' := PutIn(items, k + 1, np), PutIn(links[k := np], k + 1, nextItem);
      forall i | 0 <= i < |items'| ensures items'[i].next == links'[i] {
        PutInAt(items, k + 1, np, i);
        PutInAt(links[k := np], k + 1, nextItem, i);
      }
      PutInAt(items, k + 1, np, 0);
      items, links := items', links';
    }

    method UnlinkBehind(p: Item<T>, ghost k: nat)
      requires Chain() && k + 1 < |items| && p == items[k]
      modifies this`items, this`links, p
      ensures Chain() && items == Removed(old(items), k + 1)
    {
      hide Removed, Linked;
      LinkedRemoved(items, links, k + 1);
      Sizes();
      var r := p.next;
      p.next := r.next;   // and delete r
      ghost var items', links' := Removed(items, k + 1), Removed(links[k := links[k + 1]], k + 1);
      forall i | 0 <= i < |items'| ensures items'[i].next == links'[i] {
        RemovedAt(items, k + 1, i);
        RemovedAt(links[k := links[k + 1]], k + 1, i);
      }
      RemovedAt(items, k + 1, 0);
      items, links := items', links';
    }

    method InsertTail(data: T) returns (status: int)
      requires Valid()
      modifies this, items
      ensures Valid() && status == 0 && Contents() == old(Contents()) + [data]
    {
      status := Insert(len, data);
      assert PutIn(old(Contents()), |old(Contents())|, data) == old(Contents()) + [data];
    }

    method Remove(pos: int) returns (status: int)
      requires Valid()
      modifies this, items
      ensures Valid()
      ensures status == if 0 - |old(items)| <= pos < |old(items)| then 0 else -1
      ensures status == -1 ==> items == old(items)
      ensures status == 0 ==> Contents() == Removed(old(Contents()), FromFront(|old(items)|, pos))
      ensures status == 0 ==> items == Removed(old(items), FromFront(|old(items)|, pos))
    {
      hide Datas, PosPos, Removed;
      if Empty() {
        return -1;
      }
      RemovePositions(len, pos);
      var pospos := PosPos(len - 1, len, pos);
      if pospos == -1 {
        return -1;
      }
      DatasRemoved(items, pospos);
      RemoveAt(pospos);
      status := 0;
    }

    /** The rest of `remove`: a sentinel goes before the head, the item behind position `pos` of the
        longer chain is unlinked, and the sentinel is taken off again. */
    method RemoveAt(pos: nat)
      requires Valid() && pos < |items|
      modifies this, items
      ensures Valid() && items == Removed(old(items), pos)
    {
      hide Linked, PutIn, Removed;
      var dummy: T := *;
      var itm := new Item(dummy);
      PushFront(itm);
      len := len + 1;
      var p, _ := PToPos(pos);
      PutInAt(old(items), 0, itm, pos);
      SentinelAway(old(items), itm, pos);
      UnlinkBehind(p, pos);
      len := len - 1;
      PopFront();
      len := len - 1;
    }

    /** `_head = _head->_next`. */
    method PopFront()
      requires Chain() && items != []
      modifies this`head, this`items, this`links
      ensures Chain() && items == Removed(old(items), 0)
    {
      hide Removed, Linked;
      LinkedRemoved(items, links, 0);
      Sizes();
      head := head.next;
      ghost var items', links' := Removed(items, 0), Removed(links, 0);
      forall i | 0 <= i < |items'| ensures items'[i].next == links'[i] {
        RemovedAt(items, 0, i);
        RemovedAt(links, 0, i);
      }
      if |items| > 1 {
        RemovedAt(items, 0, 0);
      }
      items, links := items', links';
    }

    method Get(pos: int) returns (r: Got<T>)
      requires Valid() && |items| < 0xFFFF_FFFF
      ensures |items| == 0 <==> r.Exited?
      ensures r.Value? <==> 0 - |items| <= pos < |items|
      ensures r.Value? ==> r.value == Contents()[FromFront(|items|, pos)]
    {
      if Empty() {
        return Exited;
      }
      RemovePositions(len, pos);
      var pospos := PosPos(len - 1, len, pos);
      var walked: nat := if pospos == -1 then 0xFFFF_FFFF else pospos;   // the parameter is a uint32
      var p, ok := PToPos(walked);
      if !ok || p == null {
        return PastTheEnd;
      }
      return Value(p.data);
    }

    /** The destructor. */
    method Destroy()
      requires Valid()
      modifies this, items
      ensures Valid() && items == [] && Empty()
    {
      while !Empty()
        invariant Valid() && forall i :: 0 <= i < |items| ==> items[i] in old(items)
        decreases len
      {
        var _ := Remove(0);
      }
    }
  }
}
