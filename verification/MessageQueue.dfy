/** The blocking queue of `itc/mq.h`: its three critical sections, and all interleavings of any
    number of pushing and pulling threads around one condition variable. */
module MessageQueue {

  import opened Wrappers

  type Tid = nat

  // -------------------------------------------------------- all interleavings

  /** A thread is outside `pull`; in it and about to hold the lock; or asleep in `wait`. */
  datatype Place = Outside | Ready | Asleep

  /** What became of a message. */
  datatype Fate<T> = Pulled(tid: Tid, msg: T) | Cleared(msg: T)

  datatype World<T> = World(
    q: seq<T>, threads: map<Tid, Place>,
    pushed: seq<T>,          // history
    gone: seq<Fate<T>>)      // history

  datatype Event<T> =
    | Push(data: T)          // with wakeupAll
    | Call(tid: Tid)         // a thread calls pull
    | Test(tid: Tid)         // under the lock: take the front, or go to sleep
    | Spurious(tid: Tid)     // wait returns although nobody woke the thread
    | Clear

  function PlaceOf<T>(w: World<T>, t: Tid): Place {
    if t in w.threads then w.threads[t] else Outside
  }

  predicate Enabled<T>(w: World<T>, e: Event<T>) {
    match e
    case Push(_) => true
    case Call(t) => PlaceOf(w, t).Outside?
    case Test(t) => PlaceOf(w, t).Ready?
    case Spurious(t) => PlaceOf(w, t).Asleep?
    case Clear => true
  }

  function WakeAll(threads: map<Tid, Place>): map<Tid, Place> {
    map t | t in threads :: if threads[t].Asleep? then Ready else threads[t]
  }

  function Drop<T>(msgs: seq<T>): (r: seq<Fate<T>>)
    ensures |r| == |msgs|
    ensures forall i :: 0 <= i < |msgs| ==> r[i] == Cleared(msgs[i])
  {
    seq(|msgs|, i requires 0 <= i < |msgs| => Cleared(msgs[i]))
  }

  function Next<T>(w: World<T>, e: Event<T>): World<T>
    requires Enabled(w, e)
  {
    match e
    case Push(data) =>
      w.(q := w.q + [data], threads := WakeAll(w.threads), pushed := w.pushed + [data])
    case Call(t) => w.(threads := w.threads[t := Ready])
    case Test(t) =>
      if w.q == [] then w.(threads := w.threads[t := Asleep])
      else w.(q := w.q[1..], threads := w.threads[t := Outside], gone := w.gone + [Pulled(t, w.q[0])])
    case Spurious(t) => w.(threads := w.threads[t := Ready])
    case Clear => w.(q := [], gone := w.gone + Drop(w.q))
  }

  datatype Outcome<T> = Reached(world: World<T>) | NotARun

  function Start<T>(): World<T> { World([], map[], [], []) }

  function After<T>(events: seq<Event<T>>): Outcome<T> {
    if events == [] then Reached(Start())
    else
      match After(events[..|events| - 1])
      case NotARun => NotARun
      case Reached(w) =>
        if Enabled(w, events[|events| - 1]) then Reached(Next(w, events[|events| - 1])) else NotARun
  }

  ghost predicate Inv<T(!new)>(w: World<T>) {
    && |w.gone| + |w.q| == |w.pushed|
    && (forall i :: 0 <= i < |w.gone| ==> w.gone[i].msg == w.pushed[i])
    && w.q == w.pushed[|w.gone|..]
    && (forall t :: t in w.threads && w.threads[t].Asleep? ==> w.q == [])
  }

  lemma StepKeeps<T(!new)>(w: World<T>, e: Event<T>)
    requires Inv(w) && Enabled(w, e)
    ensures Inv(Next(w, e))
  {
    match e
    case Push(data) =>
      assert (w.pushed + [data])[|w.gone|..] == w.q + [data];
    case Test(t) =>
      if w.q != [] {
        assert w.pushed[|w.gone|..][1..] == w.pushed[|w.gone| + 1..];
      }
    case Clear =>
      assert w.pushed[|w.pushed|..] == [];
    case _ =>
  }

  lemma {:induction false} AlwaysInv<T(!new)>(events: seq<Event<T>>, w: World<T>)
    requires After(events) == Reached(w)
    ensures Inv(w)
  {
    hide Inv, Next, Enabled;
    if events == [] {
      EmptyHolds<T>();
    } else {
      var n := |events| - 1;
      AlwaysInv(events[..n], After(events[..n]).world);
      StepKeeps(After(events[..n]).world, events[n]);
    }
  }

  lemma EmptyHolds<T(!new)>()
    ensures Inv(Start<T>())
  {
  }

  /** The messages that a run pushes, by its events alone. */
  function Data<T>(events: seq<Event<T>>): seq<T> {
    if events == [] then []
    else Data(events[..|events| - 1]) + match events[|events| - 1] case Push(data) => [data] case _ => []
  }

  lemma {:induction false} PushedIsData<T(!new)>(events: seq<Event<T>>, w: World<T>)
    requires After(events) == Reached(w)
    ensures w.pushed == Data(events)
  {
    if events == [] {
    } else {
      PushedIsData(events[..|events| - 1], After(events[..|events| - 1]).world);
    }
  }

  /** First in, first out, each message once: what left the queue, then what is in it, is what the
      run pushed. */
  lemma Conserved<T(!new)>(events: seq<Event<T>>, w: World<T>)
    requires After(events) == Reached(w)
    ensures |w.gone| + |w.q| == |Data(events)|
    ensures forall i :: 0 <= i < |Data(events)| ==>
              Data(events)[i] == if i < |w.gone| then w.gone[i].msg else w.q[i - |w.gone|]
  {
    hide Data, After;
    AlwaysInv(events, w);
    PushedIsData(events, w);
  }

  /** How often a thread called `pull`, and how many messages it got. */
  function Calls<T>(events: seq<Event<T>>, t: Tid): nat {
    if events == [] then 0
    else
      var e := events[|events| - 1];
      Calls(events[..|events| - 1], t) + if e.Call? && e.tid == t then 1 else 0
  }

  function Got<T>(gone: seq<Fate<T>>, t: Tid): nat {
    if gone == [] then 0
    else
      var f := gone[|gone| - 1];
      Got(gone[..|gone| - 1], t) + if f.Pulled? && f.tid == t then 1 else 0
  }

  lemma {:induction false} GotAppend<T>(a: seq<Fate<T>>, b: seq<Fate<T>>, t: Tid)
    ensures Got(a + b, t) == Got(a, t) + Got(b, t)
  {
    if b == [] {
      assert a + b == a;
    } else {
      var n := |b| - 1;
      GotAppend(a, b[..n], t);
      assert (a + b)[..|a + b| - 1] == a + b[..n];
    }
  }

  lemma {:induction false} NoneGot<T>(gone: seq<Fate<T>>, t: Tid)
    requires forall i :: 0 <= i < |gone| ==> gone[i].Cleared?
    ensures Got(gone, t) == 0
  {
    if gone == [] {
    } else {
      NoneGot(gone[..|gone| - 1], t);
    }
  }

  lemma CallStep<T(!new)>(w: World<T>, e: Event<T>, t: Tid)
    requires Enabled(w, e)
    ensures var w' := Next(w, e);
            Got(w'.gone, t) + (if PlaceOf(w', t).Outside? then 0 else 1) ==
            Got(w.gone, t) + (if PlaceOf(w, t).Outside? then 0 else 1) + if e == Call(t) then 1 else 0
  {
    hide Got;
    match e
    case Test(u) =>
      if w.q != [] {
        GotAppend(w.gone, [Pulled(u, w.q[0])], t);
        GotOne(Pulled(u, w.q[0]), t);
      }
    case Clear =>
      GotAppend(w.gone, Drop(w.q), t);
      NoneGot(Drop(w.q), t);
    case _ =>
  }

  lemma GotOne<T>(f: Fate<T>, t: Tid)
    ensures Got([f], t) == if f.Pulled? && f.tid == t then 1 else 0
  {
    assert [f][..0] == [];
  }

  /** Every call of `pull` gets one message, or is still inside. */
  lemma {:induction false} EachCallGetsOne<T(!new)>(events: seq<Event<T>>, w: World<T>, t: Tid)
    requires After(events) == Reached(w)
    ensures Calls(events, t) == Got(w.gone, t) + if PlaceOf(w, t).Outside? then 0 else 1
  {
    if events == [] {
    } else {
      var n := |events| - 1;
      var v := After(events[..n]).world;
      EachCallGetsOne(events[..n], v, t);
      CallStep(v, events[n], t);
    }
  }

  /** Without `clear`, every message that left the queue was pulled, by one thread. */
  lemma {:induction false} NothingCleared<T(!new)>(events: seq<Event<T>>, w: World<T>)
    requires After(events) == Reached(w) && Clear !in events
    ensures forall i :: 0 <= i < |w.gone| ==> w.gone[i].Pulled?
  {
    if events == [] {
    } else {
      var n := |events| - 1;
      NothingCleared(events[..n], After(events[..n]).world);
    }
  }

  /** No wakeup is lost: while a message is there, no thread sleeps, and every thread inside `pull`
      gets a message in its next turn at the lock. */
  lemma NoLostWakeup<T(!new)>(events: seq<Event<T>>, w: World<T>, t: Tid)
    requires After(events) == Reached(w) && w.q != [] && !PlaceOf(w, t).Outside?
    ensures PlaceOf(w, t).Ready? && Enabled(w, Test(t))
    ensures var w' := Next(w, Test(t));
            w'.gone == w.gone + [Pulled(t, w.q[0])] && w'.q == w.q[1..] && PlaceOf(w', t).Outside?
  {
    AlwaysInv(events, w);
  }

  /** A thread leaves `pull` only with a message. */
  lemma PullReturnsWithMessage<T(!new)>(w: World<T>, e: Event<T>, t: Tid)
    requires Enabled(w, e) && !PlaceOf(w, t).Outside? && PlaceOf(Next(w, e), t).Outside?
    ensures w.q != [] && e == Test(t) && Next(w, e).gone == w.gone + [Pulled(t, w.q[0])]
  {
  }

  // -------------------------------------------------------------- the object

  /** The queue of the source, with the state of the transition system in which it is one part.
      Each method is what one thread does while it has the lock. */
  class MQ<T(!new)> {
    var q: seq<T>
    ghost var world: World<T>

    ghost predicate Valid()
      reads this
    {
      q == world.q && Inv(world)
    }

    constructor ()
      ensures Valid() && world == Start()
    {
      q, world := [], Start();
    }

    method Push(data: T)
      requires Valid()
      modifies this
      ensures Valid() && world == Next(old(world), Event.Push(data))
      ensures q == old(q) + [data] && forall t :: !PlaceOf(world, t).Asleep?
    {
      StepKeeps(world, Event.Push(data));
      q := q + [data];
      world := Next(world, Event.Push(data));   // and wakeupAll
    }

    /** A turn of the loop in `pull`: the thread goes to sleep, or leaves with a message. */
    method TryPull(t: Tid) returns (r: Option<T>)
      requires Valid() && Enabled(world, Test(t))
      modifies this
      ensures Valid() && world == Next(old(world), Test(t))
      ensures r.None? <==> PlaceOf(world, t).Asleep?
      ensures r.Some? ==> PlaceOf(world, t).Outside? && world.gone == old(world.gone) + [Pulled(t, r.value)]
      ensures if old(q) == [] then r == None && q == [] else r == Some(old(q)[0]) && q == old(q)[1..]
    {
      StepKeeps(world, Test(t));
      r := None;
      if |q| != 0 {
        r := Some(q[0]);
        q := q[1..];
      }
      world := Next(world, Test(t));
    }

    method Clear()
      requires Valid()
      modifies this
      ensures Valid() && world == Next(old(world), Event.Clear)
      ensures q == [] && |world.gone| == |old(world.gone)| + |old(q)| && world.threads == old(world.threads)
      ensures forall i :: 0 <= i < |old(q)| ==> world.gone[|old(world.gone)| + i] == Cleared(old(q)[i])
    {
      StepKeeps(world, Event.Clear);
      while |q| != 0
        invariant world == old(world)
      {
        q := q[1..];
      }
      world := Next(world, Event.Clear);
    }

    /** What becomes of a thread that calls `pull`, between its turns at the lock. */
    ghost method Elsewhere(e: Event<T>)
      requires Valid() && Enabled(world, e) && (e.Call? || e.Spurious?)
      modifies this`world
      ensures Valid() && world == Next(old(world), e) && PlaceOf(world, e.tid).Ready?
    {
      StepKeeps(world, e);
      world := Next(world, e);
    }
  }
}
