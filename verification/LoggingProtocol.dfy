/** Producers, backend thread and `stop` as one transition system: any number of threads, every
    interleaving, each region under the lock one step. */
module LoggingProtocol {
  import opened Sequences
  import opened LogStream
  import opened Backend

  type Tid = nat

  /** A record on its way, with the thread that streamed it. */
  datatype Tagged = Tagged(tid: Tid, record: Bytes)

  /** The backend thread: at the test of `_running`; in the wait loop under the lock; with a batch
      whose size it has not looked at; writing a batch of `need` bytes; returned. */
  datatype Pc = AtTest | AtWait | HasBatch(batch: seq<Bytes>) | Writing(todo: seq<Bytes>, need: nat) | Returned {
    /** The part of the batch that is not in a file yet. */
    function Left(): Bytes {
      match this
      case HasBatch(batch) => Flat(batch)
      case Writing(todo, _) => Flat(todo)
      case _ => []
    }
  }

  /** `stop`: not called; polling the size; has read zero; has cleared `_running` and joins; back. */
  datatype Stopper = NotCalled | Polling | ReadZero | Joining | Stopped

  datatype World = World(
    shared: Shared, running: bool, backend: Pc, written: nat, files: seq<File>, limit: nat,
    streams: map<Tid, Stream>, stopper: Stopper,
    accepted: seq<Tagged>,          // history: the records in the order `append` took them
    logs: map<Tid, seq<Bytes>>,     // history: what each thread streamed
    repeated: map<Tid, nat>)        // history: how many of its records a user's flush sent early

  datatype Event =
    | NewStream(tid: Tid)                       // a thread's first record
    | BeginRecord(tid: Tid, flush: bool)        // makeLog
    | Write(tid: Tid, p: Bytes)                 // operator<<
    | TakeBack(tid: Tid)                        // the header's last three bytes
    | UserFlush(tid: Tid)                       // the public flush
    | Destroy(tid: Tid)                         // ~LogStream
    | CallStop | Poll | ClearRunning | Join
    | Test | Wait | Take | RollFile | WriteBuffer | EndBatch

  function Start(limit: nat): World {
    World(FRESH, true, AtTest, 0, [NO_FILE], limit, map[], NotCalled, [], map[], map[])
  }

  predicate Enabled(w: World, e: Event) {
    match e
    case NewStream(t) => w.stopper.NotCalled? && t !in w.logs
    case BeginRecord(t, _) => t in w.streams
    case Write(t, p) => t in w.streams && w.streams[t].open && |w.streams[t].partial| + |p| < STREAM_SIZE
    case TakeBack(t) => t in w.streams && w.streams[t].open && |w.streams[t].partial| >= 3
    case UserFlush(t) => t in w.streams
    case Destroy(t) => t in w.streams
    case CallStop => w.stopper.NotCalled? && w.streams == map[]
    case Poll => w.stopper.Polling?
    case ClearRunning => w.stopper.ReadZero?
    case Join => w.stopper.Joining? && w.backend.Returned?
    case Test => w.backend.AtTest?
    case Wait => w.backend.AtWait? && MustWait(w.shared, w.running)
    case Take => w.backend.AtWait? && !MustWait(w.shared, w.running)
    case RollFile => w.backend.HasBatch? && w.files != []
    case WriteBuffer => w.backend.Writing? && w.backend.todo != [] && w.files != []
    case EndBatch => w.backend.Writing? && w.backend.todo == []
  }

  function LogOf(w: World, t: Tid): seq<Bytes> { if t in w.logs then w.logs[t] else [] }

  function RepeatedOf(w: World, t: Tid): nat { if t in w.repeated then w.repeated[t] else 0 }

  function Tag(t: Tid, records: seq<Bytes>): (r: seq<Tagged>)
    ensures |r| == |records|
  {
    seq(|records|, i requires 0 <= i < |records| => Tagged(t, records[i]))
  }

  /** The calls of `append` behind the calls of `g_output`. */
  function AcceptAll(s: Shared, out: seq<seq<Bytes>>): Shared {
    if out == [] then s else Accept(AcceptAll(s, out[..|out| - 1]), Flat(out[|out| - 1]))
  }

  /** A thread's call leaves its stream in a new state and passes groups of records on. */
  function Emit(w: World, t: Tid, out: seq<seq<Bytes>>): World {
    w.(shared := AcceptAll(w.shared, out), accepted := w.accepted + Tag(t, Concat(out)))
  }

  function TotalSize(batch: seq<Bytes>): nat { |Flat(batch)| }

  function Next(w: World, e: Event): World
    requires Enabled(w, e)
  {
    match e
    case NewStream(t) => w.(streams := w.streams[t := EMPTY], logs := w.logs[t := []], repeated := w.repeated[t := 0])
    case BeginRecord(t, flush) =>
      var r := Begin(w.streams[t], flush);
      Emit(w, t, r.out).(streams := w.streams[t := r.stream], logs := w.logs[t := AddRecord(LogOf(w, t))])
    case Write(t, p) =>
      var r := Put(w.streams[t], p);
      Emit(w, t, r.out).(streams := w.streams[t := r.stream], logs := w.logs[t := Extend(LogOf(w, t), p)])
    case TakeBack(t) =>
      w.(streams := w.streams[t := Retract(w.streams[t])], logs := w.logs[t := Shorten(LogOf(w, t))])
    case UserFlush(t) =>
      var again := w.streams[t].complete;
      Emit(w, t, [again]).(repeated := w.repeated[t := RepeatedOf(w, t) + |again|])
    case Destroy(t) => Emit(w, t, Close(w.streams[t]).out).(streams := w.streams - {t})
    case CallStop => w.(stopper := Polling)
    case Poll => if |w.shared.current| == 0 then w.(stopper := ReadZero) else w
    case ClearRunning => w.(running := false, stopper := Joining)
    case Join => w.(stopper := Stopped)
    case Test => w.(backend := if w.running then AtWait else Returned)
    case Wait => w
    case Take => w.(shared := FRESH, backend := HasBatch(Taken(w.shared)))
    case RollFile =>
      var need := TotalSize(w.backend.batch);
      w.(files := Roll(w.files, w.written, need, w.limit),
         written := WrittenAfterRoll(w.written, need, w.limit),
         backend := Writing(w.backend.batch, need))
    case WriteBuffer =>
      w.(files := WriteBytes(w.files, w.backend.todo[0]), backend := w.backend.(todo := w.backend.todo[1..]))
    case EndBatch => w.(written := w.written + w.backend.need, backend := AtTest)
  }

  // ------------------------------------------------------------ the invariant

  function BytesOf(records: seq<Tagged>): Bytes {
    if records == [] then [] else BytesOf(records[..|records| - 1]) + records[|records| - 1].record
  }

  /** The records of one thread, in order. */
  function OfThread(records: seq<Tagged>, t: Tid): seq<Bytes> {
    if records == [] then []
    else
      var last := records[|records| - 1];
      OfThread(records[..|records| - 1], t) + if last.tid == t then [last.record] else []
  }

  function PendingOf(w: World, t: Tid): seq<Bytes> {
    if t in w.streams then w.streams[t].Pending() else []
  }

  /** How a thread's log stands: what was accepted under its name, what its stream still holds. */
  predicate ThreadKept(w: World, t: Tid) {
    Kept(LogOf(w, t), OfThread(w.accepted, t), PendingOf(w, t), RepeatedOf(w, t))
  }

  /** Every record of every thread is accounted for, in that thread's order. */
  ghost predicate RecordsKept(w: World) {
    && w.streams.Keys <= w.logs.Keys && w.streams.Keys <= w.repeated.Keys <= w.logs.Keys
    && (forall t :: t in w.streams ==> w.streams[t].Valid())
    && forall t :: ThreadKept(w, t)
  }

  /** Every byte that `append` took is in a file, in the backend's batch or waits in a buffer. */
  ghost predicate BytesKept(w: World) {
    w.shared.Valid() && BytesOf(w.accepted) == AllBytes(w.files) + w.backend.Left() + w.shared.Waiting()
  }

  ghost predicate FilesKept(w: World) {
    && FilesValid(w.files, if w.backend.Writing? then |w.backend.Left()| else 0, w.limit)
    && (if w.backend.Writing? then w.written + w.backend.need == Sum(w.files[|w.files| - 1].sizes)
        else w.written == |w.files[|w.files| - 1].bytes|)
  }

  /** The handshake: `stop` runs after the streams are gone, and once it has read zero nothing waits. */
  ghost predicate HandshakeKept(w: World) {
    && (!w.stopper.NotCalled? ==> w.streams == map[])
    && (w.stopper.ReadZero? || w.stopper.Joining? || w.stopper.Stopped? ==> w.shared.Waiting() == [])
    && (w.running <==> !w.stopper.Joining? && !w.stopper.Stopped?)
    && (w.backend.Returned? ==> !w.running)
    && (w.stopper.Stopped? ==> w.backend.Returned?)
  }

  ghost predicate Inv(w: World) {
    RecordsKept(w) && BytesKept(w) && FilesKept(w) && HandshakeKept(w)
  }

  // ------------------------------------------------------- lemmas on history

  lemma {:induction false} BytesOfAppend(a: seq<Tagged>, b: seq<Tagged>)
    ensures BytesOf(a + b) == BytesOf(a) + BytesOf(b)
  {
    if b == [] {
      assert a + b == a;
    } else {
      var n := |b| - 1;
      BytesOfAppend(a, b[..n]);
      assert (a + b)[..|a + b| - 1] == a + b[..n];
    }
  }

  lemma {:induction false} OfThreadAppend(a: seq<Tagged>, b: seq<Tagged>, t: Tid)
    ensures OfThread(a + b, t) == OfThread(a, t) + OfThread(b, t)
  {
    if b == [] {
      assert a + b == a;
    } else {
      var n := |b| - 1;
      OfThreadAppend(a, b[..n], t);
      assert (a + b)[..|a + b| - 1] == a + b[..n];
    }
  }

  lemma {:induction false} TagMeans(t: Tid, records: seq<Bytes>, u: Tid)
    ensures BytesOf(Tag(t, records)) == Flat(records)
    ensures OfThread(Tag(t, records), u) == if u == t then records else []
  {
    if records == [] {
    } else {
      var n := |records| - 1;
      TagMeans(t, records[..n], u);
      assert Tag(t, records)[..n] == Tag(t, records[..n]);
      assert records[..n] + [records[n]] == records;
    }
  }

  /** Passing groups of records on, each shorter than a buffer. */
  lemma {:induction false} AcceptAllKeeps(s: Shared, out: seq<seq<Bytes>>)
    requires s.Valid() && forall g :: g in out ==> |Flat(g)| < BUFFER_SIZE
    ensures AcceptAll(s, out).Valid()
    ensures AcceptAll(s, out).Waiting() == s.Waiting() + Flat(Concat(out))
  {
    hide Flat, Accept, Shared.Waiting, Shared.Valid;
    if out == [] {
      assert s.Waiting() + Flat([]) == s.Waiting() by { FlatOne([]); }
    } else {
      var n := |out| - 1;
      var groups, g := out[..n], out[n];
      assert Concat(out) == Concat(groups) + g;
      hide Concat;
      AcceptAllKeeps(s, groups);
      assert g in out;
      AcceptKeeps(AcceptAll(s, groups), Flat(g));
      FlatAppend(Concat(groups), g);
      assert s.Waiting() + Flat(Concat(groups)) + Flat(g) == s.Waiting() + (Flat(Concat(groups)) + Flat(g));
    }
  }

  // --------------------------------------------- each step keeps the invariant

  /** What a producer's step does to records and bytes, whatever the step. */
  lemma EmitKeeps(w: World, t: Tid, out: seq<seq<Bytes>>)
    requires BytesKept(w) && forall g :: g in out ==> |Flat(g)| < STREAM_SIZE
    ensures BytesKept(Emit(w, t, out))
    ensures forall u :: OfThread(Emit(w, t, out).accepted, u) ==
                        OfThread(w.accepted, u) + if u == t then Concat(out) else []
    ensures Emit(w, t, out).shared.Waiting() == w.shared.Waiting() + Flat(Concat(out))
  {
    hide Accept, AcceptAll, Concat, Flat, BytesOf, OfThread, Tag, AllBytes, Shared.Valid, Shared.Waiting;
    AcceptAllKeeps(w.shared, out);
    TagMeans(t, Concat(out), t);
    BytesOfAppend(w.accepted, Tag(t, Concat(out)));
    var base, waiting, more := AllBytes(w.files) + w.backend.Left(), w.shared.Waiting(), Flat(Concat(out));
    assert base + waiting + more == base + (waiting + more);
    forall u ensures OfThread(w.accepted + Tag(t, Concat(out)), u) ==
                     OfThread(w.accepted, u) + if u == t then Concat(out) else []
    {
      TagMeans(t, Concat(out), u);
      OfThreadAppend(w.accepted, Tag(t, Concat(out)), u);
    }
  }

  /** A producer's step in general: from `s` to `s'` with `out` on the way and `log'` behind it. */
  lemma ThreadStep(w: World, t: Tid, out: seq<seq<Bytes>>, s': Stream, log': seq<Bytes>, repeated': nat)
    requires Inv(w) && t in w.streams && s'.Valid()
    requires forall g :: g in out ==> |Flat(g)| < STREAM_SIZE
    requires Kept(log', OfThread(w.accepted, t) + Concat(out), s'.Pending(), repeated')
    ensures Inv(Emit(w, t, out).(streams := w.streams[t := s'], logs := w.logs[t := log'],
                                 repeated := w.repeated[t := repeated']))
  {
    hide BytesOf, OfThread, Concat, AllBytes, FilesValid, AcceptAll, Flat, Kept;
    EmitKeeps(w, t, out);
    var w' := Emit(w, t, out).(streams := w.streams[t := s'], logs := w.logs[t := log'],
                               repeated := w.repeated[t := repeated']);
    forall u ensures ThreadKept(w', u) {
      if u != t {
        assert ThreadKept(w, u);
        assert OfThread(w.accepted, u) + [] == OfThread(w.accepted, u);
      }
    }
    assert w.stopper.NotCalled?;
  }

  /** What the invariant says about one thread that has a stream. */
  lemma AboutThread(w: World, t: Tid)
    requires Inv(w) && t in w.streams
    ensures t in w.logs && t in w.repeated && w.repeated[t := RepeatedOf(w, t)] == w.repeated
    ensures w.streams[t].Valid()
    ensures Kept(LogOf(w, t), OfThread(w.accepted, t), w.streams[t].Pending(), RepeatedOf(w, t))
  {
    hide OfThread, Kept;
    assert ThreadKept(w, t);
  }

  lemma BeginStep(w: World, t: Tid, flush: bool)
    requires Inv(w) && Enabled(w, BeginRecord(t, flush))
    ensures Inv(Next(w, BeginRecord(t, flush)))
  {
    hide Inv, OfThread, Concat, Flat, Kept, AddRecord;
    AboutThread(w, t);
    var s := w.streams[t];
    var r := Begin(s, flush);
    BeginLog(LogOf(w, t), OfThread(w.accepted, t), s, RepeatedOf(w, t), flush);
    PayloadsFit(s, [], flush);
    ThreadStep(w, t, r.out, r.stream, AddRecord(LogOf(w, t)), RepeatedOf(w, t));
  }

  lemma WriteStep(w: World, t: Tid, p: Bytes)
    requires Inv(w) && Enabled(w, Write(t, p))
    ensures Inv(Next(w, Write(t, p)))
  {
    hide Inv, OfThread, Concat, Flat, Kept, Extend;
    AboutThread(w, t);
    var s := w.streams[t];
    var r := Put(s, p);
    PutLog(LogOf(w, t), OfThread(w.accepted, t), s, RepeatedOf(w, t), p);
    PayloadsFit(s, p, false);
    ThreadStep(w, t, r.out, r.stream, Extend(LogOf(w, t), p), RepeatedOf(w, t));
  }

  lemma TakeBackStep(w: World, t: Tid)
    requires Inv(w) && Enabled(w, TakeBack(t))
    ensures Inv(Next(w, TakeBack(t)))
  {
    hide Inv, OfThread, Flat, Kept, Shorten;
    AboutThread(w, t);
    var s := w.streams[t];
    RetractLog(LogOf(w, t), OfThread(w.accepted, t), s, RepeatedOf(w, t));
    assert OfThread(w.accepted, t) + Concat([]) == OfThread(w.accepted, t);
    ThreadStep(w, t, [], Retract(s), Shorten(LogOf(w, t)), RepeatedOf(w, t));
    assert w.accepted + Tag(t, []) == w.accepted;
    assert Emit(w, t, []) == w;
  }

  lemma UserFlushStep(w: World, t: Tid)
    requires Inv(w) && Enabled(w, UserFlush(t))
    ensures Inv(Next(w, UserFlush(t)))
  {
    hide Inv, OfThread, Concat, Flat, Kept;
    AboutThread(w, t);
    var s := w.streams[t];
    KeptFlush(LogOf(w, t), OfThread(w.accepted, t), s.Pending(), RepeatedOf(w, t), s.complete);
    ConcatOne(s.complete);
    ThreadStep(w, t, [s.complete], s, LogOf(w, t), RepeatedOf(w, t) + |s.complete|);
    assert w.streams[t := s] == w.streams && w.logs[t := LogOf(w, t)] == w.logs;
  }

  lemma DestroyStep(w: World, t: Tid)
    requires Inv(w) && Enabled(w, Destroy(t))
    ensures Inv(Next(w, Destroy(t)))
  {
    hide BytesOf, OfThread, Concat, AllBytes, FilesValid, AcceptAll, Flat, Kept;
    var s := w.streams[t];
    var out := Close(s).out;
    AboutThread(w, t);
    CloseLog(LogOf(w, t), OfThread(w.accepted, t), s, RepeatedOf(w, t));
    PayloadsFit(s, [], false);
    EmitKeeps(w, t, out);
    var w' := Next(w, Destroy(t));
    forall u ensures ThreadKept(w', u) {
      if u != t {
        assert ThreadKept(w, u);
        assert OfThread(w.accepted, u) + [] == OfThread(w.accepted, u);
      }
    }
    assert w.stopper.NotCalled?;
  }

  lemma NewStreamStep(w: World, t: Tid)
    requires Inv(w) && Enabled(w, NewStream(t))
    ensures Inv(Next(w, NewStream(t)))
  {
    hide BytesOf, AllBytes, FilesValid, OfThread, Kept;
    assert EMPTY.Valid();
    var w' := Next(w, NewStream(t));
    forall u ensures ThreadKept(w', u) {
      assert ThreadKept(w, u);
      if u == t {
        NothingYet(OfThread(w.accepted, t), RepeatedOf(w, t));
      }
    }
  }

  lemma NothingYet(sent: seq<Bytes>, repeated: nat)
    requires Kept([], sent, [], repeated)
    ensures repeated == 0 ==> sent == [] && Kept([], sent, [], 0)
  {
  }

  /** Taking the batch moves what waits to the backend, and leaves nothing waiting. */
  lemma TakeStep(w: World)
    requires Inv(w) && Enabled(w, Take)
    ensures Inv(Next(w, Take))
  {
    hide BytesOf, OfThread, AllBytes, FilesValid;
    TakenIsWaiting(w.shared);
    assert FRESH.Valid() && FRESH.Waiting() == [];
    var w' := Next(w, Take);
    assert BytesKept(w');
    RecordsUntouched(w, w');
  }

  lemma RecordsUntouched(w: World, w': World)
    requires RecordsKept(w) && w'.streams == w.streams && w'.logs == w.logs && w'.accepted == w.accepted
    requires w'.repeated == w.repeated
    ensures RecordsKept(w')
  {
    hide OfThread, Kept;
    forall t ensures ThreadKept(w', t) {
      assert ThreadKept(w, t);
    }
  }

  lemma RollStep(w: World)
    requires Inv(w) && Enabled(w, RollFile)
    ensures Inv(Next(w, RollFile))
  {
    hide BytesOf, OfThread, Flat, Kept, FilesValid, Roll, AllBytes, Concat, Sum;
    var need := TotalSize(w.backend.batch);
    LastFile(w.files, 0, w.limit);
    RollKeeps(w.files, w.written, need, w.limit);
    LastFile(Roll(w.files, w.written, need, w.limit), need, w.limit);
    RecordsUntouched(w, Next(w, RollFile));
  }

  lemma LastFile(files: seq<File>, left: nat, limit: nat)
    requires FilesValid(files, left, limit)
    ensures files != [] && |files[|files| - 1].bytes| + left == Sum(files[|files| - 1].sizes)
  {
    hide Sum, Packed;
  }

  lemma WriteBufferStep(w: World)
    requires Inv(w) && Enabled(w, WriteBuffer)
    ensures Inv(Next(w, WriteBuffer))
  {
    hide BytesOf, OfThread, FilesValid, AllBytes, Kept, Sum;
    var todo := w.backend.todo;
    var w' := Next(w, WriteBuffer);
    assert todo == [todo[0]] + todo[1..];
    FlatAppend([todo[0]], todo[1..]);
    FlatOne(todo[0]);
    WriteKeeps(w.files, todo[0], |Flat(todo[1..])|, w.limit);
    assert w'.files[|w'.files| - 1].sizes == w.files[|w.files| - 1].sizes;
    RecordsUntouched(w, w');
    assert AllBytes(w.files) + Flat(todo) == AllBytes(w'.files) + Flat(todo[1..]);
  }

  lemma EndBatchStep(w: World)
    requires Inv(w) && Enabled(w, EndBatch)
    ensures Inv(Next(w, EndBatch))
  {
    hide BytesOf, OfThread, AllBytes, Kept, Sum, FilesValid;
    LastFile(w.files, 0, w.limit);
    RecordsUntouched(w, Next(w, EndBatch));
  }

  /** A reading of zero, and everything the stopper does after it. */
  lemma StopperStep(w: World, e: Event)
    requires Inv(w) && Enabled(w, e) && (e.CallStop? || e.Poll? || e.ClearRunning? || e.Join? || e.Test? || e.Wait?)
    ensures Inv(Next(w, e))
  {
    hide BytesOf, OfThread, AllBytes, FilesValid, Kept, Sum;
    if e.Poll? && |w.shared.current| == 0 {
      ZeroMeansDrained(w.shared);
    }
    RecordsUntouched(w, Next(w, e));
  }

  lemma LimitFixed(w: World, e: Event)
    requires Enabled(w, e)
    ensures Next(w, e).limit == w.limit
  {
  }

  lemma StepKeeps(w: World, e: Event)
    requires Inv(w) && Enabled(w, e)
    ensures Inv(Next(w, e)) && Next(w, e).limit == w.limit
  {
    LimitFixed(w, e);
    hide Inv, Next, Enabled;
    match e
    case NewStream(t) => NewStreamStep(w, t);
    case BeginRecord(t, flush) => BeginStep(w, t, flush);
    case Write(t, p) => WriteStep(w, t, p);
    case TakeBack(t) => TakeBackStep(w, t);
    case UserFlush(t) => UserFlushStep(w, t);
    case Destroy(t) => DestroyStep(w, t);
    case Take => TakeStep(w);
    case RollFile => RollStep(w);
    case WriteBuffer => WriteBufferStep(w);
    case EndBatch => EndBatchStep(w);
    case _ => StopperStep(w, e);
  }

  // --------------------------------------------------------------- all runs

  datatype Outcome = Reached(world: World) | NotARun

  /** The state after a run from the start, if each event was possible in its turn. */
  function After(limit: nat, events: seq<Event>): Outcome {
    if events == [] then Reached(Start(limit))
    else
      match After(limit, events[..|events| - 1])
      case NotARun => NotARun
      case Reached(w) =>
        if Enabled(w, events[|events| - 1]) then Reached(Next(w, events[|events| - 1])) else NotARun
  }

  lemma StartHolds(limit: nat)
    ensures Inv(Start(limit))
  {
  }

  lemma {:induction false} AlwaysInv(limit: nat, events: seq<Event>, w: World)
    requires After(limit, events) == Reached(w)
    ensures Inv(w) && w.limit == limit
  {
    hide Inv, Next, Enabled;
    if events == [] {
      StartHolds(limit);
    } else {
      var n := |events| - 1;
      var v := After(limit, events[..n]).world;
      AlwaysInv(limit, events[..n], v);
      StepKeeps(v, events[n]);
    }
  }

  /** What a thread streams in a run, by its own calls alone: each record it begins, the bytes it
      writes, less the three that the longer header takes back. */
  function Streamed(events: seq<Event>, t: Tid): seq<Bytes> {
    if events == [] then []
    else
      var before := Streamed(events[..|events| - 1], t);
      match events[|events| - 1]
      case BeginRecord(u, _) => if u == t then AddRecord(before) else before
      case Write(u, p) => if u == t then Extend(before, p) else before
      case TakeBack(u) => if u == t then Shorten(before) else before
      case _ => before
  }

  lemma LogStep(w: World, e: Event, t: Tid)
    requires Enabled(w, e)
    ensures LogOf(Next(w, e), t) ==
            match e
            case BeginRecord(u, _) => if u == t then AddRecord(LogOf(w, t)) else LogOf(w, t)
            case Write(u, p) => if u == t then Extend(LogOf(w, t), p) else LogOf(w, t)
            case TakeBack(u) => if u == t then Shorten(LogOf(w, t)) else LogOf(w, t)
            case _ => LogOf(w, t)
  {
    hide Begin, Put, Retract, Close, AcceptAll, Tag, Roll, WriteBytes, AddRecord, Extend, Shorten, Concat;
  }

  /** The history of a thread is what it streams. */
  lemma {:induction false} LogIsStreamed(limit: nat, events: seq<Event>, w: World, t: Tid)
    requires After(limit, events) == Reached(w)
    ensures LogOf(w, t) == Streamed(events, t)
  {
    hide Next, Enabled, LogOf, AddRecord, Extend, Shorten;
    if events == [] {
      assert LogOf(Start(limit), t) == [] by { NoLogYet(limit, t); }
    } else {
      var n := |events| - 1;
      var v := After(limit, events[..n]).world;
      LogIsStreamed(limit, events[..n], v, t);
      LogStep(v, events[n], t);
    }
  }

  lemma NoLogYet(limit: nat, t: Tid)
    ensures LogOf(Start(limit), t) == []
  {
  }

  /** In every reachable state, the bytes that `append` took, in the order of the lock, are the
      files, then the backend's unwritten batch, then `_buffers`, then `_currentBuffer`; and the
      records of each thread are all among those taken or in its stream, in its order. */
  lemma NothingLost(limit: nat, events: seq<Event>, w: World)
    requires After(limit, events) == Reached(w)
    ensures BytesOf(w.accepted) == AllBytes(w.files) + w.backend.Left() + Flat(w.shared.buffers) + w.shared.current
    ensures forall t :: Inside(Streamed(events, t), OfThread(w.accepted, t) + PendingOf(w, t))
    ensures forall t :: OfThread(w.accepted, t) + PendingOf(w, t) == Streamed(events, t) <==> RepeatedOf(w, t) == 0
  {
    hide BytesOf, OfThread, AllBytes, FilesValid, Kept, Inside, Streamed;
    AlwaysInv(limit, events, w);
    forall t
      ensures OfThread(w.accepted, t) + PendingOf(w, t) == Streamed(events, t) <==> RepeatedOf(w, t) == 0
      ensures Inside(Streamed(events, t), OfThread(w.accepted, t) + PendingOf(w, t))
    {
      LogIsStreamed(limit, events, w, t);
      assert ThreadKept(w, t);
      KeptExactly(LogOf(w, t), OfThread(w.accepted, t), PendingOf(w, t), RepeatedOf(w, t));
    }
    assert AllBytes(w.files) + w.backend.Left() + (Flat(w.shared.buffers) + w.shared.current) ==
           AllBytes(w.files) + w.backend.Left() + Flat(w.shared.buffers) + w.shared.current;
  }

  /** End to end: when `stop` has returned, the files together are a sequence of whole records in
      which every record that a thread streamed appears, in that thread's order; and exactly those,
      each once, if and only if no flush by a user repeated any of them. */
  lemma Delivered(limit: nat, events: seq<Event>, w: World)
    requires After(limit, events) == Reached(w) && w.stopper.Stopped?
    ensures AllBytes(w.files) == BytesOf(w.accepted)
    ensures forall t :: Inside(Streamed(events, t), OfThread(w.accepted, t))
    ensures forall t :: OfThread(w.accepted, t) == Streamed(events, t) <==> RepeatedOf(w, t) == 0
    ensures w.streams == map[] && w.shared.Waiting() == []
  {
    hide BytesOf, OfThread, AllBytes, FilesValid, Kept, Inside, Streamed;
    AlwaysInv(limit, events, w);
    NothingLost(limit, events, w);
    forall t
      ensures OfThread(w.accepted, t) == Streamed(events, t) <==> RepeatedOf(w, t) == 0
      ensures Inside(Streamed(events, t), OfThread(w.accepted, t))
    {
      assert OfThread(w.accepted, t) + [] == OfThread(w.accepted, t);
    }
    assert w.backend.Left() == [];
  }

  /** What a thread's stream still holds, after each kind of call. */
  lemma WhatStaysPending(w: World, e: Event, t: Tid)
    requires Inv(w) && Enabled(w, e)
    ensures PendingOf(Next(w, e), t) ==
            match e
            case BeginRecord(u, flush) =>
              if u != t then PendingOf(w, t) else if flush then [[]] else AddRecord(PendingOf(w, t))
            case Write(u, p) =>
              if u != t then PendingOf(w, t)
              else if |w.streams[t].Content()| + |p| < STREAM_SIZE then Extend(PendingOf(w, t), p)
              else [w.streams[t].partial + p]
            case TakeBack(u) => if u != t then PendingOf(w, t) else Shorten(PendingOf(w, t))
            case Destroy(u) => if u != t then PendingOf(w, t) else []
            case _ => PendingOf(w, t)
  {
    hide AcceptAll, Tag, Roll, WriteBytes, Flat, Concat, OfThread, BytesKept, FilesKept, HandshakeKept, Kept;
    match e
    case BeginRecord(u, flush) => BeginSends(w.streams[u], flush);
    case Write(u, p) => PutSends(w.streams[u], p);
    case NewStream(u) => StreamsHaveLogs(w, u);
    case _ =>
  }

  /** Who has a stream. */
  lemma WhoStreams(w: World, e: Event, t: Tid)
    requires Enabled(w, e)
    ensures t in Next(w, e).streams <==> e == NewStream(t) || (t in w.streams && e != Destroy(t))
  {
    hide AcceptAll, Tag, Roll, WriteBytes, Flat, Concat, Begin, Put, Retract, Close;
  }

  lemma StreamsHaveLogs(w: World, t: Tid)
    requires Inv(w) && t !in w.logs
    ensures t !in w.streams
  {
    hide OfThread, BytesKept, FilesKept, HandshakeKept, Kept;
  }

  /** A write is possible exactly where `append` returns, and does what it does. */
  lemma WritesThatReturn(w: World, t: Tid, p: Bytes)
    requires Inv(w) && t in w.streams && w.streams[t].open
    ensures Enabled(w, Write(t, p)) <==> exists fuel: nat :: Run(w.streams[t], p, [], fuel).Some?
    ensures forall fuel: nat :: Run(w.streams[t], p, [], fuel).Some? ==>
              Run(w.streams[t], p, [], fuel).value.stream == Next(w, Write(t, p)).streams[t]
  {
    hide Inv, Run;
    AboutThread(w, t);
    AppendReturns(w.streams[t], p);
  }

  /** A flush by a user repeats nothing when it finds no complete record. */
  ghost predicate FlushesFindNothing(limit: nat, events: seq<Event>, t: Tid) {
    forall i :: 0 <= i < |events| && events[i] == UserFlush(t) ==> FoundNothing(After(limit, events[..i]), t)
  }

  predicate FoundNothing(o: Outcome, t: Tid) {
    o.Reached? ==> t in o.world.streams ==> o.world.streams[t].complete == []
  }

  /** In terms of the run: something is repeated if and only if a flush by a user found a complete
      record. */
  lemma {:induction false} RepeatedByFlush(limit: nat, events: seq<Event>, w: World, t: Tid)
    requires After(limit, events) == Reached(w)
    ensures RepeatedOf(w, t) == 0 <==> FlushesFindNothing(limit, events, t)
  {
    if events == [] {
    } else {
      var n := |events| - 1;
      var v := After(limit, events[..n]).world;
      RepeatedByFlush(limit, events[..n], v, t);
      AlwaysInv(limit, events[..n], v);
      RepeatedStep(v, events[n], t);
      OneMoreEvent(limit, events, t);
    }
  }

  lemma RepeatedStep(w: World, e: Event, t: Tid)
    requires Inv(w) && Enabled(w, e)
    ensures RepeatedOf(Next(w, e), t) ==
            RepeatedOf(w, t) + if e == UserFlush(t) then |w.streams[t].complete| else 0
  {
    hide Inv, BytesKept, FilesKept, HandshakeKept, ThreadKept;
    InvParts(w);
  }

  lemma OneMoreEvent(limit: nat, events: seq<Event>, t: Tid)
    requires events != []
    ensures var n := |events| - 1;
            FlushesFindNothing(limit, events, t) <==>
            && FlushesFindNothing(limit, events[..n], t)
            && (events[n] == UserFlush(t) ==> FoundNothing(After(limit, events[..n]), t))
  {
    hide After, FoundNothing;
    var n := |events| - 1;
    assert forall i :: 0 <= i < n ==> events[..n][i] == events[i] && events[..n][..i] == events[..i];
  }

  lemma InvParts(w: World)
    requires Inv(w)
    ensures RecordsKept(w) && BytesKept(w) && FilesKept(w) && HandshakeKept(w)
  {
  }

  /** The sizes of the batches of a run, in the order in which the backend turned to them. */
  function BatchSizes(limit: nat, events: seq<Event>): seq<nat> {
    if events == [] then []
    else
      var n := |events| - 1;
      BatchSizes(limit, events[..n]) +
      match After(limit, events[..n])
      case Reached(v) => if events[n] == RollFile && v.backend.HasBatch? then [|Flat(v.backend.batch)|] else []
      case NotARun => []
  }

  lemma SizesStep(w: World, e: Event)
    requires Inv(w) && Enabled(w, e)
    ensures AllSizes(Next(w, e).files) ==
            AllSizes(w.files) + if e == RollFile then [|Flat(w.backend.batch)|] else []
  {
    InvParts(w);
    hide Inv, RecordsKept, BytesKept, HandshakeKept, AllSizes, Sum, Flat, FilesValid;
    hide Begin, Put, Retract, Close, AcceptAll, Tag;
    assert AllSizes(w.files) + [] == AllSizes(w.files);
    if e == RollFile {
      RollKeeps(w.files, w.written, |Flat(w.backend.batch)|, w.limit);
    } else if e == WriteBuffer {
      SameSizes(w.files, w.backend.todo[0]);
    } else {
      FilesUntouched(w, e);
    }
  }

  lemma FilesUntouched(w: World, e: Event)
    requires Enabled(w, e) && e != RollFile && e != WriteBuffer
    ensures Next(w, e).files == w.files
  {
    hide Begin, Put, Retract, Close, AcceptAll, Tag, Accept, Taken, Concat, Flat;
  }

  lemma SameSizes(files: seq<File>, p: Bytes)
    requires files != []
    ensures AllSizes(WriteBytes(files, p)) == AllSizes(files)
  {
    assert SizesOf(WriteBytes(files, p)) == SizesOf(files);
  }

  lemma {:induction false} SizesAreBatches(limit: nat, events: seq<Event>, w: World)
    requires After(limit, events) == Reached(w)
    ensures AllSizes(w.files) == BatchSizes(limit, events)
  {
    hide Inv, Next, Enabled, AllSizes;
    if events == [] {
      NoBatchYet(limit);
    } else {
      var n := |events| - 1;
      var v := After(limit, events[..n]).world;
      SizesAreBatches(limit, events[..n], v);
      AlwaysInv(limit, events[..n], v);
      SizesStep(v, events[n]);
      RollHasBatch(v, events[n]);
    }
  }

  lemma NoBatchYet(limit: nat)
    ensures AllSizes(Start(limit).files) == []
  {
    assert SizesOf([NO_FILE]) == [[]];
    ConcatOne<nat>([]);
  }

  lemma RollHasBatch(w: World, e: Event)
    requires Enabled(w, e)
    ensures e == RollFile ==> w.backend.HasBatch?
  {
  }

  /** The log files of a run.  Every batch went to one file, in order; each file is within the limit
      or holds one batch, and a new one was begun only because the next batch would not have fitted;
      and between batches the files' lengths are those of their batches. */
  lemma RollsOnlyWhenNeeded(limit: nat, events: seq<Event>, w: World)
    requires After(limit, events) == Reached(w)
    ensures AllSizes(w.files) == BatchSizes(limit, events)
    ensures forall i :: 0 <= i < |w.files| ==> Within(SizesOf(w.files)[i], limit)
    ensures forall i :: 0 <= i < |w.files| - 1 ==>
              BegunInTime(SizesOf(w.files), i, limit) && |w.files[i].bytes| == Sum(w.files[i].sizes)
    ensures !w.backend.Writing? ==>
              w.files != [] && w.written == |w.files[|w.files| - 1].bytes| == Sum(w.files[|w.files| - 1].sizes)
  {
    hide Inv, After, AllSizes, Sum, BatchSizes, SizesOf;
    AlwaysInv(limit, events, w);
    SizesAreBatches(limit, events, w);
    InvParts(w);
    hide RecordsKept, BytesKept, HandshakeKept, Within, BegunInTime;
  }

  /** The backend waits on exactly while nothing waits for it, and takes a batch otherwise, on every
      turn and not only at the end. */
  lemma WaitsForNothingOnly(w: World)
    requires Inv(w) && w.backend.AtWait?
    ensures Enabled(w, Wait) <==> w.running && w.shared.Waiting() == []
    ensures Enabled(w, Take) <==> !w.running || w.shared.Waiting() != []
  {
    hide RecordsKept, FilesKept, HandshakeKept, BytesOf, AllBytes;
    if |w.shared.current| == 0 {
      ZeroMeansDrained(w.shared);
    }
  }

  // ------------------------------------------------------------- a whole run

  /** The calls of a thread that logs one record and is destroyed with its stream. */
  function RecordCalls(t: Tid, p: Bytes): seq<Event> {
    [NewStream(t), BeginRecord(t, false), Write(t, p), Destroy(t)]
  }

  /** The backend's steps from the end of a wait to the next test of `_running`, for one buffer. */
  const BATCH_STEPS: seq<Event> := [Take, RollFile, WriteBuffer, EndBatch, Test]

  /** From the zero that `stop` reads to its return. */
  const STOP_STEPS: seq<Event> := [Poll, ClearRunning] + BATCH_STEPS + [Join]

  /** The whole run, from the first call to the return of `stop`. */
  function WholeRun(t: Tid, p: Bytes): seq<Event> {
    RecordCalls(t, p) + [Test, CallStop] + (if p == [] then [] else BATCH_STEPS) + STOP_STEPS
  }

  /** One event more, and what it adds to what a thread streams. */
  lemma OneMore(limit: nat, t: Tid, events: seq<Event>, w: World, e: Event)
    requires After(limit, events) == Reached(w) && Enabled(w, e)
    ensures After(limit, events + [e]) == Reached(Next(w, e))
    ensures Streamed(events + [e], t) ==
            match e
            case BeginRecord(u, _) => if u == t then AddRecord(Streamed(events, t)) else Streamed(events, t)
            case Write(u, p) => if u == t then Extend(Streamed(events, t), p) else Streamed(events, t)
            case TakeBack(u) => if u == t then Shorten(Streamed(events, t)) else Streamed(events, t)
            case _ => Streamed(events, t)
  {
    hide Next, Enabled, AddRecord, Extend, Shorten;
    assert (events + [e])[..|events|] == events;
  }

  lemma NothingYetRun(limit: nat)
    ensures After(limit, []) == Reached(Start(limit))
  {
  }

  lemma OnePayload(t: Tid, p: Bytes)
    requires |p| < STREAM_SIZE
    ensures AcceptAll(FRESH, [[p]]) == Shared(p, true, [])
    ensures Tag(t, Concat([[p]])) == [Tagged(t, p)] && Tag(t, Concat([])) == []
  {
    ConcatOne([p]);
    FlatOne(p);
    assert [[p]][..0] == [] && [] + p == p;
    assert AcceptAll(FRESH, [[p]]) == Accept(AcceptAll(FRESH, []), Flat([p]));
  }

  lemma OneRecord(limit: nat, t: Tid, p: Bytes)
    requires |p| < STREAM_SIZE
    ensures After(limit, RecordCalls(t, p)).Reached? && Streamed(RecordCalls(t, p), t) == [p]
    ensures var w := After(limit, RecordCalls(t, p)).world;
            && w.shared == Shared(p, true, []) && w.streams == map[] && w.stopper.NotCalled? && w.limit == limit
            && w.running && w.backend == AtTest && w.files == [NO_FILE] && w.accepted == [Tagged(t, p)]
  {
    hide After, Streamed, Concat, Flat;
    OnePayload(t, p);
    NothingYetRun(limit);
    NothingStreamed(t);
    var events, w := [], Start(limit);
    OneMore(limit, t, events, w, NewStream(t));
    events, w := events + [NewStream(t)], Next(w, NewStream(t));
    OneMore(limit, t, events, w, BeginRecord(t, false));
    events, w := events + [BeginRecord(t, false)], Next(w, BeginRecord(t, false));
    assert w.streams[t] == Stream([], [], true);
    OneMore(limit, t, events, w, Write(t, p));
    events, w := events + [Write(t, p)], Next(w, Write(t, p));
    FlatOne(p);
    assert [] + p == p;
    assert w.streams[t] == Stream([], p, true);
    assert w.streams[t].Pending() == [] + [p] == [p];
    OneMore(limit, t, events, w, Destroy(t));
    events, w := events + [Destroy(t)], Next(w, Destroy(t));
    assert events == RecordCalls(t, p) && w.streams == map[];
  }

  lemma NothingStreamed(t: Tid)
    ensures Streamed([], t) == []
  {
  }

  lemma TakeAndRoll(limit: nat, t: Tid, before: seq<Event>, v: World)
    requires After(limit, before) == Reached(v) && v.backend == AtWait && !MustWait(v.shared, v.running)
    requires v.shared.buffers == [] && v.files != []
    ensures var events := before + [Take] + [RollFile];
            && After(limit, events).Reached? && Streamed(events, t) == Streamed(before, t)
            && var w := After(limit, events).world;
            && w.shared == FRESH && w.backend.Writing? && w.backend.todo == [v.shared.current] && w.files != []
            && w.stopper == v.stopper && w.streams == v.streams && w.accepted == v.accepted && w.running == v.running
  {
    hide After, Streamed, Roll, Flat;
    OneMore(limit, t, before, v, Take);
    var w := Next(v, Take);
    assert w.backend == HasBatch([v.shared.current]);
    OneMore(limit, t, before + [Take], w, RollFile);
  }

  lemma WriteAndTest(limit: nat, t: Tid, before: seq<Event>, v: World)
    requires After(limit, before) == Reached(v) && v.backend.Writing? && |v.backend.todo| == 1 && v.files != []
    ensures var events := before + [WriteBuffer] + [EndBatch] + [Test];
            && After(limit, events).Reached? && Streamed(events, t) == Streamed(before, t)
            && var w := After(limit, events).world;
            && w.shared == v.shared && w.backend == (if v.running then AtWait else Returned) && w.files != []
            && w.stopper == v.stopper && w.streams == v.streams && w.accepted == v.accepted && w.running == v.running
  {
    hide After, Streamed, WriteBytes, Flat;
    OneMore(limit, t, before, v, WriteBuffer);
    var w := Next(v, WriteBuffer);
    assert v.backend.todo[1..] == [];
    OneMore(limit, t, before + [WriteBuffer], w, EndBatch);
    OneMore(limit, t, before + [WriteBuffer] + [EndBatch], Next(w, EndBatch), Test);
  }

  lemma OneBatch(limit: nat, t: Tid, before: seq<Event>, v: World)
    requires After(limit, before) == Reached(v) && v.backend == AtWait && !MustWait(v.shared, v.running)
    requires v.shared.buffers == [] && v.files != []
    ensures var events := before + BATCH_STEPS;
            && After(limit, events).Reached? && Streamed(events, t) == Streamed(before, t)
            && var w := After(limit, events).world;
            && w.shared == FRESH && w.backend == (if v.running then AtWait else Returned) && w.files != []
            && w.stopper == v.stopper && w.streams == v.streams && w.accepted == v.accepted && w.running == v.running
  {
    hide After, Streamed, Flat, Next, Enabled;
    TakeAndRoll(limit, t, before, v);
    var events := before + [Take] + [RollFile];
    WriteAndTest(limit, t, events, After(limit, events).world);
    assert events + [WriteBuffer] + [EndBatch] + [Test] == before + BATCH_STEPS;
  }

  lemma StopSteps(limit: nat, t: Tid, before: seq<Event>, v: World)
    requires After(limit, before) == Reached(v) && v.backend == AtWait && v.shared == FRESH && v.running
    requires v.stopper == Polling && v.files != []
    ensures var events := before + STOP_STEPS;
            && After(limit, events).Reached? && Streamed(events, t) == Streamed(before, t)
            && var w := After(limit, events).world;
            w.stopper.Stopped? && w.accepted == v.accepted
  {
    hide After, Streamed;
    OneMore(limit, t, before, v, Poll);
    var events, w := before + [Poll], Next(v, Poll);
    OneMore(limit, t, events, w, ClearRunning);
    events, w := events + [ClearRunning], Next(w, ClearRunning);
    OneBatch(limit, t, events, w);
    events := events + BATCH_STEPS;
    OneMore(limit, t, events, After(limit, events).world, Join);
    assert events + [Join] == before + STOP_STEPS;
  }

  lemma OneTagged(t: Tid, p: Bytes)
    ensures BytesOf([Tagged(t, p)]) == p
  {
    assert [Tagged(t, p)][..0] == [];
  }

  /** Such runs exist, with any thread, any record shorter than the stream's buffer and any limit:
      `stop` returns, and the record is what the files hold. */
  lemma RecordReachesFile(limit: nat, t: Tid, p: Bytes)
    requires |p| < STREAM_SIZE
    ensures After(limit, WholeRun(t, p)).Reached? && Streamed(WholeRun(t, p), t) == [p]
    ensures var w := After(limit, WholeRun(t, p)).world;
            w.stopper.Stopped? && AllBytes(w.files) == p
  {
    hide After, Streamed, AllBytes, BytesOf, OfThread, Inside;
    OneRecord(limit, t, p);
    var events := RecordCalls(t, p);
    var w := After(limit, events).world;
    OneMore(limit, t, events, w, Test);
    events, w := events + [Test], Next(w, Test);
    OneMore(limit, t, events, w, CallStop);
    events, w := events + [CallStop], Next(w, CallStop);
    if p != [] {
      OneBatch(limit, t, events, w);
      events := events + BATCH_STEPS;
      w := After(limit, events).world;
    }
    StopSteps(limit, t, events, w);
    events := events + STOP_STEPS;
    w := After(limit, events).world;
    assert events == WholeRun(t, p);
    Delivered(limit, events, w);
    OneTagged(t, p);
  }

  // ----------------------------------------------------- shutdown completes

  /** The steps of the stopper and the backend that change something. */
  predicate Progress(w: World, e: Event) {
    && Enabled(w, e)
    && match e
       case Poll => |w.shared.current| == 0
       case ClearRunning => true
       case Join => true
       case Test => true
       case Take => true
       case RollFile => true
       case WriteBuffer => true
       case EndBatch => true
       case _ => false
  }

  /** How far `stop` is from returning. */
  function Distance(w: World): nat {
    StopperDistance(w.stopper)
    + (if |w.shared.current| > 0 then |w.shared.buffers| + 10 else 0)
    + BackendDistance(w.backend, w.running)
  }

  function StopperDistance(s: Stopper): nat {
    match s
    case NotCalled => 80
    case Polling => 60
    case ReadZero => 40
    case Joining => 20
    case Stopped => 0
  }

  function BackendDistance(pc: Pc, running: bool): nat {
    match pc
    case AtTest => 2
    case AtWait => if running then 1 else 7
    case HasBatch(batch) => |batch| + 5
    case Writing(todo, _) => |todo| + 4
    case Returned => 0
  }

  /** Once `stop` has been called, every such step brings it closer to its return, and until it has
      returned one of them is possible: whoever is scheduled, the shutdown ends, and no wakeup that
      came too early can prevent it. */
  lemma ShutdownAdvances(w: World, e: Event)
    requires Inv(w) && !w.stopper.NotCalled? && Progress(w, e)
    ensures Distance(Next(w, e)) < Distance(w)
  {
    hide RecordsKept, FilesKept, Flat;
    if e.Take? {
      assert w.shared.buffers != [] ==> |w.shared.current| > 0;
    }
  }

  lemma ShutdownNeverStuck(w: World)
    requires Inv(w) && !w.stopper.NotCalled? && !w.stopper.Stopped?
    ensures exists e :: Progress(w, e)
  {
    hide RecordsKept, Flat;
    var e :=
      if w.stopper.ReadZero? then ClearRunning
      else if w.stopper.Polling? && |w.shared.current| == 0 then Poll
      else if w.backend.AtTest? then Test
      else if w.backend.AtWait? then Take
      else if w.backend.HasBatch? then RollFile
      else if w.backend.Writing? then (if w.backend.todo != [] then WriteBuffer else EndBatch)
      else Join;
    assert Progress(w, e);
  }

  /** Every other step that is possible then only polls or waits. */
  lemma OtherStepsIdle(w: World, e: Event)
    requires Inv(w) && !w.stopper.NotCalled? && Enabled(w, e) && !Progress(w, e)
    ensures Next(w, e) == w
  {
    hide RecordsKept, BytesKept, FilesKept;
  }

  /** A run that goes on from a state. */
  function AfterFrom(w: World, events: seq<Event>): Outcome
    decreases |events|
  {
    if events == [] then Reached(w)
    else if Enabled(w, events[0]) then AfterFrom(Next(w, events[0]), events[1..])
    else NotARun
  }

  /** How many of its steps bring the shutdown closer. */
  function Advances(w: World, events: seq<Event>): nat
    requires AfterFrom(w, events).Reached?
    decreases |events|
  {
    if events == [] then 0
    else (if Progress(w, events[0]) then 1 else 0) + Advances(Next(w, events[0]), events[1..])
  }

  lemma StopStaysCalled(w: World, e: Event)
    requires Inv(w) && !w.stopper.NotCalled? && Enabled(w, e)
    ensures !Next(w, e).stopper.NotCalled?
  {
    hide RecordsKept, BytesKept, FilesKept;
  }

  /** Once `stop` has been called, however the threads are scheduled, at most `Distance(w)` more
      steps change anything, all others leave the state as it is, and after that many `stop` has
      returned. */
  lemma {:induction false} StopReturns(w: World, events: seq<Event>)
    requires Inv(w) && !w.stopper.NotCalled? && AfterFrom(w, events).Reached?
    ensures var w' := AfterFrom(w, events).world;
            && Inv(w') && !w'.stopper.NotCalled?
            && Advances(w, events) + Distance(w') <= Distance(w)
            && (Advances(w, events) == Distance(w) ==> w'.stopper.Stopped?)
            && ((forall e :: !Progress(w', e)) <==> w'.stopper.Stopped? && w'.backend.Returned?)
    decreases |events|
  {
    hide Inv, Next, Enabled, Progress, Distance;
    if events == [] {
      NothingLeft(w);
    } else {
      var e := events[0];
      StepKeeps(w, e);
      StopStaysCalled(w, e);
      if Progress(w, e) {
        ShutdownAdvances(w, e);
      } else {
        OtherStepsIdle(w, e);
      }
      StopReturns(Next(w, e), events[1..]);
    }
  }

  lemma NothingLeft(w: World)
    requires Inv(w) && !w.stopper.NotCalled?
    ensures Distance(w) == 0 ==> w.stopper.Stopped?
    ensures (forall e :: !Progress(w, e)) <==> w.stopper.Stopped? && w.backend.Returned?
  {
    hide RecordsKept, BytesKept, FilesKept;
    if !w.stopper.Stopped? {
      ShutdownNeverStuck(w);
    } else {
      assert w.backend.Returned?;
      forall e ensures !Progress(w, e) {
      }
    }
  }
}
