/** The per-thread log stream of `log/logStream.cpp`, in full-buffer mode. */
module LogStream {
  import opened Bits
  import opened Sequences
  import opened Wrappers

  type Bytes = seq<Byte>

  /** `kBufferSize`. */
  const STREAM_SIZE := 100_000

  // ------------------------------------------------------ records as values

  /** The bytes of a list of records, or of buffers. */
  function Flat(parts: seq<Bytes>): Bytes { Concat(parts) }

  lemma FlatAppend(a: seq<Bytes>, b: seq<Bytes>)
    ensures Flat(a + b) == Flat(a) + Flat(b)
  {
    ConcatAppend(a, b);
  }

  lemma FlatOne(p: Bytes)
    ensures Flat([p]) == p && Flat([]) == []
  {
    ConcatOne(p);
  }

  /** The buffer: whole records up to `_end`, then the record in progress up to `_cur`. */
  datatype Stream = Stream(complete: seq<Bytes>, partial: Bytes, open: bool) {
    function Content(): Bytes { Flat(complete) + partial }
    function Room(): int { STREAM_SIZE - |Content()| }
    predicate Valid() { Room() > 0 && (!open ==> partial == []) }
    /** The records still in the buffer. */
    function Pending(): seq<Bytes> { if open then complete + [partial] else complete }
  }

  const EMPTY := Stream([], [], false)

  /** A stream after one call, and the groups of whole records that it passed to `g_output`. */
  datatype Effect = Effect(stream: Stream, out: seq<seq<Bytes>>)

  /** The first lines of `makeLog`: what is in the buffer is complete now. */
  function Begin(s: Stream, needFlush: bool): Effect {
    if needFlush then Effect(Stream([], [], true), [s.Pending()])
    else Effect(Stream(s.Pending(), [], true), [])
  }

  /** `append`: straight into the buffer, or after passing on the complete records. */
  function Put(s: Stream, p: Bytes): Effect {
    if s.Room() > |p| then Effect(Stream(s.complete, s.partial + p, s.open), [])
    else Effect(Stream([], s.partial + p, s.open), [s.complete])
  }

  function Retract(s: Stream): Stream
    requires |s.partial| >= 3
  {
    Stream(s.complete, s.partial[..|s.partial| - 3], s.open)
  }

  /** The destructor. */
  function Close(s: Stream): Effect {
    Effect(Stream([], [], false), [s.Pending()])
  }

  // ------------------------------------------ what the calls mean for records

  /** The log of a thread: every record so far, the last one possibly unfinished. */
  function AddRecord(log: seq<Bytes>): seq<Bytes> { log + [[]] }

  function Extend(log: seq<Bytes>, p: Bytes): seq<Bytes> {
    if log == [] then [] else log[|log| - 1 := log[|log| - 1] + p]
  }

  function Shorten(log: seq<Bytes>): seq<Bytes> {
    if log == [] || |log[|log| - 1]| < 3 then log
    else log[|log| - 1 := log[|log| - 1][..|log[|log| - 1]| - 3]]
  }

  /** How a thread's log stands: `sent` are the records that went out, `pending` those still in the
      buffer.  Nothing of the log is missing and nothing is out of order, and `repeated` records
      went out once more than they should. */
  predicate Kept(log: seq<Bytes>, sent: seq<Bytes>, pending: seq<Bytes>, repeated: nat) {
    && |pending| <= |log| && log[|log| - |pending|..] == pending
    && Inside(log[..|log| - |pending|], sent)
    && |sent| + |pending| == |log| + repeated
  }

  /** A call that turns the pending records into `more`, which go out, and `kept`. */
  lemma KeptStep(log: seq<Bytes>, sent: seq<Bytes>, pending: seq<Bytes>, repeated: nat,
                 log': seq<Bytes>, more: seq<Bytes>, kept: seq<Bytes>)
    requires Kept(log, sent, pending, repeated)
    requires log' == log[..|log| - |pending|] + (more + kept)
    ensures Kept(log', sent + more, kept, repeated)
  {
    var front := log[..|log| - |pending|];
    InsideBoth(front, sent, more);
    assert log' == (front + more) + kept;
    assert log'[..|log'| - |kept|] == front + more;
  }

  /** A flush in between passes records on and keeps them as well. */
  lemma KeptFlush(log: seq<Bytes>, sent: seq<Bytes>, pending: seq<Bytes>, repeated: nat, more: seq<Bytes>)
    requires Kept(log, sent, pending, repeated)
    ensures Kept(log, sent + more, pending, repeated + |more|)
  {
    InsideMore(log[..|log| - |pending|], sent, more);
  }

  /** What went out and what is pending are the log if and only if nothing was repeated. */
  lemma KeptExactly(log: seq<Bytes>, sent: seq<Bytes>, pending: seq<Bytes>, repeated: nat)
    requires Kept(log, sent, pending, repeated)
    ensures sent + pending == log <==> repeated == 0
    ensures Inside(log, sent + pending)
  {
    var front := log[..|log| - |pending|];
    assert log == front + pending;
    InsideBoth(front, sent, pending);
    InsideSize(front, sent);
  }

  /** The last record of the log is the last pending one. */
  lemma LastOfLog(log: seq<Bytes>, pending: seq<Bytes>, p: Bytes)
    requires pending != [] && |pending| <= |log| && log[|log| - |pending|..] == pending
    ensures Extend(log, p) == log[..|log| - |pending|] + Extend(pending, p)
    ensures |pending[|pending| - 1]| >= 3 ==> Shorten(log) == log[..|log| - |pending|] + Shorten(pending)
  {
    assert log[|log| - 1] == pending[|pending| - 1];
  }

  lemma NewLastRecord(log: seq<Bytes>, pending: seq<Bytes>)
    requires |pending| <= |log| && log[|log| - |pending|..] == pending
    ensures AddRecord(log) == log[..|log| - |pending|] + AddRecord(pending)
  {
    assert log == log[..|log| - |pending|] + pending;
  }

  /** Beginning a record: nothing is lost, and a new record starts. */
  lemma BeginKeeps(s: Stream, needFlush: bool)
    requires s.Valid()
    ensures var e := Begin(s, needFlush);
            && e.stream.Valid() && e.stream.open && e.stream.partial == []
            && Concat(e.out) + e.stream.Pending() == AddRecord(s.Pending())
  {
    ConcatOne(s.Pending());
    if s.open {
      FlatAppend(s.complete, [s.partial]);
      FlatOne(s.partial);
    }
  }

  /** A pending flush passes on everything and leaves the buffer empty; without one nothing goes out. */
  lemma BeginSends(s: Stream, needFlush: bool)
    ensures var e := Begin(s, needFlush);
            && e.stream.partial == []
            && (needFlush ==> e.stream.complete == [] && Concat(e.out) == s.Pending() && |e.out| == 1)
            && (!needFlush ==> e.stream.complete == s.Pending() && e.out == [])
  {
    ConcatOne(s.Pending());
  }

  /** Streaming passes records on only when the bytes do not fit behind the content, and then exactly
      the complete ones. */
  lemma PutSends(s: Stream, p: Bytes)
    ensures var e := Put(s, p);
            && e.stream.partial == s.partial + p
            && (|s.Content()| + |p| < STREAM_SIZE ==> e.out == [] && e.stream.complete == s.complete)
            && (|s.Content()| + |p| >= STREAM_SIZE ==> e.out == [s.complete] && e.stream.complete == [])
  {
  }

  /** Streaming bytes: they end the last record, wherever the buffer had to be passed on. */
  lemma PutKeeps(s: Stream, p: Bytes)
    requires s.Valid() && s.open && |s.partial| + |p| < STREAM_SIZE
    ensures var e := Put(s, p);
            && e.stream.Valid() && e.stream.open && e.stream.partial == s.partial + p
            && Concat(e.out) + e.stream.Pending() == Extend(s.Pending(), p)
  {
    ConcatOne(s.complete);
  }

  /** The header's last three bytes are still in the buffer. */
  lemma RetractKeeps(s: Stream)
    requires s.Valid() && s.open && |s.partial| >= 3
    ensures Retract(s).Valid() && Retract(s).Pending() == Shorten(s.Pending())
  {
  }

  lemma CloseKeeps(s: Stream)
    ensures Concat(Close(s).out) == s.Pending() && Close(s).stream == EMPTY
  {
    ConcatOne(s.Pending());
  }

  // ---------------------------------------- the same for logs with repetitions

  lemma BeginLog(log: seq<Bytes>, sent: seq<Bytes>, s: Stream, repeated: nat, needFlush: bool)
    requires s.Valid() && Kept(log, sent, s.Pending(), repeated)
    ensures var e := Begin(s, needFlush);
            && e.stream.Valid() && e.stream.open && e.stream.partial == []
            && Kept(AddRecord(log), sent + Concat(e.out), e.stream.Pending(), repeated)
  {
    hide Concat, Flat, Inside, Begin;
    var e := Begin(s, needFlush);
    BeginKeeps(s, needFlush);
    NewLastRecord(log, s.Pending());
    hide AddRecord;
    KeptStep(log, sent, s.Pending(), repeated, AddRecord(log), Concat(e.out), e.stream.Pending());
  }

  lemma PutLog(log: seq<Bytes>, sent: seq<Bytes>, s: Stream, repeated: nat, p: Bytes)
    requires s.Valid() && s.open && |s.partial| + |p| < STREAM_SIZE && Kept(log, sent, s.Pending(), repeated)
    ensures var e := Put(s, p);
            && e.stream.Valid() && e.stream.open && e.stream.partial == s.partial + p
            && Kept(Extend(log, p), sent + Concat(e.out), e.stream.Pending(), repeated)
  {
    hide Concat, Flat, Inside, Put;
    var e := Put(s, p);
    PutKeeps(s, p);
    LastOfLog(log, s.Pending(), p);
    hide Extend;
    KeptStep(log, sent, s.Pending(), repeated, Extend(log, p), Concat(e.out), e.stream.Pending());
  }

  lemma RetractLog(log: seq<Bytes>, sent: seq<Bytes>, s: Stream, repeated: nat)
    requires s.Valid() && s.open && |s.partial| >= 3 && Kept(log, sent, s.Pending(), repeated)
    ensures Retract(s).Valid() && Kept(Shorten(log), sent, Retract(s).Pending(), repeated)
  {
    hide Concat, Flat, Inside, Retract;
    RetractKeeps(s);
    LastOfLog(log, s.Pending(), []);
    hide Shorten;
    assert [] + Retract(s).Pending() == Retract(s).Pending() && sent + [] == sent;
    KeptStep(log, sent, s.Pending(), repeated, Shorten(log), [], Retract(s).Pending());
  }

  lemma CloseLog(log: seq<Bytes>, sent: seq<Bytes>, s: Stream, repeated: nat)
    requires Kept(log, sent, s.Pending(), repeated)
    ensures Kept(log, sent + Concat(Close(s).out), [], repeated)
  {
    hide Concat, Flat, Inside;
    CloseKeeps(s);
    assert s.Pending() + [] == s.Pending() && log == log[..|log| - |s.Pending()|] + s.Pending();
    KeptStep(log, sent, s.Pending(), repeated, log, s.Pending(), []);
  }

  /** No payload is as long as the buffer. */
  lemma PayloadsFit(s: Stream, p: Bytes, needFlush: bool)
    requires s.Valid()
    ensures forall g :: g in Begin(s, needFlush).out + Put(s, p).out + Close(s).out ==> |Flat(g)| < STREAM_SIZE
  {
    if s.open {
      FlatAppend(s.complete, [s.partial]);
      FlatOne(s.partial);
    }
  }

  /** The recursion of `append` as it stands, cut off after `fuel` calls: straight into the buffer,
      or flush, compaction and the same call again. */
  function Run(s: Stream, p: Bytes, out: seq<seq<Bytes>>, fuel: nat): Option<Effect>
    decreases fuel
  {
    if fuel == 0 then None
    else if s.Room() > |p| then Some(Effect(Stream(s.complete, s.partial + p, s.open), out))
    else Run(Stream([], s.partial, s.open), p, out + [s.complete], fuel - 1)
  }

  /** `append` returns if and only if the record in progress stays shorter than the buffer, and then
      after at most one compaction and with the effect of `Put`. */
  lemma AppendReturns(s: Stream, p: Bytes)
    requires s.Valid()
    ensures (exists fuel: nat :: Run(s, p, [], fuel).Some?) <==> |s.partial| + |p| < STREAM_SIZE
    ensures forall fuel: nat :: Run(s, p, [], fuel).Some? ==> Run(s, p, [], fuel) == Some(Put(s, p))
  {
    if |s.partial| + |p| < STREAM_SIZE {
      assert [] + [s.complete] == [s.complete];
      assert Run(s, p, [], 2).Some?;
      forall fuel: nat | Run(s, p, [], fuel).Some? ensures Run(s, p, [], fuel) == Some(Put(s, p)) {
        var compacted := Stream([], s.partial, s.open);
        assert s.Room() <= |p| ==> Run(s, p, [], fuel) == Run(compacted, p, [s.complete], fuel - 1);
      }
    } else {
      forall fuel: nat ensures Run(s, p, [], fuel).None? {
        NeverReturns(s, p, [], fuel);
      }
    }
  }

  /** Compaction leaves a record as long as the buffer no more room than before. */
  lemma {:induction false} NeverReturns(s: Stream, p: Bytes, out: seq<seq<Bytes>>, fuel: nat)
    requires |s.partial| + |p| >= STREAM_SIZE
    ensures Run(s, p, out, fuel).None?
    decreases fuel
  {
    if fuel == 0 {
    } else {
      NeverReturns(Stream([], s.partial, s.open), p, out + [s.complete], fuel - 1);
    }
  }

  // -------------------------------------------------------------- the object

  class LogStreamObject {
    const buf: array<Byte>
    var cur: nat
    var end: nat
    var needFlush: bool
    /** What `g_output` was called with. */
    var output: seq<Bytes>

    ghost var complete: seq<Bytes>
    ghost var open: bool
    ghost var groups: seq<seq<Bytes>>   // the records behind each call
    ghost var log: seq<Bytes>           // the records streamed so far
    ghost var repeated: nat             // how many records went out twice

    /** `_buf <= _end <= _cur < _buf + kBufferSize`; whole records up to `_end`; and each call of
        `g_output` passed a sequence of whole records. */
    ghost predicate Buffer()
      reads this`cur, this`end, this`output, this`complete, this`open, this`groups, buf
    {
      && buf.Length == STREAM_SIZE && end <= cur < STREAM_SIZE
      && buf[..end] == Flat(complete)
      && (!open ==> end == cur)
      && Sent()
    }

    ghost predicate Sent()
      reads this`output, this`groups
    {
      |output| == |groups| && forall i :: 0 <= i < |groups| ==> output[i] == Flat(groups[i])
    }

    ghost function State(): Stream
      reads this`cur, this`end, this`output, this`complete, this`open, this`groups, buf
      requires Buffer()
    {
      Stream(complete, buf[end..cur], open)
    }

    /** What went out and what is in the buffer is everything that was streamed, except for what a
        user's flush repeated. */
    ghost predicate Valid()
      reads this, buf
    {
      Buffer() && State().Valid() && Kept(log, Concat(groups), State().Pending(), repeated)
    }

    constructor ()
      ensures Valid() && fresh(buf) && State() == EMPTY && groups == [] && log == [] && repeated == 0
    {
      buf := new Byte[STREAM_SIZE];
      cur, end, needFlush, output := 0, 0, false, [];
      complete, open, groups, log, repeated := [], false, [], [], 0;
    }

    method Flush()
      requires Buffer()
      modifies this`output, this`groups
      ensures Buffer() && State() == old(State()) && groups == old(groups) + [complete]
      ensures output == old(output) + [buf[..end]]
    {
      output := output + [buf[..end]];
      groups := groups + [complete];
    }

    /** `memcpy` of `p` to the cursor. */
    method CopyIn(p: Bytes)
      requires Buffer() && open && cur + |p| < STREAM_SIZE
      modifies this`cur, buf
      ensures Buffer() && State() == Stream(complete, old(State()).partial + p, true) && cur == old(cur) + |p|
    {
      var i := 0;
      while i < |p|
        invariant i <= |p|
        invariant buf[..cur] == old(buf[..cur]) && buf[cur..cur + i] == p[..i]
        modifies buf
      {
        buf[cur + i] := p[i];
        i := i + 1;
      }
      cur := cur + |p|;
      assert buf[..end] == old(buf[..cur])[..end];
      assert buf[end..cur] == old(buf[end..cur]) + p;
    }

    /** `memmove` of the record in progress to the front. */
    method MoveToFront()
      requires Buffer()
      modifies this`cur, this`end, this`complete, buf
      ensures Buffer() && State() == Stream([], old(State()).partial, open) && end == 0
    {
      var i := 0;
      while end + i < cur
        invariant end + i <= cur
        invariant buf[..i] == old(buf[end..end + i])
        invariant forall j :: end + i <= j < cur ==> buf[j] == old(buf[j])
        modifies buf
      {
        buf[i] := buf[end + i];
        i := i + 1;
      }
      assert buf[..i] == old(buf[end..cur]);
      cur := cur - end;
      end := 0;
      complete := [];
    }

    /** What streaming `p` did to the output, from these cursors: nothing if it fitted behind the
        content, else the complete records went out. */
    ghost predicate Sends(p: Bytes, cur0: nat, end0: nat, output0: seq<Bytes>, complete0: Bytes)
      reads this`cur, this`end, this`output
    {
      if cur0 + |p| < STREAM_SIZE then output == output0 && cur == cur0 + |p| && end == end0
      else output == output0 + [complete0] && end == 0
    }

    method AppendBytes(p: Bytes)
      requires Buffer() && open && |State().partial| + |p| < STREAM_SIZE
      modifies this`cur, this`end, this`output, this`groups, this`complete, buf
      ensures Buffer() && State() == Put(old(State()), p).stream
      ensures groups == old(groups) + Put(old(State()), p).out
      ensures Sends(p, old(cur), old(end), old(output), old(buf[..end]))
      decreases if STREAM_SIZE - cur > |p| then 0 else 1
    {
      if buf.Length - cur > |p| {
        CopyIn(p);
      } else {
        Flush();
        MoveToFront();
        AppendBytes(p);
      }
    }

    /** `operator<<`: the bytes end the record in progress. */
    method Append(p: Bytes)
      requires Valid() && open && |State().partial| + |p| < STREAM_SIZE
      modifies this, buf
      ensures Valid() && Buffer() && open && State().partial == old(State()).partial + p
      ensures log == Extend(old(log), p)
      ensures State() == Put(old(State()), p).stream && groups == old(groups) + Put(old(State()), p).out
      ensures needFlush == old(needFlush) && repeated == old(repeated)
      ensures Sends(p, old(cur), old(end), old(output), old(buf[..end]))
    {
      hide Flat, Concat, Kept, Inside, Put, Extend, Sends;
      PutLog(log, Concat(groups), State(), repeated, p);
      ConcatAppend(groups, Put(State(), p).out);
      AppendBytes(p);
      log := Extend(log, p);
    }

    /** `_end = _cur`: the record in progress counts as complete. */
    method MarkComplete()
      requires Buffer()
      modifies this`end, this`complete, this`open
      ensures Buffer() && State() == Stream(old(State()).Pending(), [], true) && State().Valid() && end == cur
    {
      hide Sent, Flat;
      FlatAppend(complete, [State().partial]);
      FlatOne(State().partial);
      assert buf[..cur] == buf[..end] + buf[end..cur];
      complete := State().Pending();
      end := cur;
      open := true;
    }

    /** The first lines of `makeLog`; `ticked` says that `formatTime` saw a new second, which
        asks for a flush at the next record. */
    method BeginRecord(ticked: bool)
      requires Valid()
      modifies this, buf
      ensures Valid() && open && State().partial == [] && log == AddRecord(old(log))
      ensures State() == Begin(old(State()), old(needFlush)).stream
      ensures groups == old(groups) + Begin(old(State()), old(needFlush)).out
      ensures Flushed(old(needFlush), old(cur), old(output), old(buf[..cur]))
      ensures needFlush == ticked && repeated == old(repeated)
    {
      hide Concat, Flat, Buffer, Kept, Inside, Begin, AddRecord, Flushed;
      BeginLog(log, Concat(groups), State(), repeated, needFlush);
      ConcatAppend(groups, Begin(State(), needFlush).out);
      Cut();
      log := AddRecord(log);
      if ticked {
        needFlush := true;
      }
    }

    /** What the beginning of a record did to the output: a pending flush passed on everything in the
        buffer and emptied it; without one nothing went out, and all of it is complete now. */
    ghost predicate Flushed(pending: bool, cur0: nat, output0: seq<Bytes>, content0: Bytes)
      reads this`cur, this`end, this`output
    {
      end == cur && if pending then output == output0 + [content0] && cur == 0 else output == output0 && cur == cur0
    }

    /** The record in progress ends here, and a pending flush is carried out. */
    method Cut()
      requires Buffer()
      modifies this`cur, this`end, this`complete, this`open, this`output, this`groups, this`needFlush
      ensures Buffer() && State() == Begin(old(State()), old(needFlush)).stream && !needFlush
      ensures groups == old(groups) + Begin(old(State()), old(needFlush)).out
      ensures Flushed(old(needFlush), old(cur), old(output), old(buf[..cur]))
    {
      hide Buffer;
      MarkComplete();
      if needFlush {
        Flush();
        StartOver();
        needFlush := false;
      }
    }

    /** `_cur = _end = _buf`. */
    method StartOver()
      requires Buffer() && State().partial == []
      modifies this`cur, this`end, this`complete
      ensures Buffer() && State() == Stream([], [], open) && cur == end == 0
    {
      cur, end, complete := 0, 0, [];
    }

    lemma LogNotEmpty()
      requires Valid() && open
      ensures Buffer() && log != []
    {
    }

    /** A chain of `operator<<`. */
    method AppendAll(pieces: seq<Bytes>)
      requires Valid() && open && |State().partial| + |Flat(pieces)| < STREAM_SIZE
      modifies this, buf
      ensures Valid() && open && State().partial == old(State()).partial + Flat(pieces)
      ensures log == Extend(old(log), Flat(pieces))
      ensures needFlush == old(needFlush) && repeated == old(repeated)
      ensures old(cur) + |Flat(pieces)| < STREAM_SIZE ==>
                output == old(output) && cur == old(cur) + |Flat(pieces)| && end == old(end)
    {
      hide Buffer, Concat, Flat, Put, Extend, Valid, State, Kept, Inside;
      LogNotEmpty();
      ghost var start, before, done := State().partial, log, [];
      var i := 0;
      FlatFront(pieces, 0);
      ExtendTwice(log, [], []);
      assert start + done == start;
      while i < |pieces|
        invariant i <= |pieces| && Valid() && Buffer() && open
        invariant needFlush == old(needFlush) && repeated == old(repeated)
        invariant |done| <= |Flat(pieces)|
        invariant old(cur) + |Flat(pieces)| < STREAM_SIZE ==>
                    output == old(output) && cur == old(cur) + |done| && end == old(end)
        invariant State().partial == start + done && log == Extend(before, done) && done == Flat(pieces[..i])
      {
        NextPiece(before, start, done, pieces, i);
        Append(pieces[i]);
        done := done + pieces[i];
        i := i + 1;
      }
      assert pieces[..|pieces|] == pieces;
    }

    /** What a new record of `n` bytes did to the output: after a pending flush exactly what was in the
        buffer went out and the record stands alone in it; without one, and where it fits behind the
        content, nothing went out. */
    ghost predicate HeaderOnly(pending: bool, n: nat, cur0: nat, output0: seq<Bytes>, content0: Bytes)
      reads this`cur, this`end, this`output
    {
      && (pending ==> output == output0 + [content0] && end == 0 && cur == n)
      && (!pending && cur0 + n < STREAM_SIZE ==> output == output0 && end == cur0 && cur == cur0 + n)
    }

    /** Date and time, thread, level and place, then the mark before the text. */
    method MakeLog(time: Bytes, tid: Bytes, level: Bytes, filename: Bytes, line: Bytes, ticked: bool)
      requires Valid() && |Header(time, tid, level, filename, line)| < STREAM_SIZE
      modifies this, buf
      ensures Valid() && open && State().partial == Header(time, tid, level, filename, line)
      ensures log == old(log) + [Header(time, tid, level, filename, line)]
      ensures needFlush == ticked && repeated == old(repeated)
      ensures HeaderOnly(old(needFlush), |Header(time, tid, level, filename, line)|,
                         old(cur), old(output), old(buf[..cur]))
    {
      hide Buffer, Concat, Flat, Place;
      HeaderPieces(time, tid, level, filename, line);
      BeginRecord(ticked);
      LastRecord(old(log), [], Header(time, tid, level, filename, line));
      AppendAll([time, SPACE, tid, SPACE, level, SPACE, filename, COLON, line, MARK]);
    }

    /** The form that adds the function's name: it takes back the mark, which is in the buffer,
        writes the name, and puts the mark again. */
    method MakeLogWithFunc(time: Bytes, tid: Bytes, level: Bytes, filename: Bytes, line: Bytes,
                           ticked: bool, func: Bytes)
      requires Valid() && |Header(time, tid, level, filename, line)| + 1 + |func| < STREAM_SIZE
      modifies this, buf
      ensures Valid() && open && needFlush == ticked && repeated == old(repeated)
      ensures log == old(log) + [Place(time, tid, level, filename, line) + SPACE + func + MARK]
      ensures HeaderOnly(old(needFlush), |Header(time, tid, level, filename, line)| + 1 + |func|,
                         old(cur), old(output), old(buf[..cur]))
    {
      hide Concat, Flat, Place, Buffer, Extend;
      ghost var place, tail := Place(time, tid, level, filename, line), SPACE + func + MARK;
      MakeLog(time, tid, level, filename, line, ticked);
      assert (place + MARK)[..|place|] == place;
      LastRecord(old(log), place + MARK, []);
      TakeBack();
      assert log == old(log) + [place];
      FlatThree(SPACE, func, MARK);
      LastRecord(old(log), place, tail);
      AppendAll([SPACE, func, MARK]);
      assert place + tail == place + SPACE + func + MARK;
    }

    /** `_cur -= 3`. */
    method TakeBack()
      requires Valid() && open && |State().partial| >= 3
      modifies this
      ensures Valid() && open && State() == Retract(old(State())) && groups == old(groups)
      ensures log == Shorten(old(log)) && needFlush == old(needFlush) && repeated == old(repeated)
      ensures cur == old(cur) - 3 && end == old(end) && output == old(output)
    {
      hide Concat, Flat, Kept, Inside, Shorten;
      RetractLog(log, Concat(groups), State(), repeated);
      assert buf[end..cur][..cur - end - 3] == buf[end..cur - 3];
      cur := cur - 3;
      log := Shorten(log);
    }

    /** The public `flush`, called by a user: the complete records go out and stay in the buffer. */
    method UserFlush()
      requires Valid()
      modifies this
      ensures Valid() && State() == old(State()) && groups == old(groups) + [complete]
      ensures log == old(log) && repeated == old(repeated) + |old(complete)| && needFlush == old(needFlush)
      ensures output == old(output) + [buf[..end]]
    {
      hide Concat, Flat, Buffer, Inside;
      ConcatAppend(groups, [complete]);
      ConcatOne(complete);
      KeptFlush(log, Concat(groups), State().Pending(), repeated, complete);
      Flush();
      repeated := repeated + |complete|;
    }

    /** The destructor: everything goes out, and it is the log if and only if nothing was repeated. */
    method Destroy()
      requires Valid()
      modifies this
      ensures Buffer() && log == old(log) && Inside(log, Concat(groups))
      ensures Concat(groups) == log <==> old(repeated) == 0
      ensures groups == old(groups) + Close(old(State())).out
      ensures output == old(output) + [old(buf[..cur])]
    {
      hide Concat, Flat, Buffer, Kept, Inside;
      CloseKeeps(State());
      ConcatAppend(groups, Close(State()).out);
      KeptExactly(log, Concat(groups), State().Pending(), repeated);
      MarkComplete();
      Flush();
    }
  }

  lemma FlatFront(pieces: seq<Bytes>, i: nat)
    requires i <= |pieces|
    ensures Flat(pieces[..0]) == []
    ensures i < |pieces| ==> Flat(pieces[..i + 1]) == Flat(pieces[..i]) + pieces[i]
    ensures |Flat(pieces[..i])| <= |Flat(pieces)|
  {
    FlatAppend(pieces[..i], pieces[i..]);
    assert pieces[..i] + pieces[i..] == pieces;
    if i < |pieces| {
      assert pieces[..i + 1][..i] == pieces[..i];
    }
  }

  /** One more piece of a record that began as `start`, in a log that was `log` then. */
  lemma NextPiece(log: seq<Bytes>, start: Bytes, done: Bytes, pieces: seq<Bytes>, i: nat)
    requires log != [] && i < |pieces| && done == Flat(pieces[..i])
    ensures done + pieces[i] == Flat(pieces[..i + 1])
    ensures |start + done| + |pieces[i]| <= |start| + |Flat(pieces)| && |done| + |pieces[i]| <= |Flat(pieces)|
    ensures start + done + pieces[i] == start + (done + pieces[i])
    ensures Extend(Extend(log, done), pieces[i]) == Extend(log, done + pieces[i])
  {
    hide Flat;
    FlatFront(pieces, i);
    FlatFront(pieces, i + 1);
    ExtendTwice(log, done, pieces[i]);
  }

  lemma HeaderPieces(time: Bytes, tid: Bytes, level: Bytes, filename: Bytes, line: Bytes)
    ensures Flat([time, SPACE, tid, SPACE, level, SPACE, filename, COLON, line, MARK]) ==
            Header(time, tid, level, filename, line)
  {
    var pieces := [time, SPACE, tid, SPACE, level, SPACE, filename, COLON, line];
    FlatAppend(pieces, [MARK]);
    FlatOne(MARK);
    assert pieces + [MARK] == [time, SPACE, tid, SPACE, level, SPACE, filename, COLON, line, MARK];
  }

  /** Date and time, thread, level, file, line, and the mark, as the source's comment has it. */
  lemma HeaderReads(time: Bytes, tid: Bytes, level: Bytes, filename: Bytes, line: Bytes)
    ensures Header(time, tid, level, filename, line) ==
            time + [0x20] + tid + [0x20] + level + [0x20] + filename + [0x3a] + line + [0x20, 0x2d, 0x20]
  {
    hide Flat;
    FlatThree(time, SPACE, tid);
    FlatThree(SPACE, level, SPACE);
    FlatThree(filename, COLON, line);
    FlatAppend([time, SPACE, tid], [SPACE, level, SPACE]);
    FlatAppend([time, SPACE, tid] + [SPACE, level, SPACE], [filename, COLON, line]);
    assert [time, SPACE, tid] + [SPACE, level, SPACE] + [filename, COLON, line] ==
           [time, SPACE, tid, SPACE, level, SPACE, filename, COLON, line];
  }

  lemma FlatThree(a: Bytes, b: Bytes, c: Bytes)
    ensures Flat([a, b, c]) == a + b + c
  {
    FlatOne(a);
    FlatAppend([a], [b]);
    FlatOne(b);
    FlatAppend([a, b], [c]);
    FlatOne(c);
    assert [a] + [b] == [a, b] && [a, b] + [c] == [a, b, c];
  }

  lemma LastRecord(log: seq<Bytes>, r: Bytes, p: Bytes)
    ensures Extend(log + [r], p) == log + [r + p]
    ensures |r| >= 3 ==> Shorten(log + [r]) == log + [r[..|r| - 3]]
  {
  }

  lemma ExtendTwice(log: seq<Bytes>, a: Bytes, b: Bytes)
    requires log != []
    ensures Extend(Extend(log, a), b) == Extend(log, a + b) && Extend(log, []) == log
  {
    var last := log[|log| - 1];
    assert (last + a) + b == last + (a + b) && last + [] == last;
    assert log[|log| - 1 := last] == log;
  }

  const SPACE: Bytes := [0x20]
  const COLON: Bytes := [0x3a]
  const MARK: Bytes := [0x20, 0x2d, 0x20]

  function Place(time: Bytes, tid: Bytes, level: Bytes, filename: Bytes, line: Bytes): Bytes {
    Flat([time, SPACE, tid, SPACE, level, SPACE, filename, COLON, line])
  }

  function Header(time: Bytes, tid: Bytes, level: Bytes, filename: Bytes, line: Bytes): Bytes {
    Place(time, tid, level, filename, line) + MARK
  }
}
