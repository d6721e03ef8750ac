/** The objects of `log/asyncLogging.*`.  Each method is one region under the lock, or one stretch
    of the backend thread between two of them, proved against the step that `Backend` defines. */
module AsyncLogging {
  import opened Bits
  import opened Sequences
  import opened LogStream
  import opened Backend
  import opened LoggingProtocol

  class LogBuffer {
    const buf: array<Byte>
    var cur: nat

    ghost predicate Valid()
      reads this
    {
      buf.Length == BUFFER_SIZE && cur <= buf.Length
    }

    ghost function Content(): Bytes
      reads this, buf
      requires Valid()
    {
      buf[..cur]
    }

    constructor ()
      ensures Valid() && fresh(buf) && Content() == []
    {
      buf := new Byte[BUFFER_SIZE];
      cur := 0;
    }

    function Avail(): int
      reads this
      requires Valid()
    {
      buf.Length - cur
    }

    /** memcpy and advance; the caller has made sure that there is room. */
    method Append(p: Bytes)
      requires Valid() && |p| <= Avail()
      modifies this, buf
      ensures Valid() && Content() == old(Content()) + p
    {
      var i := 0;
      while i < |p|
        invariant i <= |p|
        invariant buf[..cur] == old(buf[..cur]) && buf[cur..cur + i] == p[..i]
        modifies buf
      {
        buf[cur + i] := p[i];
        i := i + 1;
      }
      cur := cur + |p|;
      assert buf[..cur] == old(buf[..cur]) + p;
    }
  }

  class AsyncLogging {
    var currentBuffer: LogBuffer?
    var nextBuffer: LogBuffer?
    var buffers: seq<LogBuffer>
    // of the backend thread
    var written: nat
    var files: seq<File>
    const rollSize: nat

    ghost var contents: seq<Bytes>   // of the buffers in `buffers`
    ghost var Repr: set<object>

    /** The lock's invariant: there is a current buffer, and a spare one is empty; neither of them
        is among the full ones. */
    ghost predicate Valid()
      reads this`currentBuffer, this`nextBuffer, this`buffers, this`contents, this`Repr, Repr
    {
      && this !in Repr
      && currentBuffer != null && Owned(currentBuffer)
      && (nextBuffer != null ==>
            && Owned(nextBuffer) && nextBuffer.cur == 0
            && nextBuffer != currentBuffer && nextBuffer.buf != currentBuffer.buf)
      && |contents| == |buffers|
      && forall i :: 0 <= i < |buffers| ==>
           && Owned(buffers[i]) && buffers[i].Content() == contents[i]
           && buffers[i] != currentBuffer && buffers[i].buf != currentBuffer.buf
           && (nextBuffer != null ==> buffers[i] != nextBuffer && buffers[i].buf != nextBuffer.buf)
    }

    ghost predicate Owned(b: LogBuffer)
      reads this`Repr, Repr
    {
      b in Repr && b.buf in Repr && b.Valid()
    }

    ghost function State(): Shared
      reads this`currentBuffer, this`nextBuffer, this`buffers, this`contents, this`Repr, Repr
      requires Valid()
    {
      Shared(currentBuffer.Content(), nextBuffer != null, contents)
    }

    constructor (rollSize: nat)
      ensures Valid() && fresh(Repr) && State() == FRESH
      ensures files == [NO_FILE] && written == 0 && this.rollSize == rollSize
    {
      var a := new LogBuffer();
      var b := new LogBuffer();
      currentBuffer, nextBuffer, buffers, contents := a, b, [], [];
      this.rollSize, written, files := rollSize, 0, [NO_FILE];
      Repr := {a, a.buf, b, b.buf};
    }

    /** The producers' call: one region under the lock. */
    method Append(p: Bytes)
      requires Valid() && |p| <= BUFFER_SIZE
      modifies this`currentBuffer, this`nextBuffer, this`buffers, this`contents, this`Repr, Repr
      ensures Valid() && fresh(Repr - old(Repr))
      ensures State() == Accept(old(State()), p)
      ensures if old(currentBuffer.cur) + |p| < BUFFER_SIZE
              then currentBuffer == old(currentBuffer) && buffers == old(buffers) && nextBuffer == old(nextBuffer)
              else && buffers == old(buffers) + [old(currentBuffer)] && nextBuffer == null
                   && (if old(nextBuffer) != null then currentBuffer == old(nextBuffer) else fresh(currentBuffer))
    {
      if currentBuffer.Avail() > |p| {
        currentBuffer.Append(p);
      } else {
        contents := contents + [currentBuffer.Content()];
        buffers := buffers + [currentBuffer];
        if nextBuffer != null {
          currentBuffer := nextBuffer;
          nextBuffer := null;
        } else {
          currentBuffer := new LogBuffer();
          Repr := Repr + {currentBuffer, currentBuffer.buf};
        }
        currentBuffer.Append(p);
      }
    }

    /** `_currentBuffer->size()`, as `stop` reads it. */
    method CurrentSize() returns (size: nat)
      requires Valid()
      ensures size == |State().current|
    {
      size := currentBuffer.cur;
    }

    /** A buffer of the backend's own: there, empty, and known to nobody else. */
    ghost predicate Spare(b: LogBuffer?)
      reads this`Repr, b
    {
      b != null && b.Valid() && b.cur == 0 && b !in Repr && b.buf !in Repr
    }

    /** What the region gets hold of: the full buffers and the current one, none of them the spare. */
    lemma Gathered()
      requires Valid()
      ensures currentBuffer != null && currentBuffer.Valid() && this !in Repr
      ensures |Taken(State())| == |buffers| + 1
      ensures forall i :: 0 <= i <= |buffers| ==>
                var b := (buffers + [currentBuffer])[i];
                b.Valid() && b.Content() == Taken(State())[i] && b in Repr && b.buf in Repr
      ensures nextBuffer != null ==>
                && nextBuffer.Valid() && nextBuffer.cur == 0 && nextBuffer in Repr && nextBuffer.buf in Repr
                && forall b :: b in buffers + [currentBuffer] ==> b != nextBuffer && b.buf != nextBuffer.buf
    {
    }

    lemma TwoEmptyBuffers()
      requires buffers == [] && contents == [] && currentBuffer != null && nextBuffer != null
      requires currentBuffer.Valid() && currentBuffer.cur == 0 && nextBuffer.Valid() && nextBuffer.cur == 0
      requires currentBuffer != nextBuffer && currentBuffer.buf != nextBuffer.buf
      requires Repr == {currentBuffer, currentBuffer.buf, nextBuffer, nextBuffer.buf} && this !in Repr
      ensures Valid() && State() == FRESH
    {
    }

    /** The backend's region under the lock, after the wait loop.  It hands over its two spare
        buffers and gets the batch; the shared state is as fresh as at the beginning. */
    method Take(buffer1: LogBuffer?, buffer2: LogBuffer?)
      returns (batch: seq<LogBuffer>, left2: LogBuffer?)
      requires Valid() && Spare(buffer1) && Spare(buffer2) && buffer1 != buffer2 && buffer1.buf != buffer2.buf
      modifies this`currentBuffer, this`nextBuffer, this`buffers, this`contents, this`Repr
      ensures Valid() && State() == FRESH
      ensures |batch| == |Taken(old(State()))|
      ensures forall i :: 0 <= i < |batch| ==> batch[i].Valid() && batch[i].Content() == Taken(old(State()))[i]
      ensures forall b :: b in batch ==> b !in Repr && b.buf !in Repr
      ensures Repr <= old(Repr) + {buffer1, buffer1.buf, buffer2, buffer2.buf}
      ensures if old(State()).spare then left2 == buffer2 && Spare(left2) else left2 == null
    {
      Gathered();
      hide Valid, Taken;
      contents := contents + [currentBuffer.Content()];
      buffers := buffers + [currentBuffer];
      currentBuffer := buffer1;
      left2 := buffer2;
      if nextBuffer == null {
        nextBuffer := buffer2;
        left2 := null;
      }
      batch := buffers;
      buffers, contents := [], [];
      Repr := {currentBuffer, currentBuffer.buf, nextBuffer, nextBuffer.buf};
      TwoEmptyBuffers();
    }

    /** Outside the lock: both spare buffers are there again, and empty. */
    method Refill(left2: LogBuffer?) returns (buffer1: LogBuffer?, buffer2: LogBuffer?)
      requires Valid() && (left2 == null || Spare(left2))
      ensures Spare(buffer1) && Spare(buffer2) && buffer1 != buffer2 && buffer1.buf != buffer2.buf
      ensures fresh(buffer1) && fresh(buffer1.buf)
      ensures buffer2 == left2 || (fresh(buffer2) && fresh(buffer2.buf))
    {
      buffer1 := new LogBuffer();
      buffer2 := left2;
      if buffer2 == null {
        buffer2 := new LogBuffer();
      }
    }

    method SizeOf(batch: seq<LogBuffer>, ghost parts: seq<Bytes>) returns (size: nat)
      requires |parts| == |batch|
      requires forall i :: 0 <= i < |batch| ==> batch[i].Valid() && batch[i].Content() == parts[i]
      ensures size == |Flat(parts)|
    {
      size := 0;
      var i := 0;
      while i < |batch|
        invariant i <= |batch| && size == |Flat(parts[..i])|
      {
        FlatFront(parts, i);
        size := size + batch[i].cur;
        i := i + 1;
      }
      assert parts[..|parts|] == parts;
    }

    /** `appender->append` of each buffer. */
    method WriteEach(batch: seq<LogBuffer>, ghost parts: seq<Bytes>)
      requires files != [] && |parts| == |batch|
      requires forall i :: 0 <= i < |batch| ==> batch[i].Valid() && batch[i].Content() == parts[i]
      modifies this`files
      ensures files == WriteAll(old(files), parts)
    {
      hide WriteBytes;
      var i := 0;
      while i < |batch|
        invariant i <= |batch| && files == WriteAll(old(files), parts[..i]) && files != []
      {
        assert parts[..i + 1][..i] == parts[..i];
        files := WriteBytes(files, batch[i].buf[..batch[i].cur]);
        i := i + 1;
      }
      assert parts[..|parts|] == parts;
    }

    /** The roll decision and the writing of a batch. */
    method WriteBatch(batch: seq<LogBuffer>, ghost parts: seq<Bytes>)
      requires files != [] && |parts| == |batch|
      requires forall i :: 0 <= i < |batch| ==> batch[i].Valid() && batch[i].Content() == parts[i]
      modifies this`written, this`files
      ensures files == WriteAll(Roll(old(files), old(written), |Flat(parts)|, rollSize), parts)
      ensures written == WrittenAfterRoll(old(written), |Flat(parts)|, rollSize) + |Flat(parts)|
    {
      hide WriteAll, Flat;
      var needWrite := SizeOf(batch, parts);
      if written + needWrite > rollSize {
        files := files + [NO_FILE];   // rollFile and a new appender
        written := 0;
      }
      BookNewFile(old(files), needWrite);
      files := Booked(files, needWrite);
      assert files == Roll(old(files), old(written), needWrite, rollSize);
      WriteEach(batch, parts);
      written := written + needWrite;
    }

    /** The payloads that producers append while the backend does not hold the lock. */
    method AppendAll(payloads: seq<Bytes>)
      requires Valid() && State().Valid() && EachFits(payloads)
      modifies this`currentBuffer, this`nextBuffer, this`buffers, this`contents, this`Repr, Repr
      ensures Valid() && OnlyGrown(old(Repr), {})
      ensures State().Valid() && State().Waiting() == old(State().Waiting()) + Flat(payloads)
    {
      hide Valid, Flat, Accept, Shared.Waiting, Shared.Valid;
      var i := 0;
      FlatFront(payloads, 0);
      while i < |payloads|
        invariant i <= |payloads| && Valid() && OnlyGrown(old(Repr), {})
        invariant State().Valid() && State().Waiting() == old(State().Waiting()) + Flat(payloads[..i])
      {
        FlatFront(payloads, i);
        AcceptKeeps(State(), payloads[i]);
        Append(payloads[i]);
        i := i + 1;
      }
      assert payloads[..|payloads|] == payloads;
    }

    /** What belongs to the shared state was there before, or was handed in, or is new. */
    twostate predicate OnlyGrown(before: set<object>, handed: set<object>)
      reads this`Repr
    {
      forall o :: o in Repr ==> o in before || o in handed || fresh(o)
    }

    ghost predicate Spares(b: LogBuffer?, c: LogBuffer?)
      reads this`Repr, b, c
    {
      Spare(b) && Spare(c) && b != c && b.buf != c.buf
    }

    /** Taking the batch and replacing the spare buffers; `during` is what producers append once the
        lock is free again. */
    method Collect(buffer1: LogBuffer?, buffer2: LogBuffer?, during: seq<Bytes>)
      returns (batch: seq<LogBuffer>, next1: LogBuffer?, next2: LogBuffer?)
      requires Valid() && Spares(buffer1, buffer2) && EachFits(during)
      modifies this`currentBuffer, this`nextBuffer, this`buffers, this`contents, this`Repr
      modifies Repr, buffer1, buffer1.buf, buffer2, buffer2.buf
      ensures Valid() && State().Valid() && State().Waiting() == Flat(during)
      ensures Spares(next1, next2)
      ensures fresh(next1) && fresh(next1.buf) && (next2 == buffer2 || (fresh(next2) && fresh(next2.buf)))
      ensures OnlyGrown(old(Repr), {buffer1, buffer1.buf, buffer2, buffer2.buf})
      ensures |batch| == |Taken(old(State()))|
      ensures forall i :: 0 <= i < |batch| ==> batch[i].Valid() && batch[i].Content() == Taken(old(State()))[i]
    {
      hide Valid, Taken, Flat, Shared.Waiting, Shared.Valid, Accept;
      FreshIsEmpty();
      var left2;
      batch, left2 := Take(buffer1, buffer2);
      AppendAll(during);
      assert [] + Flat(during) == Flat(during);
      next1, next2 := Refill(left2);
    }

    /** From the end of the wait to the end of the turn.  What waited is in the files, by the rules
        of the roll decision, and both spare buffers are there again, and empty. */
    method Round(buffer1: LogBuffer?, buffer2: LogBuffer?, during: seq<Bytes>)
      returns (next1: LogBuffer?, next2: LogBuffer?)
      requires Valid() && files != [] && Spares(buffer1, buffer2) && EachFits(during)
      modifies this, Repr, buffer1, buffer1.buf, buffer2, buffer2.buf
      ensures Valid() && State().Valid() && State().Waiting() == Flat(during) && files != []
      ensures Spares(next1, next2)
      ensures fresh(next1) && fresh(next1.buf) && (next2 == buffer2 || (fresh(next2) && fresh(next2.buf)))
      ensures OnlyGrown(old(Repr), {buffer1, buffer1.buf, buffer2, buffer2.buf})
      ensures AllBytes(files) == old(AllBytes(files)) + old(State().Waiting())
      ensures var parts := Taken(old(State()));
              && files == WriteAll(Roll(old(files), old(written), |Flat(parts)|, rollSize), parts)
              && written == WrittenAfterRoll(old(written), |Flat(parts)|, rollSize) + |Flat(parts)|
      ensures old(FilesRight()) ==>
                FilesRight() && AllSizes(files) == old(AllSizes(files)) + [|old(State().Waiting())|]
    {
      hide Valid, Taken, AllBytes, AllSizes, Roll, WriteAll, Flat, Shared.Waiting, Shared.Valid;
      hide FilesValid, WrittenAfterRoll;
      ghost var parts := Taken(State());
      TakenIsWaiting(State());
      RollAndWrite(files, written, |Flat(parts)|, rollSize, parts);
      BatchKeepsFiles(files, written, rollSize, parts);
      Gathered();
      var batch;
      batch, next1, next2 := Collect(buffer1, buffer2, during);
      Gathered();
      WriteBatch(batch, parts);
    }

    /** The service loop, given what happens at each turn: after each, the files hold everything that
        has arrived but what came while the backend was at work, in order and by the roll rule. */
    method MainRoutine(turns: seq<Turn>) returns (i: nat)
      requires Valid() && State() == FRESH && files == [NO_FILE] && written == 0
      requires forall j :: 0 <= j < |turns| ==> EachFits(turns[j].before) && EachFits(turns[j].during)
      modifies this, Repr
      ensures i <= |turns| && Valid()
      ensures i < |turns| ==> i > 0 && !turns[i - 1].running
      ensures AllBytes(files) + State().Waiting() == Flat(Arrived(turns[..i]))
      ensures i > 0 ==> State().Waiting() == Flat(turns[i - 1].during)
      ensures FilesRight() && AllSizes(files) == TurnSizes(turns[..i])
    {
      hide Valid, Flat, AllBytes, AllSizes, FilesValid, Shared.Waiting, Shared.Valid, Arrived, TurnSizes, Left;
      Beginning(turns, rollSize);
      FreshIsEmpty();
      var buffer1: LogBuffer? := new LogBuffer();
      var buffer2: LogBuffer? := new LogBuffer();
      i := 0;
      var running := true;
      while i < |turns| && running
        invariant i <= |turns| && Valid() && State().Valid() && files != []
        invariant OnlyGrown(old(Repr), {}) && Spares(buffer1, buffer2)
        invariant fresh(buffer1) && fresh(buffer1.buf) && fresh(buffer2) && fresh(buffer2.buf)
        invariant running <==> i == 0 || turns[i - 1].running
        invariant AllBytes(files) + State().Waiting() == Flat(Arrived(turns[..i]))
        invariant State().Waiting() == Left(turns[..i])
        invariant FilesRight() && AllSizes(files) == TurnSizes(turns[..i])
        decreases |turns| - i
      {
        ArrivedNext(turns, i);
        running := turns[i].running;
        buffer1, buffer2 := OneTurn(turns[i], buffer1, buffer2);
        i := i + 1;
      }
      LeftIs(turns, i);
    }

    /** If a buffer is full or the current one is not empty, bytes wait. */
    lemma SomethingWaits()
      requires Valid() && State().Valid()
      ensures |buffers| > 0 || |State().current| > 0 ==> State().Waiting() != []
    {
      hide Flat;
    }

    /** The files keep to the roll rule, and `written` is the length of the current one. */
    ghost predicate FilesRight()
      reads this`files, this`written
    {
      FilesValid(files, 0, rollSize) && written == |files[|files| - 1].bytes|
    }

    /** One evaluation of the wait loop's guard, and what follows from it: the files get everything
        that has arrived, on every turn, and nothing is written if nothing waits. */
    method OneTurn(turn: Turn, buffer1: LogBuffer?, buffer2: LogBuffer?)
      returns (next1: LogBuffer?, next2: LogBuffer?)
      requires Valid() && State().Valid() && files != [] && Spares(buffer1, buffer2)
      requires EachFits(turn.before) && EachFits(turn.during)
      modifies this, Repr, buffer1, buffer1.buf, buffer2, buffer2.buf
      ensures Valid() && State().Valid() && files != [] && Spares(next1, next2)
      ensures next1 == buffer1 || (fresh(next1) && fresh(next1.buf))
      ensures next2 == buffer2 || (fresh(next2) && fresh(next2.buf))
      ensures OnlyGrown(old(Repr), {buffer1, buffer1.buf, buffer2, buffer2.buf})
      ensures AllBytes(files) + State().Waiting() ==
              old(AllBytes(files)) + old(State().Waiting()) + Flat(turn.before) + Flat(turn.during)
      ensures State().Waiting() == Flat(turn.during)
      ensures turn.running && old(State().Waiting()) + Flat(turn.before) == [] ==>
                files == old(files) && written == old(written)
      ensures old(FilesRight()) ==>
                FilesRight() &&
                AllSizes(files) == old(AllSizes(files)) + SizesAdded(turn, |old(State().Waiting())|)
    {
      hide AllSizes, FilesValid, Valid, Flat, AllBytes, Shared.Waiting, Shared.Valid, Roll, WriteAll, Taken;
      ghost var repr, base, waiting := Repr, AllBytes(files), State().Waiting();
      Gathered();
      AppendAll(turn.before);
      assert base + waiting + Flat(turn.before) == base + (waiting + Flat(turn.before));
      var nothing := CurrentSize();
      if turn.running && |buffers| == 0 && nothing == 0 {
        // wait
        ZeroMeansDrained(State());
        next1, next2 := buffer1, buffer2;
        waiting := State().Waiting();
        AppendAll(turn.during);
        assert base + waiting + Flat(turn.during) == base + (waiting + Flat(turn.during));
      } else {
        SomethingWaits();
        next1, next2 := Round(buffer1, buffer2, turn.during);
      }
    }
  }

  /** One turn of the service loop: what has arrived when the wait loop's guard is evaluated, the
      flag as it is then, and what arrives while the backend is outside the lock. */
  datatype Turn = Turn(before: seq<Bytes>, running: bool, during: seq<Bytes>)

  function Arrived(turns: seq<Turn>): seq<Bytes> {
    if turns == [] then []
    else Arrived(turns[..|turns| - 1]) + (turns[|turns| - 1].before + turns[|turns| - 1].during)
  }

  /** What the last turn left waiting. */
  function Left(turns: seq<Turn>): Bytes { if turns == [] then [] else Flat(turns[|turns| - 1].during) }

  /** The batch of a turn before which `waiting` bytes wait: none if there is nothing to write and
      the backend is to go on. */
  function SizesAdded(turn: Turn, waiting: nat): seq<nat> {
    var need := waiting + |Flat(turn.before)|;
    if turn.running && need == 0 then [] else [need]
  }

  /** The sizes of all batches that the turns call for. */
  function TurnSizes(turns: seq<Turn>): seq<nat> {
    if turns == [] then []
    else
      var front := turns[..|turns| - 1];
      TurnSizes(front) + SizesAdded(turns[|turns| - 1], |Left(front)|)
  }

  lemma LeftIs(turns: seq<Turn>, i: nat)
    requires i <= |turns|
    ensures i > 0 ==> Left(turns[..i]) == Flat(turns[i - 1].during)
  {
  }

  predicate EachFits(payloads: seq<Bytes>) { forall i :: 0 <= i < |payloads| ==> |payloads[i]| < BUFFER_SIZE }

  function WriteAll(files: seq<File>, parts: seq<Bytes>): (r: seq<File>)
    requires files != []
    ensures r != []
  {
    if parts == [] then files else WriteBytes(WriteAll(files, parts[..|parts| - 1]), parts[|parts| - 1])
  }

  lemma FreshIsEmpty()
    ensures FRESH.Valid() && FRESH.Waiting() == []
  {
  }

  lemma Beginning(turns: seq<Turn>, limit: nat)
    ensures AllBytes([NO_FILE]) == [] && Flat(Arrived(turns[..0])) == [] && Left(turns[..0]) == []
    ensures FilesValid([NO_FILE], 0, limit) && AllSizes([NO_FILE]) == TurnSizes(turns[..0]) == []
  {
    FlatOne([]);
    assert SizesOf([NO_FILE]) == [[]];
    ConcatOne<nat>([]);
  }

  lemma ArrivedNext(turns: seq<Turn>, i: nat)
    requires i < |turns|
    ensures Flat(Arrived(turns[..i + 1])) == Flat(Arrived(turns[..i])) + Flat(turns[i].before) + Flat(turns[i].during)
    ensures TurnSizes(turns[..i + 1]) == TurnSizes(turns[..i]) + SizesAdded(turns[i], |Left(turns[..i])|)
    ensures Left(turns[..i + 1]) == Flat(turns[i].during)
  {
    hide Flat;
    assert turns[..i + 1][..i] == turns[..i];
    FlatAppend(turns[i].before, turns[i].during);
    FlatAppend(Arrived(turns[..i]), turns[i].before + turns[i].during);
  }

  lemma {:induction false} WriteAllKeeps(files: seq<File>, parts: seq<Bytes>, left: nat, limit: nat)
    requires FilesValid(files, |Flat(parts)| + left, limit)
    ensures FilesValid(WriteAll(files, parts), left, limit)
    ensures |WriteAll(files, parts)| == |files| && SizesOf(WriteAll(files, parts)) == SizesOf(files)
    ensures |WriteAll(files, parts)[|files| - 1].bytes| == |files[|files| - 1].bytes| + |Flat(parts)|
  {
    if parts == [] {
      FlatOne([]);
    } else {
      var n := |parts| - 1;
      assert parts[..n] + [parts[n]] == parts;
      FlatPush(parts[..n], parts[n]);
      assert WriteAll(files, parts) == WriteBytes(WriteAll(files, parts[..n]), parts[n]);
      hide FilesValid, WriteAll, Flat;
      WriteAllKeeps(files, parts[..n], |parts[n]| + left, limit);
      WriteKeeps(WriteAll(files, parts[..n]), parts[n], left, limit);
    }
  }

  lemma BookNewFile(files: seq<File>, need: nat)
    ensures Booked(files + [NO_FILE], need) == files + [File([], [need])]
  {
    assert NO_FILE.sizes + [need] == [need];
  }

  /** A whole batch keeps to the roll rule. */
  lemma BatchKeepsFiles(files: seq<File>, written: nat, limit: nat, parts: seq<Bytes>)
    requires files != []
    ensures var need := |Flat(parts)|;
            var files' := WriteAll(Roll(files, written, need, limit), parts);
            FilesValid(files, 0, limit) && written == |files[|files| - 1].bytes| ==>
              && FilesValid(files', 0, limit) && AllSizes(files') == AllSizes(files) + [need]
              && WrittenAfterRoll(written, need, limit) + need == |files'[|files'| - 1].bytes|
  {
    hide FilesValid, WriteAll, Roll, Flat, WrittenAfterRoll;
    if FilesValid(files, 0, limit) && written == |files[|files| - 1].bytes| {
      RollKeeps(files, written, |Flat(parts)|, limit);
      WriteAllKeeps(Roll(files, written, |Flat(parts)|, limit), parts, 0, limit);
    }
  }

  /** Rolling moves no byte, and writing puts the batch behind everything before it. */
  lemma {:induction false} RollAndWrite(files: seq<File>, written: nat, need: nat, limit: nat, parts: seq<Bytes>)
    requires files != []
    ensures Roll(files, written, need, limit) != []
    ensures WriteAll(Roll(files, written, need, limit), parts) != []
    ensures AllBytes(WriteAll(Roll(files, written, need, limit), parts)) == AllBytes(files) + Flat(parts)
  {
    var n := |files| - 1;
    var rolled := Roll(files, written, need, limit);
    if written + need > limit {
      assert rolled[..|files|] == files;
      assert AllBytes(rolled) == AllBytes(files) + [];
    } else {
      assert rolled[..n] == files[..n];
    }
    WriteAllBytes(rolled, parts);
  }

  lemma {:induction false} WriteAllBytes(files: seq<File>, parts: seq<Bytes>)
    requires files != []
    ensures AllBytes(WriteAll(files, parts)) == AllBytes(files) + Flat(parts)
  {
    hide AllBytes, Flat, WriteBytes;
    if parts == [] {
      FlatOne([]);
      assert AllBytes(files) + [] == AllBytes(files);
    } else {
      var front, last := parts[..|parts| - 1], parts[|parts| - 1];
      assert WriteAll(files, parts) == WriteBytes(WriteAll(files, front), last);
      hide WriteAll;
      assert front + [last] == parts;
      FlatPush(front, last);
      WriteAllBytes(files, front);
      WriteKeepsBytes(WriteAll(files, front), last);
      assert AllBytes(files) + Flat(front) + last == AllBytes(files) + (Flat(front) + last);
    }
  }

  lemma WriteKeepsBytes(files: seq<File>, p: Bytes)
    requires files != []
    ensures AllBytes(WriteBytes(files, p)) == AllBytes(files) + p
  {
    var n := |files| - 1;
    assert WriteBytes(files, p)[..n] == files[..n];
  }

  // ------------------------------------------- the batch in the transition system

  /** Writing out the rest of a batch, one buffer at a time. */
  function Drain(w: World): (r: World)
    requires w.backend.Writing? && w.files != []
    ensures r.backend.Writing? && r.backend.todo == [] && r.files != []
    decreases |w.backend.todo|
  {
    if w.backend.todo == [] then w else Drain(Next(w, WriteBuffer))
  }

  lemma {:induction false} DrainWrites(w: World)
    requires w.backend.Writing? && w.files != []
    ensures Drain(w) == w.(files := WriteAll(w.files, w.backend.todo), backend := w.backend.(todo := []))
    decreases |w.backend.todo|
  {
    var todo := w.backend.todo;
    if todo == [] {
    } else {
      DrainWrites(Next(w, WriteBuffer));
      WriteAllFront(w.files, todo);
    }
  }

  lemma {:induction false} WriteAllFront(files: seq<File>, parts: seq<Bytes>)
    requires files != [] && parts != []
    ensures WriteAll(files, parts) == WriteAll(WriteBytes(files, parts[0]), parts[1..])
  {
    var n := |parts| - 1;
    if n == 0 {
      assert parts[..0] == [] && parts[1..] == [];
    } else {
      WriteAllFront(files, parts[..n]);
      assert parts[..n][1..] == parts[1..][..n - 1] && parts[1..][n - 1] == parts[n];
    }
  }

  /** From batch taken to batch written, the transition system does what `WriteBatch` does. */
  lemma BatchInProtocol(w: World)
    requires w.backend.HasBatch? && w.files != []
    ensures var parts := w.backend.batch;
            var w' := Next(Drain(Next(w, RollFile)), EndBatch);
            && w'.files == WriteAll(Roll(w.files, w.written, |Flat(parts)|, w.limit), parts)
            && w'.written == WrittenAfterRoll(w.written, |Flat(parts)|, w.limit) + |Flat(parts)|
            && w'.backend == AtTest && w'.shared == w.shared
  {
    hide Flat;
    DrainWrites(Next(w, RollFile));
  }
}
