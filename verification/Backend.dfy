/** The logging backend of `log/asyncLogging.*` as values: what each region under the
    lock does to the buffers, and how a batch reaches the log files. */
module Backend {
  import opened LogStream
  import opened Sequences

  /** `LogBuffer<100 * 20000 * 2>`. */
  const BUFFER_SIZE := 4_000_000

  // ------------------------------------------------------- under the lock

  /** The fields that producers and backend share.  `spare` says whether `_nextBuffer` is
      there; when it is, it is empty. */
  datatype Shared = Shared(current: Bytes, spare: bool, buffers: seq<Bytes>) {
    /** The bytes that wait for the backend, in order. */
    function Waiting(): Bytes { Flat(buffers) + current }

    /** What makes the drain handshake sound: there is always room for an empty payload, and the
        current buffer is empty only if nothing waits at all. */
    predicate Valid() {
      && |current| < BUFFER_SIZE
      && (forall i :: 0 <= i < |buffers| ==> |buffers[i]| <= BUFFER_SIZE)
      && (buffers != [] ==> current != [])
    }
  }

  const FRESH := Shared([], true, [])

  /** `append`. */
  function Accept(s: Shared, p: Bytes): Shared {
    if BUFFER_SIZE - |s.current| > |p| then s.(current := s.current + p)
    else Shared(p, false, s.buffers + [s.current])
  }

  /** The backend's region under the lock, once it stops waiting: it takes everything, and puts
      its two spare buffers in place. */
  function Taken(s: Shared): seq<Bytes> { s.buffers + [s.current] }

  /** The wait loop's guard, `_running && _buffers.empty() && _currentBuffer->size() == 0`. */
  predicate MustWait(s: Shared, running: bool) {
    running && s.buffers == [] && |s.current| == 0
  }

  lemma FlatPush(parts: seq<Bytes>, p: Bytes)
    ensures Flat(parts + [p]) == Flat(parts) + p
  {
    FlatAppend(parts, [p]);
    FlatOne(p);
  }

  /** A payload goes behind everything that waits. */
  lemma AcceptAppends(s: Shared, p: Bytes)
    ensures Accept(s, p).Waiting() == s.Waiting() + p
  {
    hide Flat;
    FlatPush(s.buffers, s.current);
    if BUFFER_SIZE - |s.current| <= |p| {
      assert Flat(s.buffers + [s.current]) + p == s.Waiting() + p;
    } else {
      assert Flat(s.buffers) + (s.current + p) == s.Waiting() + p;
    }
  }

  /** A buffer is handed over only when the payload does not fit, and the spare one takes its place. */
  lemma AcceptHandsOver(s: Shared, p: Bytes)
    ensures var s' := Accept(s, p);
            if |s.current| + |p| < BUFFER_SIZE
            then s'.current == s.current + p && s'.buffers == s.buffers && s'.spare == s.spare
            else s'.current == p && s'.buffers == s.buffers + [s.current] && !s'.spare
  {
  }

  /** If it is smaller than a buffer, the handshake's invariant is kept too. */
  lemma AcceptKeeps(s: Shared, p: Bytes)
    requires s.Valid() && |p| < BUFFER_SIZE
    ensures Accept(s, p).Valid() && Accept(s, p).Waiting() == s.Waiting() + p
  {
    AcceptAppends(s, p);
  }

  lemma TakenIsWaiting(s: Shared)
    ensures Flat(Taken(s)) == s.Waiting()
  {
    FlatPush(s.buffers, s.current);
  }

  /** A zero reading of the current buffer's size means that nothing waits. */
  lemma ZeroMeansDrained(s: Shared)
    requires s.Valid() && |s.current| == 0
    ensures s.Waiting() == []
  {
  }

  /** The shared state after these payloads, in the order of the lock, since the backend last took
      a batch. */
  function AcceptEach(ps: seq<Bytes>): Shared {
    if ps == [] then FRESH else Accept(AcceptEach(ps[..|ps| - 1]), ps[|ps| - 1])
  }

  predicate WithinBuffer(ps: seq<Bytes>) { forall i :: 0 <= i < |ps| ==> |ps[i]| <= BUFFER_SIZE }

  /** A payload of exactly a buffer's size, and after it nothing but empty ones, at least one. */
  predicate EndsFullThenEmpty(ps: seq<Bytes>) {
    var n := |ps| - 1;
    n >= 1 && ps[n] == [] && (|ps[n - 1]| == BUFFER_SIZE || EndsFullThenEmpty(ps[..n]))
  }

  /** How full the current buffer is, after payloads that the buffers can hold at all. */
  lemma {:induction false} CurrentAfter(ps: seq<Bytes>)
    requires WithinBuffer(ps)
    ensures var s := AcceptEach(ps);
            && |s.current| <= BUFFER_SIZE
            && (|s.current| == BUFFER_SIZE <==> ps != [] && |ps[|ps| - 1]| == BUFFER_SIZE)
            && (s.current == [] && s.buffers != [] <==> EndsFullThenEmpty(ps))
  {
    if ps == [] {
      assert AcceptEach(ps) == FRESH;
    } else {
      CurrentAfter(ps[..|ps| - 1]);
    }
  }

  /** The bytes that wait are those of the payloads, whatever their sizes. */
  lemma {:induction false} AllAreWaiting(ps: seq<Bytes>)
    ensures AcceptEach(ps).Waiting() == Flat(ps)
  {
    if ps == [] {
      FlatOne([]);
    } else {
      var n := |ps| - 1;
      AllAreWaiting(ps[..n]);
      AcceptAppends(AcceptEach(ps[..n]), ps[n]);
      FlatPush(ps[..n], ps[n]);
      assert ps[..n] + [ps[n]] == ps;
    }
  }

  /** The drain test of `stop` is fooled, that is, it reads zero while bytes wait, if and only if the
      payloads since the last batch end with one of exactly a buffer's size and then empty ones. */
  lemma StopIsFooled(ps: seq<Bytes>)
    requires WithinBuffer(ps)
    ensures var s := AcceptEach(ps);
            |s.current| == 0 && s.Waiting() != [] <==> EndsFullThenEmpty(ps)
  {
    hide AcceptEach, Flat;
    CurrentAfter(ps);
    AllAreWaiting(ps);
    FlatOne([]);
    var s := AcceptEach(ps);
    if EndsFullThenEmpty(ps) {
      HoldsFullPayload(ps);
    }
  }

  /** The shortest way to get there. */
  lemma FullPayloadFoolsStop(p: Bytes)
    requires |p| == BUFFER_SIZE
    ensures var s := AcceptEach([p, []]);
            |s.current| == 0 && s.Waiting() != []
  {
    assert [p, []][1] == [] && |[p, []][0]| == BUFFER_SIZE;
    StopIsFooled([p, []]);
  }

  lemma {:induction false} HoldsFullPayload(ps: seq<Bytes>)
    requires EndsFullThenEmpty(ps)
    ensures |Flat(ps)| >= BUFFER_SIZE
  {
    hide Flat;
    var n := |ps| - 1;
    if |ps[n - 1]| == BUFFER_SIZE {
      FlatPush(ps[..n - 1], ps[n - 1]);
      assert ps[..n - 1] + [ps[n - 1]] == ps[..n];
    } else {
      HoldsFullPayload(ps[..n]);
    }
    FlatPush(ps[..n], ps[n]);
    assert ps[..n] + [ps[n]] == ps;
  }

  // ------------------------------------------------------------- the files

  /** A log file: its bytes, and the sizes of the batches that went to it. */
  datatype File = File(bytes: Bytes, sizes: seq<nat>)

  const NO_FILE := File([], [])

  function AllBytes(files: seq<File>): Bytes {
    if files == [] then [] else AllBytes(files[..|files| - 1]) + files[|files| - 1].bytes
  }

  /** The sizes of the batches, file by file. */
  function SizesOf(files: seq<File>): (r: seq<seq<nat>>)
    ensures |r| == |files|
    ensures forall i :: 0 <= i < |files| ==> r[i] == files[i].sizes
  {
    seq(|files|, i requires 0 <= i < |files| => files[i].sizes)
  }

  /** The sizes of all batches, in order. */
  function AllSizes(files: seq<File>): seq<nat> { Concat<nat>(SizesOf(files)) }

  /** The books on the file that the next batch goes to; its bytes are not touched. */
  function Booked(files: seq<File>, need: nat): (r: seq<File>)
    requires files != []
    ensures r != []
  {
    files[|files| - 1 := files[|files| - 1].(sizes := files[|files| - 1].sizes + [need])]
  }

  /** Before a batch of `need` bytes: a new file if it would push the current one over the limit. */
  function Roll(files: seq<File>, written: nat, need: nat, limit: nat): (r: seq<File>)
    requires files != []
    ensures r != []
  {
    if written + need > limit then files + [File([], [need])] else Booked(files, need)
  }

  function WrittenAfterRoll(written: nat, need: nat, limit: nat): nat {
    if written + need > limit then 0 else written
  }

  function WriteBytes(files: seq<File>, p: Bytes): (r: seq<File>)
    requires files != []
    ensures |r| == |files|
  {
    files[|files| - 1 := files[|files| - 1].(bytes := files[|files| - 1].bytes + p)]
  }

  // The books on sizes: each file within the limit or of one batch, and no file begun too early.

  ghost predicate Packed(sizes: seq<seq<nat>>, limit: nat) {
    && (forall i :: 0 <= i < |sizes| ==> Within(sizes[i], limit))
    && (forall i :: 0 <= i < |sizes| - 1 ==> BegunInTime(sizes, i, limit))
  }

  /** A file stays within the limit, or holds exactly one batch. */
  predicate Within(batches: seq<nat>, limit: nat) { Sum(batches) <= limit || |batches| == 1 }

  /** The first batch of the next file would not have fitted. */
  predicate BegunInTime(sizes: seq<seq<nat>>, i: nat, limit: nat)
    requires i + 1 < |sizes|
  {
    sizes[i + 1] != [] && Sum(sizes[i]) + sizes[i + 1][0] > limit
  }

  lemma SumPush(ns: seq<nat>, n: nat)
    ensures Sum(ns + [n]) == Sum(ns) + n && Sum([n]) == n
  {
    assert (ns + [n])[..|ns|] == ns && [n][..0] == [];
  }

  /** The books at one place agree with other books. */
  lemma SameBooks(sizes: seq<seq<nat>>, sizes': seq<seq<nat>>, i: nat, limit: nat)
    requires i + 1 < |sizes| && i + 1 < |sizes'| && BegunInTime(sizes, i, limit)
    requires sizes'[i] == sizes[i] && sizes[i + 1] <= sizes'[i + 1]
    ensures BegunInTime(sizes', i, limit)
  {
  }

  lemma PackedNew(sizes: seq<seq<nat>>, need: nat, limit: nat)
    requires sizes != [] && Packed(sizes, limit) && Sum(sizes[|sizes| - 1]) + need > limit
    ensures Packed(sizes + [[need]], limit)
  {
    var sizes', n := sizes + [[need]], |sizes|;
    assert Within([need], limit) && BegunInTime(sizes', n - 1, limit);
    hide Within, BegunInTime, Sum;
    forall i | 0 <= i < n ensures BegunInTime(sizes', i, limit) {
      if i < n - 1 {
        SameBooks(sizes, sizes', i, limit);
      }
    }
  }

  lemma PackedMore(sizes: seq<seq<nat>>, need: nat, limit: nat)
    requires sizes != [] && Packed(sizes, limit) && Sum(sizes[|sizes| - 1]) + need <= limit
    ensures Packed(sizes[|sizes| - 1 := sizes[|sizes| - 1] + [need]], limit)
  {
    var n := |sizes| - 1;
    var sizes' := sizes[n := sizes[n] + [need]];
    assert Within(sizes'[n], limit) by { SumPush(sizes[n], need); }
    hide Within, BegunInTime, Sum;
    assert forall i :: 0 <= i < n ==> sizes'[i] == sizes[i];
    forall i | 0 <= i < n ensures BegunInTime(sizes', i, limit) {
      SameBooks(sizes, sizes', i, limit);
    }
  }

  /** The files while `left` bytes of the current batch are still to be written. */
  ghost predicate FilesValid(files: seq<File>, left: nat, limit: nat) {
    files != [] && Packed(SizesOf(files), limit) && Filled(files, left)
  }

  /** The books are those of the bytes. */
  predicate Filled(files: seq<File>, left: nat)
    requires files != []
  {
    && (forall i :: 0 <= i < |files| - 1 ==> |files[i].bytes| == Sum(files[i].sizes))
    && |files[|files| - 1].bytes| + left == Sum(files[|files| - 1].sizes)
  }

  /** A new file, and a batch for the current one: what either means for bytes, sizes and books. */
  lemma NewFileAt(files: seq<File>, need: nat)
    requires files != [] && Filled(files, 0)
    ensures var files' := files + [File([], [need])];
            AllBytes(files') == AllBytes(files) && SizesOf(files') == SizesOf(files) + [[need]] && Filled(files', need)
  {
    hide AllBytes, Sum;
    var files', n := files + [File([], [need])], |files|;
    SumPush([], need);
    OneFileMore(files, File([], [need]));
    assert SizesOf(files') == SizesOf(files) + [[need]];
    assert forall i :: 0 <= i < n ==> files'[i] == files[i];
  }

  lemma OneFileMore(files: seq<File>, f: File)
    ensures AllBytes(files + [f]) == AllBytes(files) + f.bytes
    ensures AllBytes(files) + [] == AllBytes(files)
  {
    assert (files + [f])[..|files|] == files;
  }

  lemma BookedAt(files: seq<File>, need: nat)
    requires files != [] && Filled(files, 0)
    ensures var files', n := Booked(files, need), |files| - 1;
            && AllBytes(files') == AllBytes(files) && files'[n].bytes == files[n].bytes
            && SizesOf(files') == SizesOf(files)[n := files[n].sizes + [need]] && Filled(files', need)
  {
    hide AllBytes, Sum;
    var files', n := Booked(files, need), |files| - 1;
    SumPush(files[n].sizes, need);
    SameBytes(files, files');
    assert SizesOf(files') == SizesOf(files)[n := files[n].sizes + [need]];
  }

  lemma SameBytes(files: seq<File>, files': seq<File>)
    requires |files| == |files'| > 0 && files[|files| - 1].bytes == files'[|files| - 1].bytes
    requires files[..|files| - 1] == files'[..|files| - 1]
    ensures AllBytes(files) == AllBytes(files')
  {
  }

  lemma NewFileKeeps(files: seq<File>, need: nat, limit: nat)
    requires FilesValid(files, 0, limit) && Sum(files[|files| - 1].sizes) + need > limit
    ensures var files' := files + [File([], [need])];
            && FilesValid(files', need, limit) && AllBytes(files') == AllBytes(files)
            && SizesOf(files') == SizesOf(files) + [[need]]
  {
    hide AllBytes, Packed, Sum, Filled;
    NewFileAt(files, need);
    PackedNew(SizesOf(files), need, limit);
  }

  lemma BookKeeps(files: seq<File>, need: nat, limit: nat)
    requires FilesValid(files, 0, limit) && Sum(files[|files| - 1].sizes) + need <= limit
    ensures var files', n := Booked(files, need), |files| - 1;
            && FilesValid(files', need, limit) && AllBytes(files') == AllBytes(files)
            && SizesOf(files') == SizesOf(files)[n := files[n].sizes + [need]]
            && files'[n].bytes == files[n].bytes
  {
    hide AllBytes, Packed, Sum, Filled, Booked;
    BookedAt(files, need);
    PackedMore(SizesOf(files), need, limit);
  }

  lemma SizesGrow(sizes: seq<seq<nat>>, need: nat)
    requires sizes != []
    ensures Concat<nat>(sizes + [[need]]) == Concat<nat>(sizes) + [need]
    ensures Concat<nat>(sizes[|sizes| - 1 := sizes[|sizes| - 1] + [need]]) == Concat<nat>(sizes) + [need]
  {
    var n := |sizes| - 1;
    assert (sizes + [[need]])[..|sizes|] == sizes;
    assert sizes[n := sizes[n] + [need]][..n] == sizes[..n];
    assert Concat<nat>(sizes[..n]) + (sizes[n] + [need]) == Concat<nat>(sizes[..n]) + sizes[n] + [need];
  }

  /** The roll decision moves no byte and adds one batch to the books, which stay right. */
  lemma RollKeeps(files: seq<File>, written: nat, need: nat, limit: nat)
    requires FilesValid(files, 0, limit) && written == |files[|files| - 1].bytes|
    ensures var files' := Roll(files, written, need, limit);
            && FilesValid(files', need, limit) && AllBytes(files') == AllBytes(files)
            && AllSizes(files') == AllSizes(files) + [need]
            && WrittenAfterRoll(written, need, limit) == |files'[|files'| - 1].bytes|
  {
    hide AllBytes, Packed, Concat, Sum;
    SizesGrow(SizesOf(files), need);
    if written + need > limit {
      NewFileKeeps(files, need, limit);
    } else {
      BookKeeps(files, need, limit);
    }
  }

  lemma WriteKeeps(files: seq<File>, p: Bytes, left: nat, limit: nat)
    requires FilesValid(files, |p| + left, limit)
    ensures FilesValid(WriteBytes(files, p), left, limit)
    ensures AllBytes(WriteBytes(files, p)) == AllBytes(files) + p
    ensures SizesOf(WriteBytes(files, p)) == SizesOf(files)
    ensures |WriteBytes(files, p)[|files| - 1].bytes| == |files[|files| - 1].bytes| + |p|
  {
    hide Sum, Packed;
    var files', n := WriteBytes(files, p), |files| - 1;
    assert files'[..n] == files[..n];
    assert SizesOf(files') == SizesOf(files);
  }
}
