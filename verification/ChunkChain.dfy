/** The chain of fixed-size chunks into which a message is written, and the
    flat byte string that it stands for: `Serialize` as a SERIALIZER. */
module ChunkChain {
  import opened Bits
  import opened Sequences
  import opened Division

  /** A byte of a chunk; `None` is memory that malloc handed out and nothing has written. */
  datatype Cell = None | Some(value: Byte)

  function Lift(data: seq<Byte>): (cells: seq<Cell>)
    ensures |cells| == |data|
    ensures forall k :: 0 <= k < |data| ==> cells[k] == Some(data[k])
  {
    seq(|data|, k requires 0 <= k < |data| => Some(data[k]))
  }

  function Blank(n: nat): (cells: seq<Cell>)
    ensures |cells| == n
    ensures forall k :: 0 <= k < n ==> cells[k] == None
  {
    seq(n, k => None)
  }

  // -------------------------------------------------- where the cursor stands

  /** What the lengths of the writes decide: whether the first chunk has spilled, the room left in
      the last chunk, whether every byte went to that room, and the offset of a cursor that never
      leaves the first chunk. */
  datatype Cursor = Cursor(spilled: bool, capacity: nat, sound: bool, off: nat)

  function LastPart(len: nat, base: nat): (r: nat)
    requires base > 0
    ensures r <= base
  {
    if len > base then LastPart(len - base, base) else len
  }

  /** A spill fills every chunk but the last, and leaves nothing in that one only if nothing spills. */
  lemma {:induction false} LastPartIs(len: nat, base: nat)
    requires base > 0
    ensures LastPart(len, base) == if len == 0 then 0 else (len - 1) % base + 1
    ensures LastPart(len, base) == 0 <==> len == 0
    ensures (len - LastPart(len, base)) % base == 0
  {
    if len <= base {
      if len > 0 {
        DivUnique(len - 1, base, 0, len - 1);
      }
      DivUnique(0, base, 0, 0);
    } else {
      LastPartIs(len - base, base);
      OneChunkLess(len - 1, base);
      OneChunkLess(len - LastPart(len, base), base);
    }
  }

  lemma OneChunkLess(n: nat, base: nat)
    requires base > 0 && n >= base
    ensures n % base == (n - base) % base
  {
    var q, r := (n - base) / base, (n - base) % base;
    assert n - base == base * q + r;
    assert base * (q + 1) == base * q + base;
    DivUnique(n, base, q + 1, r);
  }

  function AfterWrite(c: Cursor, len: nat, base: nat): (r: Cursor)
    requires 0 < base && c.capacity <= base
    ensures r.capacity <= base
  {
    var sound := c.sound && (!c.spilled || c.capacity == 0 || len == 0);
    if c.capacity > len then Cursor(c.spilled, c.capacity - len, sound, c.off + len)
    else
      var remain := LastPart(len - c.capacity, base);
      Cursor(true, base - remain, sound, c.off + remain)
  }

  function AfterWrites(lens: seq<nat>, base: nat): (r: Cursor)
    requires 0 < base
    ensures r.capacity <= base
  {
    if lens == [] then Cursor(false, base, true, 0)
    else AfterWrite(AfterWrites(lens[..|lens| - 1], base), lens[|lens| - 1], base)
  }

  /** As long as the message leaves room in its first chunk, every write is sound. */
  lemma {:induction false} SoundWhileItFits(lens: seq<nat>, base: nat)
    requires 0 < base
    ensures Sum(lens) < base <==> !AfterWrites(lens, base).spilled
    ensures Sum(lens) < base ==> AfterWrites(lens, base) == Cursor(false, base - Sum(lens), true, Sum(lens))
  {
    if lens == [] {
    } else {
      SoundWhileItFits(lens[..|lens| - 1], base);
    }
  }

  /** Once a write of at least one byte has followed a spill into a chunk with room,
      no later write makes up for it. */
  lemma {:induction false} NeverSoundAgain(lens: seq<nat>, more: seq<nat>, base: nat)
    requires 0 < base && !AfterWrites(lens, base).sound
    ensures !AfterWrites(lens + more, base).sound
  {
    if more == [] {
      assert lens + more == lens;
    } else {
      var n := |more| - 1;
      NeverSoundAgain(lens, more[..n], base);
      assert (lens + more)[..|lens + more| - 1] == lens + more[..n];
    }
  }

  /** The smallest failure: a chunk filled exactly, and one byte more. */
  lemma OneByteAfterAFullChunk(base: nat)
    requires 0 < base
    ensures AfterWrites([base], base).sound && !AfterWrites([base, 1], base).sound
  {
    assert [base, 1][..1] == [base];
    assert [base][..0] == [];
    assert AfterWrites([base], base) == Cursor(true, base, true, 0);
  }

  /** A spill that ends with a chunk leaves it full: what follows opens a new one, and is sound. */
  lemma ByteAfterTwoChunks(base: nat)
    requires 0 < base
    ensures AfterWrites([2 * base], base).capacity == 0 && AfterWrites([2 * base, 1], base).sound
  {
    assert [2 * base, 1][..1] == [2 * base];
    assert [2 * base][..0] == [];
    assert LastPart(base, base) == base;
    assert AfterWrites([2 * base], base) == Cursor(true, 0, true, base);
  }

  // ------------------------------------------------------- chunks as values

  lemma ConcatHead(parts: seq<seq<Cell>>)
    requires parts != []
    ensures Concat(parts) == parts[0] + Concat(parts[1..])
  {
    ConcatAppend([parts[0]], parts[1..]);
    ConcatOne(parts[0]);
    assert [parts[0]] + parts[1..] == parts;
  }

  /** The bytes of a chain whose last chunk has `used` cells in use. */
  function InUse(mem: seq<seq<Cell>>, used: nat): seq<Cell>
    requires mem != [] && used <= |mem[|mem| - 1]|
  {
    Concat(mem[..|mem| - 1]) + mem[|mem| - 1][..used]
  }

  lemma ConcatPrefix(parts: seq<seq<Cell>>, j: nat)
    requires j <= |parts|
    ensures Concat(parts[..j]) <= Concat(parts)
  {
    ConcatAppend(parts[..j], parts[j..]);
    assert parts[..j] + parts[j..] == parts;
  }

  /** Reading `s` bytes of chunk `j` after all earlier chunks. */
  lemma ReadUpTo(mem: seq<seq<Cell>>, used: nat, j: nat, s: nat)
    requires mem != [] && used <= |mem[|mem| - 1]| && j < |mem|
    requires |Concat(mem[..j])| + s <= |InUse(mem, used)|
    ensures j == |mem| - 1 ==> s <= used
    ensures s <= |mem[j]| ==> Concat(mem[..j]) + mem[j][..s] == InUse(mem, used)[..|Concat(mem[..j])| + s]
    ensures Concat(mem[..j + 1]) == Concat(mem[..j]) + mem[j]
  {
    assert mem[..j + 1][..j] == mem[..j];
    var last := |mem| - 1;
    if j < last {
      ConcatPrefix(mem[..last], j + 1);
      assert mem[..last][..j + 1] == mem[..j + 1];
    }
  }

  /** memmove of `data` to offset `off` of a chunk; bytes beyond the chunk are outside this model. */
  function Overwrite(chunk: seq<Cell>, off: nat, data: seq<Byte>): (r: seq<Cell>)
    ensures |r| == |chunk|
  {
    seq(|chunk|, k requires 0 <= k < |chunk| => if off <= k < off + |data| then Some(data[k - off]) else chunk[k])
  }

  lemma GrowLast(mem: seq<seq<Cell>>, used: nat, data: seq<Byte>)
    requires mem != [] && used + |data| <= |mem[|mem| - 1]|
    ensures var chunk := Overwrite(mem[|mem| - 1], used, data);
            && InUse(mem[|mem| - 1 := chunk], used + |data|) == InUse(mem, used) + Lift(data)
            && chunk[used + |data|..] == mem[|mem| - 1][used + |data|..]
  {
    var last := |mem| - 1;
    var chunk := Overwrite(mem[last], used, data);
    assert mem[last := chunk][..last] == mem[..last];
    assert chunk[..used + |data|] == mem[last][..used] + Lift(data);
  }

  /** The chain after `data` went to a cursor at `off` in the first of several chunks, while its room
      was taken from the last: the first chunk is overwritten, and the last keeps a hole. */
  function Stale(image: seq<Cell>, off: nat, base: nat, data: seq<Byte>): seq<Cell>
    requires base <= |image|
  {
    Overwrite(image[..base], off, data) + image[base..] + Blank(|data|)
  }

  lemma StaleTail(image: seq<Cell>, off: nat, base: nat, data: seq<Byte>)
    requires base <= |image|
    ensures |Stale(image, off, base, data)| == |image| + |data|
    ensures Stale(image, off, base, data)[base..] == image[base..] + Blank(|data|)
    ensures data == [] ==> Stale(image, off, base, data) == image + Lift(data)
  {
    assert data == [] ==> Overwrite(image[..base], off, data) == image[..base];
  }

  lemma ChangeFirst(mem: seq<seq<Cell>>, chunk: seq<Cell>, used: nat, n: nat)
    requires |mem| > 1 && used + n <= |mem[|mem| - 1]| && |chunk| == |mem[0]|
    requires mem[|mem| - 1][used..used + n] == Blank(n)
    ensures |InUse(mem, used)| >= |chunk|
    ensures InUse(mem[0 := chunk], used + n) == chunk + InUse(mem, used)[|chunk|..] + Blank(n)
    ensures InUse(mem, used)[..|chunk|] == mem[0]
  {
    var last := |mem| - 1;
    var mem' := mem[0 := chunk];
    ConcatHead(mem[..last]);
    ConcatHead(mem'[..last]);
    assert mem'[..last][1..] == mem[..last][1..];
    assert mem[last][..used + n] == mem[last][..used] + Blank(n);
  }

  lemma NewLast(mem: seq<seq<Cell>>, chunk: seq<Cell>, n: nat)
    requires mem != [] && n <= |chunk|
    ensures InUse(mem + [chunk], n) == InUse(mem, |mem[|mem| - 1]|) + chunk[..n]
  {
    var last := |mem| - 1;
    assert (mem + [chunk])[..last + 1] == mem;
    assert mem[last][..|mem[last]|] == mem[last];
  }

  /** Either the image is what was written, or bytes are missing from a later chunk. */
  ghost predicate Stores(image: seq<Cell>, written: seq<Byte>, sound: bool, base: nat) {
    && |image| == |written|
    && if sound then image == Lift(written)
       else exists hole :: base <= hole < |image| && image[hole] == None
  }

  /** One write: `n` bytes go where the cursor stands, the rest into new chunks. */
  lemma StoresStep(image: seq<Cell>, mid: seq<Cell>, written: seq<Byte>, data: seq<Byte>, n: nat,
                   atTail: bool, sound: bool, base: nat)
    requires Stores(image, written, sound, base) && n <= |data| && |mid| == |image| + n
    requires atTail || n == 0 ==> mid == image + Lift(data[..n])
    requires !atTail ==> |image| >= base && mid[base..] == image[base..] + Blank(n)
    ensures Stores(mid + Lift(data[n..]), written + data, sound && (atTail || n == 0), base)
  {
    hide Lift, Blank;
    var image' := mid + Lift(data[n..]);
    if sound && (atTail || n == 0) {
      assert data == data[..n] + data[n..];
      assert image' == Lift(written + data);
    } else if !sound {
      var hole :| base <= hole < |image| && image[hole] == None;
      if !atTail {
        assert mid[hole] == mid[base..][hole - base];
      }
      assert image'[hole] == None;
    } else {
      assert mid[|image|] == mid[base..][|image| - base];
      assert image'[|image|] == None;
    }
  }

  // --------------------------------------------------------------- the chain

  class Node {
    const str: array<Cell>
    var next: Node?

    constructor (baseSize: nat)
      ensures fresh(str) && str.Length == baseSize && next == null
      ensures forall k :: 0 <= k < baseSize ==> str[k] == None
    {
      str := new Cell[baseSize](_ => None);
      next := null;
    }
  }

  class Serializer {
    const baseSize: nat
    /** Whether a spill moves the cursor into the new chunk.  The source does not:
        line 123 advances the cursor inside the chunk where it was. */
    const repositions: bool
    var head: Node
    var tail: Node
    var curNode: Node   // the chunk and the offset that `_cur` points to
    var curOff: nat
    var capacity: nat
    var size: nat       // a uint32_t

    ghost var chunks: seq<Node>
    ghost var mem: seq<seq<Cell>>  // what each chunk holds
    ghost var total: nat           // the number of bytes in use
    ghost var written: seq<Byte>   // everything passed to Write
    ghost var lens: seq<nat>       // the lengths of those calls
    ghost var Repr: set<object>

    /** The nodes are a list without sharing. */
    ghost predicate Links()
      reads this`chunks, this`head, this`tail, this`Repr, Repr
    {
      && |chunks| > 0
      && (forall i :: 0 <= i < |chunks| ==>
            chunks[i] in Repr && chunks[i].str in Repr && chunks[i].str.Length == baseSize)
      && (forall i, j :: 0 <= i < j < |chunks| ==> chunks[i] != chunks[j] && chunks[i].str != chunks[j].str)
      && (forall i :: 0 <= i < |chunks| - 1 ==> chunks[i].next == chunks[i + 1])
      && head == chunks[0] && tail == chunks[|chunks| - 1] && tail.next == null
    }

    ghost predicate Mirrors()
      reads this`chunks, this`head, this`tail, this`Repr, this`mem, Repr
      requires Links()
    {
      |mem| == |chunks| && forall i :: 0 <= i < |chunks| ==> mem[i] == chunks[i].str[..]
    }

    /** Every chunk but the last is full, and the last is blank from `capacity` on. */
    ghost predicate Holds()
      reads this`chunks, this`head, this`tail, this`Repr, this`mem, Repr, this`capacity
      requires Links()
    {
      && Mirrors() && capacity <= baseSize
      && mem[|mem| - 1][baseSize - capacity..] == Blank(capacity)
    }

    /** The flat byte string that the chain stands for. */
    ghost function Image(): seq<Cell>
      reads this`chunks, this`head, this`tail, this`Repr, this`mem, Repr, this`capacity
      requires Links() && Holds()
    {
      InUse(mem, baseSize - capacity)
    }

    ghost predicate Chain()
      reads this`chunks, this`head, this`tail, this`Repr, this`mem, Repr, this`capacity,
            this`size, this`total
    {
      this !in Repr && 0 < baseSize < TWO32 && Links() && Holds() && size == total % TWO32 && |Image()| == total
    }

    ghost predicate AtTail()
      reads this`curNode, this`curOff, this`tail, this`capacity
    {
      curNode == tail && curOff == baseSize - capacity
    }

    ghost predicate Valid()
      reads this, Repr
    {
      && Chain()
      && (if repositions then AtTail()
          else curNode == head && curOff == AfterWrites(lens, baseSize).off && (|chunks| == 1 ==> AtTail()))
      && AfterWrites(lens, baseSize).capacity == capacity
      && AfterWrites(lens, baseSize).spilled == (|chunks| > 1)
      && Stores(Image(), written, Sound(), baseSize)
    }

    /** The guarantee: each write found the cursor where its bytes belong. */
    ghost predicate Sound()
      reads this`lens
      requires baseSize > 0
    {
      repositions || AfterWrites(lens, baseSize).sound
    }

    constructor (baseSize: nat, repositions: bool)
      requires 0 < baseSize < TWO32
      ensures Valid() && fresh(Repr)
      ensures this.baseSize == baseSize && this.repositions == repositions
      ensures written == [] && lens == []
    {
      var n := new Node(baseSize);
      this.baseSize, this.repositions := baseSize, repositions;
      head, tail, curNode, curOff := n, n, n, 0;
      capacity, size := baseSize, 0;
      chunks, mem, total, written, lens := [n], [Blank(baseSize)], 0, [], [];
      Repr := {n, n.str};
      new;
      assert mem[0] == n.str[..];
    }

    /** memmove to the cursor, which is in chunk `k`. */
    method CopyToCursor(data: seq<Byte>, ghost k: nat)
      requires Links() && Mirrors() && k < |chunks| && chunks[k] == curNode
      modifies this`mem, curNode.str
      ensures Links() && Mirrors()
      ensures mem == old(mem)[k := Overwrite(old(mem)[k], curOff, data)]
    {
      var i := 0;
      while i < |data| && curOff + i < curNode.str.Length
        invariant i <= |data| && mem == old(mem)
        invariant forall j :: 0 <= j < curNode.str.Length ==>
                    curNode.str[j] == if curOff <= j < curOff + i then Some(data[j - curOff]) else old(curNode.str[j])
      {
        curNode.str[curOff + i] := Some(data[i]);
        i := i + 1;
      }
      mem := mem[k := Overwrite(mem[k], curOff, data)];
      assert mem[k] == curNode.str[..];
      assert forall i :: 0 <= i < |chunks| && i != k ==> chunks[i].str[..] == old(chunks[i].str[..]);
    }

    method Count(n: nat)
      requires size == total % TWO32
      modifies this`size, this`total
      ensures total == old(total) + n && size == total % TWO32
    {
      AddMod(total, n, TWO32);
      size := (size + n) % TWO32;
      total := total + n;
    }

    /** Writes `data` where the cursor stands and takes its room from the last chunk. */
    method Fill(data: seq<Byte>)
      requires Chain() && |data| <= capacity
      requires AtTail() || (curNode == head && |chunks| > 1)
      modifies this`capacity, this`size, this`total, this`mem, curNode.str
      ensures Chain() && capacity == old(capacity) - |data| && total == old(total) + |data|
      ensures old(AtTail()) ==> Image() == old(Image()) + Lift(data)
      ensures !old(AtTail()) ==>
                |old(Image())| >= baseSize && Image() == Stale(old(Image()), curOff, baseSize, data)
    {
      hide InUse, Lift, Blank, Overwrite;
      ghost var last, used := |mem| - 1, baseSize - capacity;
      assert mem[last][used + |data|..] == Blank(capacity - |data|);
      if AtTail() {
        GrowLast(mem, used, data);
      } else {
        assert mem[last][used..used + |data|] == Blank(|data|);
        ChangeFirst(mem, Overwrite(mem[0], curOff, data), used, |data|);
      }
      CopyToCursor(data, if AtTail() then last else 0);
      capacity := capacity - |data|;
      Count(|data|);
    }

    twostate predicate CursorUnmoved()
      reads this`head, this`curNode, this`curOff, this`written, this`lens
    {
      && head == old(head) && curNode == old(curNode) && curOff == old(curOff)
      && written == old(written) && lens == old(lens)
    }

    /** A new last chunk that begins with `data`. */
    method Grow(data: seq<Byte>)
      requires Chain() && capacity == 0 && |data| <= baseSize
      modifies this, Repr
      ensures Chain() && capacity == baseSize - |data| && total == old(total) + |data|
      ensures Image() == old(Image()) + Lift(data)
      ensures |chunks| > |old(chunks)| && head == chunks[0] && CursorUnmoved()
      ensures fresh(Repr - old(Repr))
    {
      hide InUse, Lift, Blank, Concat;
      var n := NewChunk(data);
      NewLast(mem, n.str[..], |data|);
      AppendNode(n);
      capacity := baseSize - |data|;
      Count(|data|);
    }

    method NewChunk(data: seq<Byte>) returns (n: Node)
      requires |data| <= baseSize
      ensures fresh(n) && fresh(n.str) && n.str.Length == baseSize && n.next == null
      ensures n.str[..|data|] == Lift(data) && n.str[|data|..] == Blank(baseSize - |data|)
    {
      n := new Node(baseSize);
      var i := 0;
      while i < |data|
        invariant i <= |data| && n.next == null
        invariant forall j :: 0 <= j < baseSize ==> n.str[j] == if j < i then Some(data[j]) else None
      {
        n.str[i] := Some(data[i]);
        i := i + 1;
      }
    }

    method AppendNode(n: Node)
      requires Links() && Mirrors()
      requires n !in Repr && n.str !in Repr && n.str.Length == baseSize && n.next == null
      modifies this`mem, this`chunks, this`tail, this`Repr, tail`next
      ensures Links() && Mirrors() && tail == n
      ensures mem == old(mem) + [n.str[..]] && chunks == old(chunks) + [n] && Repr == old(Repr) + {n, n.str}
    {
      tail.next := n;
      tail := n;
      chunks := chunks + [n];
      mem := mem + [n.str[..]];
      Repr := Repr + {n, n.str};
    }

    /** The rest of a spilling write: as many new chunks as it takes. */
    method Spill(data: seq<Byte>) returns (remain: nat)
      requires Chain() && capacity == 0
      modifies this, Repr
      ensures Chain() && capacity == baseSize - remain && total == old(total) + |data|
      ensures remain == LastPart(|data|, baseSize)
      ensures Image() == old(Image()) + Lift(data)
      ensures |chunks| > |old(chunks)| && head == chunks[0] && CursorUnmoved()
      ensures fresh(Repr - old(Repr))
    {
      hide InUse, Mirrors, Lift, Blank, Chain, Links, Holds, Image;
      var p := 0;
      remain := |data|;
      ChainParts();
      ghost var before := Image();
      assert before + Lift(data[..0]) == before by { assert data[..0] == []; }
      while remain > baseSize
        invariant Chain() && Links() && Holds() && |chunks| > 0 && capacity == 0 && total == old(total) + p
        invariant p + remain == |data| && LastPart(remain, baseSize) == LastPart(|data|, baseSize)
        invariant Image() == before + Lift(data[..p])
        invariant |chunks| >= |old(chunks)| && head == chunks[0] && CursorUnmoved()
        invariant fresh(Repr - old(Repr))
      {
        Grow(data[p..p + baseSize]);
        ChainParts();
        LiftSplit(before, data, p, p + baseSize);
        p := p + baseSize;
        remain := remain - baseSize;
      }
      Grow(data[p..]);
      ChainParts();
      LiftSplit(before, data, p, |data|);
    }

    lemma ChainParts()
      requires Chain()
      ensures 0 < baseSize && Links() && Holds() && |chunks| > 0 && head == chunks[0]
    {
    }

    static lemma LiftSplit(before: seq<Cell>, data: seq<Byte>, p: nat, q: nat)
      requires p <= q <= |data|
      ensures before + Lift(data[..p]) + Lift(data[p..q]) == before + Lift(data[..q])
      ensures data[p..|data|] == data[p..] && data[..|data|] == data
    {
      assert Lift(data[..q]) == Lift(data[..p]) + Lift(data[p..q]);
    }

    /** Without the repair the cursor stays in the first chunk for good. */
    lemma WhereTheCursorIs()
      requires Valid()
      ensures AtTail() <==> repositions || |chunks| == 1
      ensures AtTail() || (curNode == head && |chunks| > 1)
      ensures |chunks| > 0 && curNode.str in Repr
    {
    }

    /** How many bytes of a write go to the room in the last chunk. */
    static function Direct(capacity: nat, len: nat): nat { if capacity > len then len else capacity }

    /** How many bytes the cursor advances: those of a write that fits, else those in the last chunk. */
    static function Advance(capacity: nat, len: nat, base: nat): nat
      requires base > 0
    {
      if capacity > len then len else if len == capacity then 0 else (len - capacity - 1) % base + 1
    }

    /** What a write does to the chain and to the cursor, from the state before it. */
    ghost predicate Placed(data: seq<Byte>, image: seq<Cell>, atTail: bool, node: Node, off: nat, room: nat)
      requires Chain() && room <= baseSize
      reads this, Repr
    {
      var p, advance := Direct(room, |data|), Advance(room, |data|, baseSize);
      && (if atTail then Image() == image + Lift(data)
          else baseSize <= |image| && Image() == Stale(image, off, baseSize, data[..p]) + Lift(data[p..]))
      && capacity == (if room > |data| then room - advance else baseSize - advance)
      && (if repositions then AtTail() else curNode == node && curOff == off + advance)
    }

    /** The source's `write`: the caller's bytes join the message. */
    method Write(data: seq<Byte>)
      requires Valid()
      modifies this, Repr
      ensures Valid() && fresh(Repr - old(Repr))
      ensures Placed(data, old(Image()), old(AtTail()), old(curNode), old(curOff), old(capacity))
      ensures written == old(written) + data && lens == old(lens) + [|data|]
    {
      if capacity > |data| {
        WriteInPlace(data);
      } else {
        WriteAcross(data);
      }
    }

    /** The first branch of `write`: the last chunk has room to spare. */
    method WriteInPlace(data: seq<Byte>)
      requires Valid() && capacity > |data|
      modifies this, Repr
      ensures Valid() && fresh(Repr - old(Repr))
      ensures Placed(data, old(Image()), old(AtTail()), old(curNode), old(curOff), old(capacity))
      ensures written == old(written) + data && lens == old(lens) + [|data|]
    {
      hide InUse, Links, Mirrors, Holds, Lift, Blank, Stale, Stores, AfterWrites, LastPart, Image;
      ghost var image, wasSound, atTail, off := Image(), Sound(), AtTail(), curOff;
      WhereTheCursorIs();
      Fill(data);
      WholeWrite(image, Image(), written, data, atTail, off, wasSound, baseSize);
      curOff := curOff + |data|;
      AfterMore(lens, |data|, baseSize);
      written, lens := written + data, lens + [|data|];
    }

    static lemma WholeWrite(image: seq<Cell>, mid: seq<Cell>, written: seq<Byte>, data: seq<Byte>,
                            atTail: bool, off: nat, sound: bool, base: nat)
      requires Stores(image, written, sound, base)
      requires if atTail then mid == image + Lift(data) else base <= |image| && mid == Stale(image, off, base, data)
      ensures Stores(mid, written + data, sound && (atTail || data == []), base)
      ensures data[..|data|] == data && mid + Lift(data[|data|..]) == mid
    {
      hide Stale, Stores;
      if !atTail {
        StaleTail(image, off, base, data);
      }
      assert data[..|data|] == data && Lift(data[|data|..]) == [] && mid + [] == mid;
      StoresStep(image, mid, written, data, |data|, atTail, sound, base);
    }

    /** The second branch: fill the last chunk, then open new ones. */
    method WriteAcross(data: seq<Byte>)
      requires Valid() && capacity <= |data|
      modifies this, Repr
      ensures Valid() && fresh(Repr - old(Repr))
      ensures Placed(data, old(Image()), old(AtTail()), old(curNode), old(curOff), old(capacity))
      ensures written == old(written) + data && lens == old(lens) + [|data|]
    {
      hide InUse, Links, Mirrors, Holds, Lift, Blank, Stale, Stores, AfterWrites, LastPart, Image;
      ghost var image, wasSound, atTail, off, p := Image(), Sound(), AtTail(), curOff, capacity;
      WhereTheCursorIs();
      var remain;
      ghost var mid;
      remain, mid := FillThenSpill(data);
      LastPartIs(|data| - p, baseSize);
      SplitWrite(image, mid, written, data, p, atTail, off, wasSound, baseSize);
      if repositions {
        curNode, curOff := tail, remain;
      } else {
        curOff := curOff + remain;
      }
      AfterMore(lens, |data|, baseSize);
      written, lens := written + data, lens + [|data|];
    }

    static lemma SplitWrite(image: seq<Cell>, mid: seq<Cell>, written: seq<Byte>, data: seq<Byte>, p: nat,
                            atTail: bool, off: nat, sound: bool, base: nat)
      requires Stores(image, written, sound, base) && p <= |data|
      requires if atTail then mid == image + Lift(data[..p])
               else base <= |image| && mid == Stale(image, off, base, data[..p])
      ensures Stores(mid + Lift(data[p..]), written + data, sound && (atTail || p == 0), base)
      ensures atTail ==> mid + Lift(data[p..]) == image + Lift(data)
    {
      hide Stale, Stores, Lift;
      if atTail {
        LiftSplit(image, data, p, |data|);
      } else {
        StaleTail(image, off, base, data[..p]);
      }
      StoresStep(image, mid, written, data, p, atTail, sound, base);
    }

    /** All of that branch but the cursor; `mid` is what the chain holds in between. */
    method FillThenSpill(data: seq<Byte>) returns (remain: nat, ghost mid: seq<Cell>)
      requires Chain() && capacity <= |data| && (AtTail() || (curNode == head && |chunks| > 1)) && curNode.str in Repr
      modifies this, Repr
      ensures Chain() && capacity == baseSize - remain && remain == LastPart(|data| - old(capacity), baseSize)
      ensures Image() == mid + Lift(data[old(capacity)..])
      ensures if old(AtTail()) then mid == old(Image()) + Lift(data[..old(capacity)])
              else && baseSize <= |old(Image())|
                   && mid == Stale(old(Image()), old(curOff), baseSize, data[..old(capacity)])
      ensures |chunks| > |old(chunks)| && head == chunks[0] && CursorUnmoved()
      ensures fresh(Repr - old(Repr))
    {
      hide InUse, Links, Mirrors, Holds, Lift, Blank, Stale, LastPart, Image;
      var p := capacity;
      Fill(data[..p]);
      mid := Image();
      remain := Spill(data[p..]);
    }

    static lemma AfterMore(lens: seq<nat>, n: nat, base: nat)
      requires base > 0
      ensures AfterWrites(lens + [n], base) == AfterWrite(AfterWrites(lens, base), n, base)
    {
      assert (lens + [n])[..|lens|] == lens;
    }

    /** The message as a string: exact if and only if every write was sound and
        the byte count, a uint32_t, has not wrapped. */
    method ToString() returns (ret: seq<Cell>)
      requires Valid()
      ensures ret == Lift(written) <==> Sound() && |written| < TWO32
      ensures size == |written| % TWO32 && size <= |Image()| && ret == Image()[..size]
    {
      hide InUse, Lift;
      ret := [];
      var tmp: Node? := head;
      var s: nat := size;
      ghost var j := 0;
      ghost var used := baseSize - capacity;
      assert mem[..0] == [];
      AtMostWhole();
      while tmp != null && s > baseSize
        invariant j < |chunks| && tmp == chunks[j]
        invariant ret == Concat(mem[..j]) && |ret| + s == size
        invariant |Concat(mem[..j])| + s <= |InUse(mem, used)|
        decreases s
      {
        ReadUpTo(mem, used, j, s);
        ret := ret + tmp.str[..baseSize];
        s := s - baseSize;
        tmp := tmp.next;
        j := j + 1;
      }
      ReadUpTo(mem, used, j, s);
      ret := ret + tmp.str[..s];
      ExactOrNot(ret);
    }

    lemma AtMostWhole()
      requires Valid()
      ensures size == |written| % TWO32 && size <= |Image()| == |written|
      ensures size == |written| <==> |written| < TWO32
    {
    }

    lemma ExactOrNot(ret: seq<Cell>)
      requires Valid() && size <= |Image()| && ret == Image()[..size]
      ensures ret == Lift(written) <==> Sound() && |written| < TWO32
    {
      hide InUse, Links, Holds, Mirrors;
      AtMostWhole();
      if |written| < TWO32 {
        assert ret == Image();
        if !Sound() {
          var hole :| baseSize <= hole < |Image()| && Image()[hole] == None;
          assert Lift(written)[hole] != None;
        }
      }
    }

    static lemma AddMod(x: nat, n: nat, m: nat)
      requires m > 0
      ensures (x % m + n) % m == (x + n) % m
    {
      var q := (x % m + n) / m;
      assert x % m + n == m * q + (x % m + n) % m;
      assert x == m * (x / m) + x % m;
      assert m * (x / m + q) == m * (x / m) + m * q;
      DivUnique(x + n, m, x / m + q, (x % m + n) % m);
    }
  }
}
