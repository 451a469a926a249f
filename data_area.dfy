/**
 * The data area of a Type 2 Tag as the reader walks it: from block 4, in
 * READ BINARY commands of at most 16 bytes, until the capability container's
 * byte budget is spent. `ReadPlan` is the series of commands, `StreamOf` the
 * bytes a card's answers to them make up.
 */
module DataArea {
  import opened NfcTypes
  import opened CommandFramer

  /** The first block after the capability container. */
  const DATA_AREA_BLOCK: byte := 4
  const BLOCK_SIZE: nat := 4
  /** The most bytes one READ BINARY asks for (four blocks). */
  const MAX_CHUNK: nat := 16

  /** The data-area size in bytes: the capability container gives it in units of 8 bytes. */
  function DataAreaBytes(size: byte): nat
  {
    size * 8
  }

  /** The size of the next request when `left` bytes remain. */
  function ChunkLength(left: nat): nat
  {
    if left > MAX_CHUNK then MAX_CHUNK else left
  }

  /** The block counter after a request of `readBytes` bytes; the counter is a byte and wraps past 255. */
  function NextBlock(block: byte, readBytes: nat): byte
  {
    (block + readBytes / 4) % 256
  }

  /** The READ BINARY commands the reader sends, in order, to read `left` bytes from `block` on. */
  function ReadPlan(block: byte, left: nat): (plan: seq<CommandApdu>)
    ensures left == 0 <==> plan == []
    decreases left
  {
    if left == 0 then []
    else
      var n := ChunkLength(left);
      [ReadBinary(block, n)] + ReadPlan(NextBlock(block, n), left - n)
  }

  /** The first command of a plan, and the plan for what is left after it. */
  lemma PlanStep(block: byte, left: nat)
    requires left > 0
    ensures ReadPlan(block, left) ==
            [ReadBinary(block, ChunkLength(left))] + ReadPlan(NextBlock(block, ChunkLength(left)), left - ChunkLength(left))
  {
  }

  /** Every command of the plan is a READ BINARY of 1 to 16 bytes. */
  lemma {:induction false} PlanCommands(block: byte, left: nat)
    ensures forall i :: 0 <= i < |ReadPlan(block, left)| ==>
              ReadPlan(block, left)[i] == ReadBinary(ReadPlan(block, left)[i].p2, ReadPlan(block, left)[i].le) &&
              0 < ReadPlan(block, left)[i].le <= MAX_CHUNK
    decreases left
  {
    if left > 0 {
      var n := ChunkLength(left);
      var plan := ReadPlan(block, left);
      var rest := ReadPlan(NextBlock(block, n), left - n);
      assert plan == [ReadBinary(block, n)] + rest;
      PlanCommands(NextBlock(block, n), left - n);
      forall i | 0 <= i < |plan|
        ensures plan[i] == ReadBinary(plan[i].p2, plan[i].le) && 0 < plan[i].le <= MAX_CHUNK
      {
        if i > 0 {
          assert plan[i] == rest[i - 1];
        }
      }
    }
  }

  /** The total number of bytes a series of commands asks for. */
  function Requested(plan: seq<CommandApdu>): nat
  {
    if plan == [] then 0 else plan[0].le + Requested(plan[1..])
  }

  /** The requests add up to exactly the budget: the data area is never over-requested. */
  lemma {:induction false} PlanRequestsBudget(block: byte, left: nat)
    ensures Requested(ReadPlan(block, left)) == left
    decreases left
  {
    if left > 0 {
      var n := ChunkLength(left);
      assert ReadPlan(block, left)[1..] == ReadPlan(NextBlock(block, n), left - n);
      PlanRequestsBudget(NextBlock(block, n), left - n);
    }
  }

  /**
   * Every request is 16 bytes except the last, which takes what remains: the
   * plan has as many commands as 16-byte chunks the budget needs.
   */
  lemma {:induction false} PlanChunkSizes(block: byte, left: nat)
    ensures left > 0 ==> 16 * (|ReadPlan(block, left)| - 1) < left <= 16 * |ReadPlan(block, left)|
    ensures forall i :: 0 <= i < |ReadPlan(block, left)| - 1 ==> ReadPlan(block, left)[i].le == MAX_CHUNK
    ensures left > 0 ==> ReadPlan(block, left)[|ReadPlan(block, left)| - 1].le == left - 16 * (|ReadPlan(block, left)| - 1)
    decreases left
  {
    if left > 0 {
      var n := ChunkLength(left);
      var plan := ReadPlan(block, left);
      var rest := ReadPlan(NextBlock(block, n), left - n);
      assert plan == [ReadBinary(block, n)] + rest;
      PlanChunkSizes(NextBlock(block, n), left - n);
      if left > MAX_CHUNK {
        assert forall i :: 1 <= i < |plan| ==> plan[i] == rest[i - 1];
      }
    }
  }

  /** With a budget that is a multiple of 8, as every capability container gives, the last request is 8 or 16 bytes. */
  lemma PlanLastChunk(block: byte, left: nat)
    requires left > 0 && left % 8 == 0
    ensures ReadPlan(block, left)[|ReadPlan(block, left)| - 1].le in {8, 16}
  {
    PlanChunkSizes(block, left);
    var m := |ReadPlan(block, left)| - 1;
    var q := left / 8;
    assert left == 8 * q;
    assert ReadPlan(block, left)[m].le == 8 * (q - 2 * m);
  }

  /** Every request but the last is 16 bytes, so request k addresses block `block + 4k`, wrapped to a byte. */
  lemma {:induction false} PlanBlocks(block: byte, left: nat)
    ensures forall k :: 0 <= k < |ReadPlan(block, left)| ==> ReadPlan(block, left)[k].p2 == (block + 4 * k) % 256
    decreases left
  {
    if left > 0 {
      var n := ChunkLength(left);
      var next := NextBlock(block, n);
      var plan := ReadPlan(block, left);
      var rest := ReadPlan(next, left - n);
      assert plan == [ReadBinary(block, n)] + rest;
      PlanBlocks(next, left - n);
      forall k | 1 <= k < |plan|
        ensures plan[k].p2 == (block + 4 * k) % 256
      {
        assert plan[k] == rest[k - 1];
        assert n == 16 && next == (block + 4) % 256;
        BlockStep(block, k);
      }
    }
  }

  lemma BlockStep(block: byte, k: nat)
    requires k >= 1
    ensures ((block + 4) % 256 + 4 * (k - 1)) % 256 == (block + 4 * k) % 256
  {
    var j := 4 * (k - 1);
    assert block + 4 * k == block + 4 + j;
    if block + 4 >= 256 {
      assert (block + 4) % 256 == block + 4 - 256;
      ModShift(block + 4 + j);
    }
  }

  lemma ModShift(x: int)
    requires x >= 256
    ensures (x - 256) % 256 == x % 256
  {
  }

  /** While the area ends at or below block 256, request k addresses block `block + 4k` with no wrap. */
  lemma {:induction false} PlanBlocksNoWrap(block: byte, left: nat)
    requires 4 * (block as int) + left <= 1024
    ensures forall k :: 0 <= k < |ReadPlan(block, left)| ==> ReadPlan(block, left)[k].p2 == block as int + 4 * k
    decreases left
  {
    if left > 0 {
      var n := ChunkLength(left);
      var next := NextBlock(block, n);
      var plan := ReadPlan(block, left);
      var rest := ReadPlan(next, left - n);
      assert plan == [ReadBinary(block, n)] + rest;
      if left > MAX_CHUNK {
        NoWrapWithinArea(block, left);
        PlanBlocksNoWrap(next, left - n);
        assert forall k :: 1 <= k < |plan| ==> plan[k] == rest[k - 1];
      }
    }
  }

  /**
   * A data area of 127 * 8 bytes or more runs past block 255: the 64th request
   * goes to block 0 rather than 256, because the block counter wraps.
   */
  lemma PlanWrapsPastBlock255(size: byte)
    requires size >= 127
    ensures |ReadPlan(DATA_AREA_BLOCK, DataAreaBytes(size))| >= 64
    ensures ReadPlan(DATA_AREA_BLOCK, DataAreaBytes(size))[63].p2 == 0
  {
    var left := DataAreaBytes(size);
    var plan := ReadPlan(DATA_AREA_BLOCK, left);
    assert left >= 1016;
    PlanChunkSizes(DATA_AREA_BLOCK, left);
    assert |plan| >= 64;
    PlanBlocks(DATA_AREA_BLOCK, left);
    assert plan[63].p2 == (4 + 4 * 63) % 256 == 0;
  }

  /** Up to 126 * 8 bytes, request k goes to block 4 + 4k and no block is addressed twice. */
  lemma PlanInRange(size: byte)
    requires size <= 126
    ensures forall k :: 0 <= k < |ReadPlan(DATA_AREA_BLOCK, DataAreaBytes(size))| ==>
              ReadPlan(DATA_AREA_BLOCK, DataAreaBytes(size))[k].p2 == DATA_AREA_BLOCK + 4 * k
  {
    PlanBlocksNoWrap(DATA_AREA_BLOCK, DataAreaBytes(size));
  }

  /**
   * The bytes the answers to `plan` make up: the data of each answer, in
   * order, up to the first answer whose status is not normal, where the
   * stream breaks with that status.
   */
  function StreamOf(transmit: CommandApdu -> Response, plan: seq<CommandApdu>): (s: Stream)
    ensures s.tail.Broken? ==> s.tail.cause.StatusNotNormal? && s.tail.cause.sw1 != SW1_NORMAL
  {
    if plan == [] then Stream([], Exhausted)
    else
      match CheckStatus(transmit(plan[0]))
      case Err(e) => Stream([], Broken(e))
      case Ok(data) => Prepend(data, StreamOf(transmit, plan[1..]))
  }

  /**
   * The stream of a plan, one command at a time: the first chunk's answer
   * either puts its data in front of what the rest of the plan yields, or
   * breaks the stream with its status.
   */
  lemma StreamOfPlanStep(transmit: CommandApdu -> Response, block: byte, left: nat)
    requires left > 0
    ensures var n := ChunkLength(left);
            var resp := transmit(ReadBinary(block, n));
            StreamOf(transmit, ReadPlan(block, left)) ==
              if resp.sw1 == SW1_NORMAL then Prepend(resp.data, StreamOf(transmit, ReadPlan(NextBlock(block, n), left - n)))
              else Stream([], Broken(StatusNotNormal(resp.sw1)))
  {
    var n := ChunkLength(left);
    var plan := ReadPlan(block, left);
    assert plan[0] == ReadBinary(block, n);
    assert plan[1..] == ReadPlan(NextBlock(block, n), left - n);
  }

  /** The stream runs to its end exactly when every answer has a normal status. */
  lemma {:induction false} StreamOfExhausted(transmit: CommandApdu -> Response, plan: seq<CommandApdu>)
    ensures StreamOf(transmit, plan).tail == Exhausted <==>
            forall i :: 0 <= i < |plan| ==> transmit(plan[i]).sw1 == SW1_NORMAL
  {
    if plan != [] {
      StreamOfExhausted(transmit, plan[1..]);
      assert forall i :: 1 <= i < |plan| ==> plan[i] == plan[1..][i - 1];
    }
  }

  /** The bytes of the tag's data area, read as the reader reads them. */
  function DataAreaStream(transmit: CommandApdu -> Response, size: byte): Stream
  {
    StreamOf(transmit, ReadPlan(DATA_AREA_BLOCK, DataAreaBytes(size)))
  }

  /** Answers to a series of commands followed by more commands: the later ones count only if the first ran through. */
  lemma {:induction false} StreamOfAppend(transmit: CommandApdu -> Response, p: seq<CommandApdu>, q: seq<CommandApdu>)
    ensures StreamOf(transmit, p + q) ==
            if StreamOf(transmit, p).tail == Exhausted
            then Prepend(StreamOf(transmit, p).bytes, StreamOf(transmit, q))
            else StreamOf(transmit, p)
  {
    if p == [] {
      assert p + q == q;
    } else {
      assert (p + q)[0] == p[0];
      assert (p + q)[1..] == p[1..] + q;
      StreamOfAppend(transmit, p[1..], q);
    }
  }

  /** Two cards that answer the commands of `plan` alike make up the same stream. */
  lemma {:induction false} StreamOfAgree(transmit: CommandApdu -> Response, transmit': CommandApdu -> Response,
                                         plan: seq<CommandApdu>)
    requires forall i :: 0 <= i < |plan| ==> transmit(plan[i]) == transmit'(plan[i])
    ensures StreamOf(transmit, plan) == StreamOf(transmit', plan)
  {
    if plan != [] {
      assert forall i :: 0 <= i < |plan[1..]| ==> plan[1..][i] == plan[i + 1];
      StreamOfAgree(transmit, transmit', plan[1..]);
    }
  }

  /**
   * A card that answers each READ BINARY with the bytes of its memory image
   * at that block (4 bytes per block) and a normal status.
   */
  ghost function MemoryTag(mem: seq<byte>): CommandApdu -> Response
  {
    (c: CommandApdu) => MemoryAnswer(mem, c)
  }

  /** The memory-image card's answer to one command; a read past the end of memory fails. */
  ghost function MemoryAnswer(mem: seq<byte>, c: CommandApdu): Response
  {
    if 4 * (c.p2 as int) + c.le <= |mem| then Response(mem[4 * (c.p2 as int) .. 4 * (c.p2 as int) + c.le], SW1_NORMAL)
    else Response([], 0x6A)
  }

  lemma MemoryTagAnswers(mem: seq<byte>, block: byte, n: nat)
    requires 4 * (block as int) + n <= |mem|
    ensures MemoryTag(mem)(ReadBinary(block, n)) == Response(mem[4 * (block as int) .. 4 * (block as int) + n], SW1_NORMAL)
  {
  }

  /** A normal answer to the first command puts its data in front of the rest of the stream. */
  lemma StreamOfNormal(transmit: CommandApdu -> Response, c: CommandApdu, rest: seq<CommandApdu>)
    requires transmit(c).sw1 == SW1_NORMAL
    ensures StreamOf(transmit, [c] + rest) == Prepend(transmit(c).data, StreamOf(transmit, rest))
  {
    assert ([c] + rest)[0] == c;
    assert ([c] + rest)[1..] == rest;
  }

  /** Below block 256 the wrap never happens: a full chunk advances the block by exactly 4. */
  lemma NoWrapWithinArea(block: byte, left: nat)
    requires left > MAX_CHUNK && 4 * (block as int) + left <= 1024
    ensures ChunkLength(left) == 16 && NextBlock(block, 16) == block + 4
    ensures 4 * (NextBlock(block, 16) as int) == 4 * (block as int) + 16
  {
  }

  /** One step of reading a memory-image card: the first chunk's bytes, then the rest of the plan. */
  lemma MemoryTagStep(mem: seq<byte>, block: byte, left: nat)
    requires 0 < left && 4 * (block as int) + ChunkLength(left) <= |mem|
    ensures var n := ChunkLength(left);
            StreamOf(MemoryTag(mem), ReadPlan(block, left)) ==
            Prepend(mem[4 * (block as int) .. 4 * (block as int) + n], StreamOf(MemoryTag(mem), ReadPlan(NextBlock(block, n), left - n)))
  {
    var n := ChunkLength(left);
    var later := ReadPlan(NextBlock(block, n), left - n);
    assert ReadPlan(block, left) == [ReadBinary(block, n)] + later;
    MemoryTagAnswers(mem, block, n);
    StreamOfNormal(MemoryTag(mem), ReadBinary(block, n), later);
  }

  /** The last chunk of a memory-image card. */
  lemma MemoryTagLast(mem: seq<byte>, block: byte, left: nat)
    requires 0 < left <= MAX_CHUNK && 4 * (block as int) + left <= |mem|
    ensures StreamOf(MemoryTag(mem), ReadPlan(block, left)) ==
            Stream(mem[4 * (block as int) .. 4 * (block as int) + left], Exhausted)
  {
    MemoryTagStep(mem, block, left);
    assert ReadPlan(NextBlock(block, left), 0) == [];
    var start := 4 * (block as int);
    assert mem[start .. start + left] == mem[start .. start + left] + [];
  }

  /** A full chunk of a memory-image card joined to what the card yields after it. */
  lemma MemoryTagJoin(mem: seq<byte>, block: byte, left: nat)
    requires MAX_CHUNK < left && 4 * (block as int) + left <= |mem| && 4 * (block as int) + left <= 1024
    requires StreamOf(MemoryTag(mem), ReadPlan(NextBlock(block, MAX_CHUNK), left - MAX_CHUNK)) ==
             Stream(mem[4 * (block as int) + MAX_CHUNK .. 4 * (block as int) + left], Exhausted)
    ensures StreamOf(MemoryTag(mem), ReadPlan(block, left)) ==
            Stream(mem[4 * (block as int) .. 4 * (block as int) + left], Exhausted)
  {
    var start := 4 * (block as int);
    var first, later := mem[start .. start + MAX_CHUNK], mem[start + MAX_CHUNK .. start + left];
    var after := StreamOf(MemoryTag(mem), ReadPlan(NextBlock(block, MAX_CHUNK), left - MAX_CHUNK));
    assert StreamOf(MemoryTag(mem), ReadPlan(block, left)) == Prepend(first, after) by {
      assert ChunkLength(left) == MAX_CHUNK;
      MemoryTagStep(mem, block, left);
    }
    assert first + later == mem[start .. start + left];
  }

  /**
   * Reading `left` bytes (a multiple of the block size) from `block` on a
   * memory-image card yields exactly those bytes of memory, as long as the
   * block counter does not wrap.
   */
  lemma {:induction false} MemoryTagStream(mem: seq<byte>, block: byte, left: nat)
    requires left % 4 == 0
    requires 4 * (block as int) + left <= |mem| && 4 * (block as int) + left <= 1024
    ensures StreamOf(MemoryTag(mem), ReadPlan(block, left)) ==
            Stream(mem[4 * (block as int) .. 4 * (block as int) + left], Exhausted)
    decreases left
  {
    if 0 < left <= MAX_CHUNK {
      MemoryTagLast(mem, block, left);
    } else if left > MAX_CHUNK {
      var next := NextBlock(block, MAX_CHUNK);
      NoWrapWithinArea(block, left);
      MemoryTagStream(mem, next, left - MAX_CHUNK);
      MemoryTagJoin(mem, block, left);
    }
  }
}


