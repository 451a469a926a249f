/**
 * The NFC Type 2 Tag reader: it checks the capability container, then walks
 * the data area chunk by chunk, fetching a chunk only when the TLV decoder
 * has used up the one before, and returns the value of the first NDEF Message
 * TLV.
 *
 * The ghost field `exchanges` records every command sent to the card, so
 * that the contracts can say which reads were made.
 */
module NfcTag {
  import opened NfcTypes
  import opened CommandFramer
  import opened CapabilityContainer
  import opened DataArea
  import opened Tlv

  /** The capability container of a card, once read and accepted by the tag detection procedure. */
  function ValidatedCc(transmit: CommandApdu -> Response): (r: Result<seq<byte>>)
    ensures r.Ok? ==> |r.value| >= CC_SIZE && CcCheck(r.value).Ok?
  {
    var cc :- CheckStatus(transmit(ReadBinary(CC_BLOCK, CC_SIZE)));
    var _ :- CcCheck(cc);
    Ok(cc)
  }

  /** What reading an NDEF message from a card yields: the decoder run over the data area the container announces. */
  function ReadNdefSpec(transmit: CommandApdu -> Response): (r: Result<seq<byte>>)
    ensures ValidatedCc(transmit).Err? ==> r == Err(ValidatedCc(transmit).error)
    ensures r.Ok? ==> ValidatedCc(transmit).Ok? && |r.value| < 0x10000
    ensures ValidatedCc(transmit).Ok? && r.Err? ==>
              r.error in {UnexpectedTag, NoNdefMessage, Truncated} || r.error.StatusNotNormal?
  {
    var cc :- ValidatedCc(transmit);
    var area := DataAreaStream(transmit, cc[2]);
    Decode(area.bytes, area.tail)
  }

  /** When every read of the data area is answered normally, the reader decodes the whole data area as read to its end. */
  lemma ReadNdefAllNormal(transmit: CommandApdu -> Response)
    requires ValidatedCc(transmit).Ok?
    requires forall c :: c in ReadPlan(DATA_AREA_BLOCK, DataAreaBytes(ValidatedCc(transmit).value[2])) ==>
               transmit(c).sw1 == SW1_NORMAL
    ensures ReadNdefSpec(transmit) == DecodeTlv(DataAreaStream(transmit, ValidatedCc(transmit).value[2]).bytes)
  {
    var plan := ReadPlan(DATA_AREA_BLOCK, DataAreaBytes(ValidatedCc(transmit).value[2]));
    StreamOfExhausted(transmit, plan);
    assert forall i :: 0 <= i < |plan| ==> plan[i] in plan;
  }

  /**
   * A card whose memory holds a valid capability container in block 3 and a
   * data area of at most 126 * 8 bytes from block 4 yields the decoding of
   * exactly that data area.
   */
  lemma ReadFromMemoryTag(mem: seq<byte>)
    requires |mem| >= 16 && CcCheck(mem[12..16]).Ok?
    requires mem[14] <= 126 && 16 + DataAreaBytes(mem[14]) <= |mem|
    ensures ReadNdefSpec(MemoryTag(mem)) == DecodeTlv(mem[16 .. 16 + DataAreaBytes(mem[14])])
  {
    MemoryTagAnswers(mem, CC_BLOCK, CC_SIZE);
    assert ValidatedCc(MemoryTag(mem)) == Ok(mem[12..16]);
    MemoryTagStream(mem, DATA_AREA_BLOCK, DataAreaBytes(mem[14]));
  }

  /** A message read from a card is a run of consecutive bytes of its data area, as the card answered the reads. */
  lemma ReadNdefInArea(transmit: CommandApdu -> Response)
    requires ReadNdefSpec(transmit).Ok?
    ensures ValidatedCc(transmit).Ok?
    ensures exists i: nat :: OccursAt(ReadNdefSpec(transmit).value, DataAreaStream(transmit, ValidatedCc(transmit).value[2]).bytes, i)
  {
    var area := DataAreaStream(transmit, ValidatedCc(transmit).value[2]);
    DecodeMessageInArea(area.bytes, area.tail);
  }

  /**
   * Once the bytes of the first k data-area reads hold the answer, nothing the
   * card answers to later reads changes it: a card that answers the
   * capability container and those k reads alike gives the same result.
   */
  lemma LaterReadsCannotSpoil(transmit: CommandApdu -> Response, transmit': CommandApdu -> Response, k: nat)
    requires ValidatedCc(transmit).Ok?
    requires k <= |ReadPlan(DATA_AREA_BLOCK, DataAreaBytes(ValidatedCc(transmit).value[2]))|
    requires var early := StreamOf(transmit, ReadPlan(DATA_AREA_BLOCK, DataAreaBytes(ValidatedCc(transmit).value[2]))[..k]);
             Decode(early.bytes, early.tail).Ok?
    requires transmit'(ReadBinary(CC_BLOCK, CC_SIZE)) == transmit(ReadBinary(CC_BLOCK, CC_SIZE))
    requires forall i :: 0 <= i < k ==>
               transmit'(ReadPlan(DATA_AREA_BLOCK, DataAreaBytes(ValidatedCc(transmit).value[2]))[i]) ==
               transmit(ReadPlan(DATA_AREA_BLOCK, DataAreaBytes(ValidatedCc(transmit).value[2]))[i])
    ensures ReadNdefSpec(transmit') == ReadNdefSpec(transmit)
  {
    var cc := ValidatedCc(transmit).value;
    assert ValidatedCc(transmit') == ValidatedCc(transmit);
    var plan := ReadPlan(DATA_AREA_BLOCK, DataAreaBytes(cc[2]));
    var p, q := plan[..k], plan[k..];
    assert plan == p + q;
    var early := StreamOf(transmit, p);
    StreamOfAgree(transmit, transmit', p);
    assert StreamOf(transmit', p) == early;
    EarlyAnswerStands(transmit, p, q);
    EarlyAnswerStands(transmit', p, q);
  }

  /** A stream that already decodes keeps its answer whatever later commands bring. */
  lemma EarlyAnswerStands(transmit: CommandApdu -> Response, p: seq<CommandApdu>, q: seq<CommandApdu>)
    requires Decode(StreamOf(transmit, p).bytes, StreamOf(transmit, p).tail).Ok?
    ensures var whole := StreamOf(transmit, p + q);
            Decode(whole.bytes, whole.tail) == Decode(StreamOf(transmit, p).bytes, StreamOf(transmit, p).tail)
  {
    var early := StreamOf(transmit, p);
    StreamOfAppend(transmit, p, q);
    if early.tail == Exhausted {
      DecodeExtend(early.bytes, StreamOf(transmit, q).bytes, early.tail, StreamOf(transmit, q).tail);
    }
  }

  /** A log that, followed by the requests still to come, equals `before` followed by `plan` extends `before` by a prefix of `plan`. */
  lemma {:induction false} LogPrefix<T>(log: seq<T>, pending: seq<T>, before: seq<T>, plan: seq<T>)
    requires log + pending == before + plan && |log| >= |before|
    ensures log[..|before|] == before && log[|before|..] <= plan
  {
    forall i | 0 <= i < |before|
      ensures log[i] == before[i]
    {
      assert (log + pending)[i] == (before + plan)[i];
    }
    forall i | 0 <= i < |log| - |before|
      ensures log[|before| + i] == plan[i]
    {
      assert (log + pending)[|before| + i] == (before + plan)[|before| + i];
    }
  }

  /**
   * One fetch as the cursor sees it: with nothing in hand, the stream still
   * to come is the first chunk's data followed by the stream of the rest of
   * the plan, or breaks at once with the first chunk's status.
   */
  lemma FetchStream(transmit: CommandApdu -> Response, block: byte, left: nat)
    requires left > 0
    ensures var n := ChunkLength(left);
            var answer := CheckStatus(transmit(ReadBinary(block, n)));
            StreamOf(transmit, ReadPlan(block, left)) ==
              if answer.Ok? then Prepend(answer.value, StreamOf(transmit, ReadPlan(NextBlock(block, n), left - n)))
              else Stream([], Broken(answer.error))
  {
    StreamOfPlanStep(transmit, block, left);
  }

  /** One fetch as the log sees it: the command moves from the plan still to come to the end of the log. */
  lemma FetchLog(log: seq<CommandApdu>, block: byte, left: nat)
    requires left > 0
    ensures var n := ChunkLength(left);
            (log + [ReadBinary(block, n)]) + ReadPlan(NextBlock(block, n), left - n) == log + ReadPlan(block, left)
  {
    var n := ChunkLength(left);
    PlanStep(block, left);
  }

  class NfcTagReader {
    const reader: CardReader
    /** The capability container last read from block 3. */
    var cc: seq<byte>
    /** Every command sent to the card so far, in order. */
    ghost var exchanges: seq<CommandApdu>

    constructor (reader: CardReader)
      ensures this.reader == reader && cc == [] && exchanges == []
    {
      this.reader := reader;
      cc := [];
      exchanges := [];
    }

    /** One READ BINARY of `bytes` bytes from `block`: its data, or a failure when SW1 is not normal processing. */
    method ReadBlocks(block: byte, bytes: nat := 16) returns (r: Result<seq<byte>>)
      modifies this`exchanges
      ensures exchanges == old(exchanges) + [ReadBinary(block, bytes)]
      ensures r.Ok? <==> reader.transmit(ReadBinary(block, bytes)).sw1 == SW1_NORMAL
      ensures r == CheckStatus(reader.transmit(ReadBinary(block, bytes)))
    {
      var apdu := ReadBinary(block, bytes);
      var response := reader.transmit(apdu);
      exchanges := exchanges + [apdu];
      if response.sw1 != SW1_NORMAL {
        return Err(StatusNotNormal(response.sw1));
      }
      return Ok(response.data);
    }

    /**
     * The tag detection procedure: reads the capability container into `cc`
     * and checks magic number, version and read access, in that order.
     */
    method ValidateNfcTag() returns (r: Result<()>)
      modifies this`cc, this`exchanges
      ensures exchanges == old(exchanges) + [ReadBinary(CC_BLOCK, CC_SIZE)]
      ensures var resp := reader.transmit(ReadBinary(CC_BLOCK, CC_SIZE));
              if resp.sw1 == SW1_NORMAL then cc == resp.data && r == CcCheck(cc)
              else cc == old(cc) && r == Err(StatusNotNormal(resp.sw1))
      ensures r.Ok? <==> ValidatedCc(reader.transmit).Ok?
      ensures r.Ok? ==> cc == ValidatedCc(reader.transmit).value
    {
      var data :- ReadBlocks(CC_BLOCK, CC_SIZE);
      cc := data;
      if |cc| < 1 {
        return Err(IndexOutOfRange);
      }
      if cc[0] != MAGIC_NUMBER {
        return Err(BadMagicNumber);
      }
      if |cc| < 2 {
        return Err(IndexOutOfRange);
      }
      if cc[1] != VERSION {
        return Err(VersionMismatch);
      }
      if |cc| < 4 {
        return Err(IndexOutOfRange);
      }
      if (cc[3] as bv8) & 0xF0 != 0 {
        return Err(NoUnencryptedRead);
      }
      return Ok(());
    }

    /** A cursor over the data area, from block 4, with the byte budget of the capability container; nothing is read yet. */
    method ReadRemainingData() returns (e: DataAreaEnumerator)
      requires |cc| > 2
      ensures fresh(e) && e.owner == this && e.Valid()
      ensures e.Rest() == DataAreaStream(reader.transmit, cc[2])
      ensures e.plan == ReadPlan(DATA_AREA_BLOCK, DataAreaBytes(cc[2]))
      ensures e.logBase == exchanges
    {
      e := new DataAreaEnumerator(this);
    }

    /** Reads a length field at the cursor: one byte, or 0xFF and a big-endian 16-bit value. */
    method ReadLengthField(e: DataAreaEnumerator) returns (r: Result<nat>)
      requires e.owner == this && e.Valid()
      modifies e, this`exchanges
      ensures e.Logged()
      ensures var field := LengthField(old(e.Rest()).bytes, old(e.Rest()).tail);
              match field
              case Ok(lr) => r == Ok(lr.length) && e.Valid() && e.Rest() == Drop(old(e.Rest()), lr.size)
              case Err(cause) => r == Err(cause)
    {
      ghost var start := e.Rest();
      var more :- e.MoveNext();
      if !more {
        return Err(Truncated);
      }
      var length: nat;
      if e.current == LONG_LENGTH {
        more :- e.MoveNext();
        if !more {
          return Err(Truncated);
        }
        length := e.current as int * 256;
        more :- e.MoveNext();
        if !more {
          return Err(Truncated);
        }
        length := length + e.current;
        assert e.Rest() == Drop(start, 3);
      } else {
        length := e.current;
      }
      return Ok(length);
    }

    /** Reads the next `length` bytes at the cursor, in order. */
    method ReadValueField(e: DataAreaEnumerator, length: nat) returns (r: Result<seq<byte>>)
      requires e.owner == this && e.Valid()
      modifies e, this`exchanges
      ensures e.Logged()
      ensures r.Ok? <==> length <= |old(e.Rest()).bytes|
      ensures r.Ok? ==> r.value == old(e.Rest()).bytes[..length] && e.Valid() && e.Rest() == Drop(old(e.Rest()), length)
      ensures r.Err? ==> r.error == EndError(old(e.Rest()).tail, Truncated)
    {
      ghost var start := e.Rest();
      var message: seq<byte> := [];
      for i := 0 to length
        invariant e.Valid() && i <= |start.bytes|
        invariant message == start.bytes[..i]
        invariant e.Rest() == Drop(start, i)
      {
        var more :- e.MoveNext();
        if !more {
          return Err(Truncated);
        }
        message := message + [e.current];
      }
      return Ok(message);
    }

    /**
     * The TLV loop: skips NULL TLVs and TLVs of other types until an NDEF
     * Message TLV, whose value it returns, or a Terminator TLV, for which it
     * returns the empty message; bytes are pulled from the cursor one at a
     * time.
     */
    method ReadTlvs(e: DataAreaEnumerator) returns (r: Result<seq<byte>>)
      requires e.owner == this && e.Valid()
      modifies e, this`exchanges
      ensures e.Logged()
      ensures r == Decode(old(e.Rest()).bytes, old(e.Rest()).tail)
    {
      ghost var spec := Decode(e.Rest().bytes, e.Rest().tail);
      while true
        invariant e.Valid()
        invariant Decode(e.Rest().bytes, e.Rest().tail) == spec
        decreases |e.Rest().bytes|
      {
        ghost var before := e.Rest();
        var more :- e.MoveNext();
        if !more {
          break;
        }
        var tag := e.current;
        assert before.bytes == [tag] + e.Rest().bytes;
        if tag == LONG_LENGTH {
          return Err(UnexpectedTag);
        }
        if tag == NULL_TLV_TAG {
          continue;
        }
        if tag == TERMINATOR_TLV_TAG {
          return Ok([]);
        }
        var length :- ReadLengthField(e);
        if tag == NDEF_MESSAGE_TLV_TAG {
          r := ReadValueField(e, length);
          return;
        } else {
          var _ :- ReadValueField(e, length);
        }
      }
      return Err(NoNdefMessage);
    }

    /**
     * Reads the NDEF message of the tag: validates the capability container,
     * then runs the TLV loop over the data area it announces. The commands
     * sent are the read of the capability container and then a prefix of the
     * data-area reads.
     */
    method ReadNdefMessage() returns (r: Result<seq<byte>>)
      modifies this`cc, this`exchanges
      ensures r == ReadNdefSpec(reader.transmit)
      ensures ValidatedCc(reader.transmit).Err? ==> exchanges == old(exchanges) + [ReadBinary(CC_BLOCK, CC_SIZE)]
      ensures ValidatedCc(reader.transmit).Ok? ==>
                |exchanges| > |old(exchanges)| &&
                exchanges[..|old(exchanges)| + 1] == old(exchanges) + [ReadBinary(CC_BLOCK, CC_SIZE)] &&
                exchanges[|old(exchanges)| + 1..] <= ReadPlan(DATA_AREA_BLOCK, DataAreaBytes(ValidatedCc(reader.transmit).value[2]))
    {
      var valid := ValidateNfcTag();
      if valid.Err? {
        return Err(valid.error);
      }
      var e := ReadRemainingData();
      r := ReadTlvs(e);
      LogPrefix(exchanges, ReadPlan(e.block, e.bytesLeftToRead), e.logBase, e.plan);
    }
  }

  /**
   * The enumerator of the data area: `block` and `bytesLeftToRead` say what
   * is still to be requested, `chunk` is the answer of the last request and
   * `index` how much of it has been yielded. `Rest()` is the stream the
   * enumerator still yields.
   */
  class DataAreaEnumerator {
    const owner: NfcTagReader
    var block: byte
    var bytesLeftToRead: nat
    var chunk: seq<byte>
    var index: nat
    /** The byte yielded last. */
    var current: byte
    /** The commands this enumerator has sent, and the ones it would send if run to the end. */
    ghost const plan: seq<CommandApdu>
    /** The owner's log when the enumerator was made. */
    ghost const logBase: seq<CommandApdu>

    /** The owner's log, followed by the requests still to come, is what came before followed by the whole plan. */
    ghost predicate Logged()
      reads this, owner
    {
      |owner.exchanges| >= |logBase| && owner.exchanges + ReadPlan(block, bytesLeftToRead) == logBase + plan
    }

    ghost predicate Valid()
      reads this, owner
    {
      Logged() && index <= |chunk|
    }

    /** The bytes still to be yielded: the rest of the chunk in hand, then what the remaining requests bring. */
    ghost function Rest(): Stream
      reads this
      requires index <= |chunk|
    {
      Prepend(chunk[index..], StreamOf(owner.reader.transmit, ReadPlan(block, bytesLeftToRead)))
    }

    constructor (owner: NfcTagReader)
      requires |owner.cc| > 2
      ensures this.owner == owner && Valid()
      ensures Rest() == DataAreaStream(owner.reader.transmit, owner.cc[2])
      ensures plan == ReadPlan(DATA_AREA_BLOCK, DataAreaBytes(owner.cc[2]))
      ensures logBase == owner.exchanges
    {
      this.owner := owner;
      block := DATA_AREA_BLOCK;
      bytesLeftToRead := owner.cc[2] as int * 8;
      chunk, index, current := [], 0, 0;
      plan := ReadPlan(DATA_AREA_BLOCK, DataAreaBytes(owner.cc[2]));
      logBase := owner.exchanges;
    }

    /**
     * Requests the next chunk, of at most 16 bytes, once the one in hand is
     * used up; the stream still to be yielded does not change, unless the
     * request fails, in which case that failure was the stream's end.
     */
    method FetchChunk() returns (r: Result<()>)
      requires Valid() && index == |chunk| && bytesLeftToRead > 0
      modifies this`block, this`bytesLeftToRead, this`chunk, this`index, owner`exchanges
      ensures Logged()
      ensures owner.exchanges == old(owner.exchanges) + [ReadBinary(old(block), ChunkLength(old(bytesLeftToRead)))]
      ensures r.Ok? ==> Valid() && Rest() == old(Rest()) && bytesLeftToRead < old(bytesLeftToRead)
      ensures r.Err? ==> old(Rest()) == Stream([], Broken(r.error))
    {
      var readBytes := ChunkLength(bytesLeftToRead);
      ghost var stream := Rest();
      assert stream == StreamOf(owner.reader.transmit, ReadPlan(block, bytesLeftToRead)) by {
        assert chunk[index..] == [];
        assert [] + stream.bytes == stream.bytes;
      }
      FetchStream(owner.reader.transmit, block, bytesLeftToRead);
      FetchLog(owner.exchanges, block, bytesLeftToRead);
      var data := owner.ReadBlocks(block, readBytes);
      chunk, index := [], 0;
      block, bytesLeftToRead := NextBlock(block, readBytes), bytesLeftToRead - readBytes;
      if data.Err? {
        return Err(data.error);
      }
      chunk := data.value;
      assert chunk[index..] == data.value;
      r := Ok(());
    }

    /**
     * Advances to the next byte, requesting the next chunk (of at most 16
     * bytes) only when the one in hand is used up: true with the byte in
     * `current`, false at the end of the data area, or the failure of a
     * request.
     */
    method MoveNext() returns (r: Result<bool>)
      requires Valid()
      modifies this, owner`exchanges
      ensures Logged()
      ensures old(index) < old(|chunk|) ==> owner.exchanges == old(owner.exchanges)
      ensures old(Rest()).bytes != [] ==>
                r == Ok(true) && Valid() && current == old(Rest()).bytes[0] && Rest() == Drop(old(Rest()), 1)
      ensures old(Rest()) == Stream([], Exhausted) ==> r == Ok(false) && Valid() && Rest() == old(Rest())
      ensures old(Rest()).bytes == [] && old(Rest()).tail.Broken? ==> r == Err(old(Rest()).tail.cause)
    {
      while index == |chunk| && bytesLeftToRead > 0
        invariant Valid() && Rest() == old(Rest())
        invariant old(index) < old(|chunk|) ==> index < |chunk| && owner.exchanges == old(owner.exchanges)
        decreases bytesLeftToRead
      {
        var fetched := FetchChunk();
        if fetched.Err? {
          return Err(fetched.error);
        }
      }
      if index == |chunk| {
        assert ReadPlan(block, bytesLeftToRead) == [];
        assert Rest() == Stream([], Exhausted);
        return Ok(false);
      }
      ghost var tail := StreamOf(owner.reader.transmit, ReadPlan(block, bytesLeftToRead));
      assert chunk[index..] == [chunk[index]] + chunk[index + 1..];
      current := chunk[index];
      index := index + 1;
      assert Rest() == Prepend(chunk[index..], tail);
      return Ok(true);
    }
  }
}


