/**
 * The TLV loop as the reader's code is written when the data area runs out
 * inside a length or value field: the enumerator's MoveNext result is not
 * looked at there, and a finished C# iterator keeps yielding its last byte as
 * Current. Modelled over a data area read to its end, with `pos` the number
 * of bytes yielded so far.
 */
module StaleCurrent {
  import opened NfcTypes
  import opened Tlv

  /** Current after asking for byte `p`: that byte, or once the area has run out, the last byte it yielded. */
  function StaleByte(area: seq<byte>, p: nat): byte
  {
    if p < |area| then area[p] else if |area| > 0 then area[|area| - 1] else 0
  }

  /** The position after asking for one more byte: it stops at the end of the area. */
  function Advance(area: seq<byte>, p: nat): nat
  {
    if p < |area| then p + 1 else p
  }

  /** A length field read without checking for the end: the length, and the position after it. */
  function StaleLength(area: seq<byte>, p: nat): (r: (nat, nat))
    requires p <= |area|
    ensures r.0 < 0x10000
    ensures p <= r.1 <= |area|
    ensures r.1 < |area| ==> r.1 == p + (if area[p] == LONG_LENGTH then 3 else 1)
  {
    var b := StaleByte(area, p);
    var p1 := Advance(area, p);
    if b != LONG_LENGTH then (b as nat, p1)
    else
      var p2 := Advance(area, p1);
      (StaleByte(area, p1) as int * 256 + StaleByte(area, p2) as int, Advance(area, p2))
  }

  /** A value field of `length` bytes read without checking for the end. */
  function StaleValue(area: seq<byte>, p: nat, length: nat): (v: seq<byte>)
    ensures |v| == length
    ensures forall i :: 0 <= i < length ==> v[i] == StaleByte(area, p + i)
    decreases length
  {
    if length == 0 then [] else [StaleByte(area, p)] + StaleValue(area, p + 1, length - 1)
  }

  /** Within the area, the value field is just the bytes there. */
  lemma {:induction false} StaleValueInArea(area: seq<byte>, p: nat, length: nat)
    requires p + length <= |area|
    ensures StaleValue(area, p, length) == area[p..p + length]
    decreases length
  {
    if length > 0 {
      StaleValueInArea(area, p + 1, length - 1);
      assert area[p..p + length] == [area[p]] + area[p + 1..p + length];
    }
  }

  /** Length and value fields read without checking for the end: the value, and the position after it. */
  function StaleField(area: seq<byte>, p: nat): (r: (seq<byte>, nat))
    requires p <= |area|
    ensures |r.0| == StaleLength(area, p).0 && |r.0| < 0x10000
    ensures p <= r.1 <= |area|
    ensures r.1 < |area| ==> r.1 == StaleLength(area, p).1 + |r.0|
  {
    var (length, q) := StaleLength(area, p);
    (StaleValue(area, q, length), if q + length <= |area| then q + length else |area|)
  }

  /** The TLV loop of the code as written, from position `pos` of a data area read to its end. */
  function DecodeStaleCurrent(area: seq<byte>, pos: nat): (r: Result<seq<byte>>)
    requires pos <= |area|
    ensures r.Err? ==> r.error in {NoNdefMessage, UnexpectedTag}
    decreases |area| - pos
  {
    if pos == |area| then Err(NoNdefMessage)
    else
      var tag := area[pos];
      if tag == LONG_LENGTH then Err(UnexpectedTag)
      else if tag == NULL_TLV_TAG then DecodeStaleCurrent(area, pos + 1)
      else if tag == TERMINATOR_TLV_TAG then Ok([])
      else
        var (value, next) := StaleField(area, pos + 1);
        if tag == NDEF_MESSAGE_TLV_TAG then Ok(value) else DecodeStaleCurrent(area, next)
  }

  /** Where the area holds the whole length field, the code as written reads what `LengthField` reads. */
  lemma StaleLengthAgrees(area: seq<byte>, p: nat)
    requires p <= |area| && LengthField(area[p..], Exhausted).Ok?
    ensures var lr := LengthField(area[p..], Exhausted).value;
            StaleLength(area, p) == (lr.length, p + lr.size)
  {
    var s := area[p..];
    assert s[0] == area[p];
    if s[0] == LONG_LENGTH {
      assert s[1] == area[p + 1] && s[2] == area[p + 2];
    }
  }

  /** Where the area holds both fields, the code as written reads what `LengthValue` reads, and goes on where it leaves off. */
  lemma StaleFieldAgrees(area: seq<byte>, p: nat)
    requires p <= |area| && LengthValue(area[p..], Exhausted).Ok?
    ensures var f := LengthValue(area[p..], Exhausted).value;
            StaleField(area, p).0 == f.value && f.after == area[StaleField(area, p).1..]
  {
    var lr := LengthField(area[p..], Exhausted).value;
    StaleLengthAgrees(area, p);
    var q := p + lr.size;
    var v := area[p..][lr.size..];
    assert v == area[q..];
    assert v[..lr.length] == area[q..q + lr.length];
    assert v[lr.length..] == area[q + lr.length..];
    StaleValueInArea(area, q, lr.length);
  }

  /**
   * The code as written agrees with the decoder everywhere except where the
   * data area ends inside a length or value field.
   */
  lemma {:induction false} StaleCurrentAgrees(area: seq<byte>, pos: nat)
    requires pos <= |area| && Decode(area[pos..], Exhausted) != Err(Truncated)
    ensures DecodeStaleCurrent(area, pos) == Decode(area[pos..], Exhausted)
    decreases |area| - pos
  {
    var s := area[pos..];
    if pos < |area| {
      var tag := area[pos];
      assert s[0] == tag && s[1..] == area[pos + 1..];
      if tag == NULL_TLV_TAG {
        assert Decode(s, Exhausted) == Decode(area[pos + 1..], Exhausted);
        StaleCurrentAgrees(area, pos + 1);
      } else if tag != LONG_LENGTH && tag != TERMINATOR_TLV_TAG {
        assert LengthValue(s[1..], Exhausted).Ok?;
        StaleFieldAgrees(area, pos + 1);
        if tag != NDEF_MESSAGE_TLV_TAG {
          var next := StaleField(area, pos + 1).1;
          assert Decode(s, Exhausted) == Decode(area[next..], Exhausted);
          StaleCurrentAgrees(area, next);
        }
      }
    }
  }

  /**
   * An 8-byte data area (capability container size byte 1) whose NDEF
   * Message TLV announces 4 bytes but holds only one: the code as written
   * returns that byte four times, a message that is nowhere in the area,
   * where the decoder reports the truncation.
   */
  lemma StaleCurrentCounterexample()
    ensures var area: seq<byte> := [0x00, 0x00, 0x00, 0x00, 0x00, 0x03, 0x04, 0xAA];
            DecodeStaleCurrent(area, 0) == Ok([0xAA, 0xAA, 0xAA, 0xAA]) &&
            DecodeTlv(area) == Err(Truncated) &&
            forall i: nat :: !OccursAt([0xAA, 0xAA, 0xAA, 0xAA], area, i)
  {
    var area: seq<byte> := [0x00, 0x00, 0x00, 0x00, 0x00, 0x03, 0x04, 0xAA];
    assert StaleLength(area, 6) == (4, 7);
    assert StaleValue(area, 7, 4) == [0xAA, 0xAA, 0xAA, 0xAA];
    assert StaleField(area, 6) == ([0xAA, 0xAA, 0xAA, 0xAA], 8);
    assert DecodeStaleCurrent(area, 5) == Ok([0xAA, 0xAA, 0xAA, 0xAA]);
    assert DecodeStaleCurrent(area, 0) == DecodeStaleCurrent(area, 5);
    assert area[5..] == [0x03, 0x04, 0xAA];
    assert area[5..][1..] == [0x04, 0xAA];
    assert LengthValue(area[5..][1..], Exhausted) == Err(Truncated);
    assert Decode(area[5..], Exhausted) == Err(Truncated);
    forall i: nat | i + 4 <= |area|
      ensures !OccursAt([0xAA, 0xAA, 0xAA, 0xAA], area, i)
    {
      assert area[i..i + 4][0] == area[i] == 0x00;
    }
  }
}


