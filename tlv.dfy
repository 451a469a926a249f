/**
 * The TLV blocks of an NFC Forum Type 2 Tag data area (section 2.3 of the
 * NFC Forum Type 2 Tag Operation Specification), as read by the tag reader:
 * a series of [tag][length][value] blocks, where NULL and Terminator have no
 * length or value, and a length is one byte (0x00..0xFE) or 0xFF followed by
 * a big-endian 16-bit value.
 */
module Tlv {
  import opened NfcTypes

  const NULL_TLV_TAG: byte := 0x00
  const NDEF_MESSAGE_TLV_TAG: byte := 0x03
  const TERMINATOR_TLV_TAG: byte := 0xFE
  /** Introduces the three-byte length form; as a tag it is invalid. */
  const LONG_LENGTH: byte := 0xFF

  /** A decoded length field: the length it holds and how many bytes it occupied. */
  datatype LengthRead = LengthRead(length: nat, size: nat)

  /** Reads the length field at the front of `s`; `t` says how the stream ends after `s`. */
  function LengthField(s: seq<byte>, t: Tail): (r: Result<LengthRead>)
    ensures r.Ok? <==> |s| >= 1 && (s[0] != LONG_LENGTH || |s| >= 3)
    ensures r.Ok? ==> r.value.size <= |s| && r.value.length < 0x10000
    ensures r.Ok? && s[0] != LONG_LENGTH ==> r.value.length < 0xFF
    ensures r.Err? ==> r.error == EndError(t, Truncated)
  {
    if |s| == 0 then Err(EndError(t, Truncated))
    else if s[0] != LONG_LENGTH then Ok(LengthRead(s[0], 1))
    else if |s| < 3 then Err(EndError(t, Truncated))
    else Ok(LengthRead(s[1] as int * 256 + s[2] as int, 3))
  }

  /** Whether `n` can be written in the short (one-byte) or long (three-byte) length form. */
  ghost predicate LengthFits(n: nat, long: bool)
  {
    if long then n < 0x10000 else n < 0xFF
  }

  /** The bytes of length `n` in the short or the long form. */
  ghost function LengthForm(n: nat, long: bool): seq<byte>
    requires LengthFits(n, long)
  {
    if long then [LONG_LENGTH, n / 256, n % 256] else [n]
  }

  /** Each form of each representable length reads back as that length, whatever follows it. */
  lemma LengthFieldReadsForm(n: nat, long: bool, rest: seq<byte>, t: Tail)
    requires LengthFits(n, long)
    ensures LengthField(LengthForm(n, long) + rest, t) == Ok(LengthRead(n, |LengthForm(n, long)|))
  {
    var s := LengthForm(n, long) + rest;
    if long {
      assert s[0] == LONG_LENGTH && s[1] == n / 256 && s[2] == n % 256;
    } else {
      assert s[0] == n;
    }
  }

  /** Every length field that reads is one of the two forms: long exactly when it starts with 0xFF. */
  lemma LengthFieldIsForm(s: seq<byte>, t: Tail)
    requires LengthField(s, t).Ok?
    ensures var lr := LengthField(s, t).value;
            LengthFits(lr.length, s[0] == LONG_LENGTH) &&
            s[..lr.size] == LengthForm(lr.length, s[0] == LONG_LENGTH)
  {
    if s[0] == LONG_LENGTH {
      assert s[..3] == [s[0], s[1], s[2]];
    } else {
      assert s[..1] == [s[0]];
    }
  }

  /** A length field that reads does not look past its own bytes. */
  lemma LengthFieldExtend(s: seq<byte>, more: seq<byte>, t: Tail, t': Tail)
    requires LengthField(s, t).Ok?
    ensures LengthField(s + more, t') == LengthField(s, t)
  {
    var u := s + more;
    assert u[0] == s[0];
    if s[0] == LONG_LENGTH {
      assert u[1] == s[1] && u[2] == s[2];
    }
  }

  /** The length and value fields of a TLV: the value, and the bytes after it. */
  datatype Field = Field(value: seq<byte>, after: seq<byte>)

  /**
   * Reads a length field and then that many value bytes from the front of
   * `s`; the stream ending inside either field is an error.
   */
  function LengthValue(s: seq<byte>, t: Tail): (r: Result<Field>)
    ensures r.Ok? ==> |r.value.value| < 0x10000 && |r.value.after| < |s|
    ensures r.Err? ==> r.error == EndError(t, Truncated)
  {
    match LengthField(s, t)
    case Err(e) => Err(e)
    case Ok(lr) =>
      var v := s[lr.size..];
      if |v| < lr.length then Err(EndError(t, Truncated))
      else Ok(Field(v[..lr.length], v[lr.length..]))
  }

  /** A length field in either form followed by that many bytes reads back as those bytes, leaving what follows. */
  lemma LengthValueOfForm(value: seq<byte>, long: bool, rest: seq<byte>, t: Tail)
    requires LengthFits(|value|, long)
    ensures LengthValue(LengthForm(|value|, long) + value + rest, t) == Ok(Field(value, rest))
  {
    var form := LengthForm(|value|, long);
    var s := form + value + rest;
    assert s == form + (value + rest);
    LengthFieldReadsForm(|value|, long, value + rest, t);
    assert s[|form|..] == value + rest;
    assert (value + rest)[..|value|] == value;
    assert (value + rest)[|value|..] == rest;
  }

  /** Length and value fields that read do not look past their own bytes. */
  lemma LengthValueExtend(s: seq<byte>, more: seq<byte>, t: Tail, t': Tail)
    requires LengthValue(s, t).Ok?
    ensures LengthValue(s + more, t') == Ok(Field(LengthValue(s, t).value.value, LengthValue(s, t).value.after + more))
  {
    LengthFieldExtend(s, more, t, t');
    var lr := LengthField(s, t).value;
    var v := s[lr.size..];
    assert (s + more)[lr.size..] == v + more;
    assert (v + more)[..lr.length] == v[..lr.length];
    assert (v + more)[lr.length..] == v[lr.length..] + more;
  }

  /**
   * The TLV loop of the reader: skips NULL TLVs and every TLV other than
   * NDEF Message, and yields the value of the first NDEF Message TLV, or the
   * empty message at a Terminator TLV met first.
   */
  function Decode(s: seq<byte>, t: Tail): (r: Result<seq<byte>>)
    ensures r.Ok? ==> |r.value| < 0x10000
    ensures r.Err? ==> r.error == UnexpectedTag || r.error == EndError(t, NoNdefMessage) || r.error == EndError(t, Truncated)
    decreases |s|
  {
    if |s| == 0 then Err(EndError(t, NoNdefMessage))
    else if s[0] == LONG_LENGTH then Err(UnexpectedTag)
    else if s[0] == NULL_TLV_TAG then Decode(s[1..], t)
    else if s[0] == TERMINATOR_TLV_TAG then Ok([])
    else
      match LengthValue(s[1..], t)
      case Err(e) => Err(e)
      case Ok(f) => if s[0] == NDEF_MESSAGE_TLV_TAG then Ok(f.value) else Decode(f.after, t)
  }

  /** The decoder on a data area read to its end. */
  function DecodeTlv(s: seq<byte>): (r: Result<seq<byte>>)
    ensures r.Ok? ==> |r.value| < 0x10000
    ensures r.Err? ==> r.error in {UnexpectedTag, NoNdefMessage, Truncated}
  {
    Decode(s, Exhausted)
  }

  /**
   * Once the decoder has its answer it never looks further: bytes after the
   * ones it used, and how the stream ends after them, do not change a message
   * it found (the first NDEF Message TLV wins).
   */
  lemma {:induction false} DecodeExtend(s: seq<byte>, more: seq<byte>, t: Tail, t': Tail)
    requires Decode(s, t).Ok?
    ensures Decode(s + more, t') == Decode(s, t)
    decreases |s|
  {
    var u := s + more;
    assert u[0] == s[0];
    if s[0] == NULL_TLV_TAG {
      assert u[1..] == s[1..] + more;
      DecodeExtend(s[1..], more, t, t');
    } else if s[0] != TERMINATOR_TLV_TAG {
      assert u[1..] == s[1..] + more;
      LengthValueExtend(s[1..], more, t, t');
      if s[0] != NDEF_MESSAGE_TLV_TAG {
        DecodeExtend(LengthValue(s[1..], t).value.after, more, t, t');
      }
    }
  }

  /** Whether `m` stands in `s` as a run of consecutive bytes starting at `i`. */
  predicate OccursAt(m: seq<byte>, s: seq<byte>, i: nat)
  {
    i + |m| <= |s| && s[i..i + |m|] == m
  }

  /** Where the length and value fields after a tag stand in the bytes: the value runs up to index `e`, and what follows it is `s[e..]`. */
  lemma FieldSlices(s: seq<byte>, t: Tail)
    requires |s| > 0 && LengthValue(s[1..], t).Ok?
    ensures var lr := LengthField(s[1..], t).value;
            var f := LengthValue(s[1..], t).value;
            var e := |s| - |f.after|;
            |f.value| == lr.length && e - |f.value| == 1 + lr.size &&
            f.value == s[e - |f.value|..e] && f.after == s[e..]
  {
    var lr := LengthField(s[1..], t).value;
    var k := 1 + lr.size;
    assert s[1..][lr.size..] == s[k..];
    assert s[k..][..lr.length] == s[k..k + lr.length];
    assert s[k..][lr.length..] == s[k + lr.length..];
  }

  /** A run found in a suffix of `s` is a run of `s`. */
  lemma OccursInSuffix(m: seq<byte>, s: seq<byte>, e: nat, i: nat)
    requires e <= |s| && OccursAt(m, s[e..], i)
    ensures OccursAt(m, s, e + i)
  {
    assert s[e..][i..i + |m|] == s[e + i..e + i + |m|];
  }

  /** Whatever the decoder returns is a run of consecutive bytes of the data area: it never makes up a byte. */
  lemma {:induction false} DecodeMessageInArea(s: seq<byte>, t: Tail)
    requires Decode(s, t).Ok?
    ensures exists i: nat :: OccursAt(Decode(s, t).value, s, i)
    decreases |s|
  {
    var m := Decode(s, t).value;
    if s[0] == NULL_TLV_TAG {
      DecodeMessageInArea(s[1..], t);
      var i: nat :| OccursAt(m, s[1..], i);
      OccursInSuffix(m, s, 1, i);
    } else if s[0] == TERMINATOR_TLV_TAG {
      assert OccursAt(m, s, 0);
    } else {
      var f := LengthValue(s[1..], t).value;
      FieldSlices(s, t);
      var e := |s| - |f.after|;
      if s[0] == NDEF_MESSAGE_TLV_TAG {
        assert OccursAt(m, s, e - |m|);
      } else {
        DecodeMessageInArea(f.after, t);
        var i: nat :| OccursAt(m, f.after, i);
        OccursInSuffix(m, s, e, i);
      }
    }
  }

  /** A TLV the decoder passes over: a NULL TLV, or a TLV whose tag is not NULL, NDEF Message, Terminator or 0xFF. */
  datatype SkippedTlv = NullTlv | OtherTlv(tag: byte, long: bool, value: seq<byte>)

  ghost predicate Skippable(b: SkippedTlv)
  {
    match b
    case NullTlv => true
    case OtherTlv(tag, long, value) =>
      tag !in {NULL_TLV_TAG, NDEF_MESSAGE_TLV_TAG, TERMINATOR_TLV_TAG, LONG_LENGTH} &&
      LengthFits(|value|, long)
  }

  /** The bytes of one skippable TLV. */
  ghost function SkippedBytes(b: SkippedTlv): seq<byte>
    requires Skippable(b)
  {
    match b
    case NullTlv => [NULL_TLV_TAG]
    case OtherTlv(tag, long, value) => [tag] + LengthForm(|value|, long) + value
  }

  /** The bytes of a series of skippable TLVs. */
  ghost function Layout(bs: seq<SkippedTlv>): seq<byte>
    requires forall i :: 0 <= i < |bs| ==> Skippable(bs[i])
  {
    if bs == [] then [] else SkippedBytes(bs[0]) + Layout(bs[1..])
  }

  /** The decoder passes over one skippable TLV. */
  lemma DecodeSkipsOne(b: SkippedTlv, s: seq<byte>, t: Tail)
    requires Skippable(b)
    ensures Decode(SkippedBytes(b) + s, t) == Decode(s, t)
  {
    var u := SkippedBytes(b) + s;
    match b
    case NullTlv =>
      assert u[1..] == s;
    case OtherTlv(tag, long, value) =>
      assert u[0] == tag;
      assert u[1..] == LengthForm(|value|, long) + value + s;
      LengthValueOfForm(value, long, s, t);
  }

  /** Whatever skippable TLVs stand in front of `s`, the decoder answers as it does on `s`. */
  lemma {:induction false} DecodeAfterSkipped(bs: seq<SkippedTlv>, s: seq<byte>, t: Tail)
    requires forall i :: 0 <= i < |bs| ==> Skippable(bs[i])
    ensures Decode(Layout(bs) + s, t) == Decode(s, t)
  {
    if bs == [] {
      assert Layout(bs) + s == s;
    } else {
      var later := Layout(bs[1..]) + s;
      assert Layout(bs) + s == SkippedBytes(bs[0]) + later;
      DecodeSkipsOne(bs[0], later, t);
      DecodeAfterSkipped(bs[1..], s, t);
    }
  }

  /** An NDEF Message TLV at the front decodes to its value, whatever follows it. */
  lemma DecodeMessageTlv(m: seq<byte>, long: bool, rest: seq<byte>, t: Tail)
    requires LengthFits(|m|, long)
    ensures Decode([NDEF_MESSAGE_TLV_TAG] + LengthForm(|m|, long) + m + rest, t) == Ok(m)
  {
    var s := [NDEF_MESSAGE_TLV_TAG] + LengthForm(|m|, long) + m + rest;
    assert s[0] == NDEF_MESSAGE_TLV_TAG;
    assert s[1..] == LengthForm(|m|, long) + m + rest;
    LengthValueOfForm(m, long, rest, t);
  }

  /** A data area laid out as skipped TLVs, then an NDEF Message TLV holding `m`, decodes to `m`. */
  lemma DecodeFindsMessage(bs: seq<SkippedTlv>, m: seq<byte>, long: bool, rest: seq<byte>, t: Tail)
    requires forall i :: 0 <= i < |bs| ==> Skippable(bs[i])
    requires LengthFits(|m|, long)
    ensures Decode(Layout(bs) + ([NDEF_MESSAGE_TLV_TAG] + LengthForm(|m|, long) + m + rest), t) == Ok(m)
  {
    DecodeAfterSkipped(bs, [NDEF_MESSAGE_TLV_TAG] + LengthForm(|m|, long) + m + rest, t);
    DecodeMessageTlv(m, long, rest, t);
  }

  /** A Terminator TLV met after skipped TLVs ends decoding with the empty message. */
  lemma DecodeFindsTerminator(bs: seq<SkippedTlv>, rest: seq<byte>, t: Tail)
    requires forall i :: 0 <= i < |bs| ==> Skippable(bs[i])
    ensures Decode(Layout(bs) + ([TERMINATOR_TLV_TAG] + rest), t) == Ok([])
  {
    DecodeAfterSkipped(bs, [TERMINATOR_TLV_TAG] + rest, t);
  }

  /** A 0xFF where a tag is expected fails decoding. */
  lemma DecodeRejectsTagFF(bs: seq<SkippedTlv>, rest: seq<byte>, t: Tail)
    requires forall i :: 0 <= i < |bs| ==> Skippable(bs[i])
    ensures Decode(Layout(bs) + ([LONG_LENGTH] + rest), t) == Err(UnexpectedTag)
  {
    DecodeAfterSkipped(bs, [LONG_LENGTH] + rest, t);
  }

  /** A data area of skipped TLVs only fails: with "no NDEF message" if it ran out, else with the cause of the break. */
  lemma DecodeFindsNothing(bs: seq<SkippedTlv>, t: Tail)
    requires forall i :: 0 <= i < |bs| ==> Skippable(bs[i])
    ensures Decode(Layout(bs), t) == Err(EndError(t, NoNdefMessage))
  {
    DecodeAfterSkipped(bs, [], t);
    assert Layout(bs) + [] == Layout(bs);
  }

  /** Worked examples of the decoder and of the long length form. */
  lemma DecodeExamples()
    ensures DecodeTlv([0x00, 0x00, 0x03, 0x02, 0xAA, 0xBB, 0xFE]) == Ok([0xAA, 0xBB])
    ensures DecodeTlv([0xFE]) == Ok([])
    ensures DecodeTlv([0x00, 0x01, 0x00]) == Err(NoNdefMessage)
    ensures DecodeTlv([0x03, 0x05, 0xAA]) == Err(Truncated)
    ensures LengthField([0xFF, 0x01, 0x2C], Exhausted) == Ok(LengthRead(300, 3))
  {
    var a: seq<byte> := [0x00, 0x00, 0x03, 0x02, 0xAA, 0xBB, 0xFE];
    assert a[1..] == [0x00, 0x03, 0x02, 0xAA, 0xBB, 0xFE];
    assert a[1..][1..] == [0x03, 0x02, 0xAA, 0xBB, 0xFE];
    var c: seq<byte> := [0x03, 0x02, 0xAA, 0xBB, 0xFE];
    assert c[1..] == [0x02, 0xAA, 0xBB, 0xFE];
    assert LengthField(c[1..], Exhausted) == Ok(LengthRead(2, 1));
    assert c[2..][..2] == [0xAA, 0xBB];
    assert Decode(c, Exhausted) == Ok([0xAA, 0xBB]);
    var b: seq<byte> := [0x00, 0x01, 0x00];
    assert b[1..] == [0x01, 0x00];
    assert b[1..][1..] == [0x00];
    assert LengthField(b[1..][1..], Exhausted) == Ok(LengthRead(0, 1));
    assert b[1..][2..] == [];
  }
}


