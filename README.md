# NFC Type 2 Tag reader: the read path

A Dafny model of how `NfcTagReader` reads an NDEF message from an NFC Forum
Type 2 Tag through a PC/SC card reader (`src/pcsc-nfc/NfcTagReader.cs`).
The reader works in four steps:

1. It reads the capability container in block 3 and checks three things:
   the magic number 0xE1, version 0x10, and read access without
   authentication.
2. It walks the data area from block 4 with READ BINARY pseudo-APDUs of at
   most 16 bytes, until the container's byte budget (size byte × 8) is spent.
3. It yields the data area to a TLV loop one byte at a time, through a lazy
   enumerator. The enumerator sends the next READ BINARY only when the loop
   has used up the previous chunk.
4. The TLV loop skips NULL TLVs and TLVs of other types. It returns the value
   of the first NDEF Message TLV, or an empty message at a Terminator TLV.

Files, one module each:

- `types.dfy` (`NfcTypes`): bytes, the error causes, `Result`, and byte
  streams. A stream is the bytes still to come plus how it ends: it runs out,
  or a read fails.
- `framer.dfy` (`CommandFramer`): the READ BINARY command and the SW1 check.
- `capability_container.dfy` (`CapabilityContainer`): the tag detection
  checks.
- `data_area.dfy` (`DataArea`): `ReadPlan` is the series of commands the
  enumerator sends. `StreamOf` is the bytes a card's answers make up.
  `MemoryTag` is a reference card that answers from a memory image.
- `tlv.dfy` (`Tlv`): the length field and the TLV decoder `Decode`. `Decode`
  is pure, and it is the specification of the reader's loop.
- `nfc_tag_reader.dfy` (`NfcTag`): the class `NfcTagReader` and the class
  `DataAreaEnumerator` (the compiler-built enumerator of `ReadRemainingData`).
  Each method is proved against the pure functions above.
- `stale_current.dfy` (`StaleCurrent`): the TLV loop as written when the data
  area ends inside a field (see Findings).

The card is a function from command to response (`CardReader.transmit`). The
source holds a PC/SC transaction for the whole read, so within one read the
card answers a given command the same way each time.

The ghost field `NfcTagReader.exchanges` logs every command sent. The
contracts use it to state which reads were made: the container read, then a
prefix of the data-area reads. Inside the enumerator, each fetch sends exactly
one read, and `MoveNext` sends nothing while a byte of the chunk in hand is
still to be yielded.

Each throw in the source becomes an `Err` that carries its cause.

Two places where the code departs from what the NFC Forum Type 2 Tag
Operation Specification allows. The model follows the code in both:

- The version check compares the whole byte `cc[1]` with 0x10. A tag with a
  higher minor version (1.1, say) is refused, although the specification
  asks a reader to accept it.
- The block counter is a C# `byte`. A data area of 127 × 8 bytes or more
  wraps back to block 0 (`PlanWrapsPastBlock255`). The specification reaches
  blocks past 255 with the SECTOR SELECT command instead.

## Model

| member | source | states |
|---|---|---|
| CommandFramer.CheckStatus | src/pcsc-nfc/NfcTagReader.cs:50-55 | an answer is accepted exactly when SW1 is 0x90; then its data is returned, else the failure carries SW1 |
| CapabilityContainer.CcCheck | src/pcsc-nfc/NfcTagReader.cs:63-76 | the container passes exactly when magic is 0xE1, version is 0x10 and the access high nibble is 0; magic is checked first, then version, then access; a container too short for a check fails there |
| CapabilityContainer.ReadAllowed | src/pcsc-nfc/NfcTagReader.cs:73 | the access byte allows reading exactly when it is below 0x10, that is, its high nibble is 0 |
| CapabilityContainer.CcCheckExamples | src/pcsc-nfc/NfcTagReader.cs:63-76 | a good container passes; magic 0xE0, version 0x11 and access 0xF0 are each refused with their own error |
| DataArea.ReadPlan | src/pcsc-nfc/NfcTagReader.cs:81-94 | the enumerator sends no command exactly when the byte budget is zero |
| DataArea.PlanStep | src/pcsc-nfc/NfcTagReader.cs:84-93 | one round of the loop: a read of min(left, 16) bytes at the current block, then the plan from the advanced block for what is left |
| DataArea.PlanCommands | src/pcsc-nfc/NfcTagReader.cs:24-31 | every command sent is a READ BINARY (CLA 0xFF, P1 0) of 1 to 16 bytes |
| DataArea.PlanRequestsBudget | src/pcsc-nfc/NfcTagReader.cs:82-93 | the requested byte counts add up to exactly the budget, so the area is never over-read |
| DataArea.PlanChunkSizes | src/pcsc-nfc/NfcTagReader.cs:86 | every request but the last asks for 16 bytes; the last asks for what remains; the number of requests is the budget divided by 16, rounded up |
| DataArea.PlanLastChunk | src/pcsc-nfc/NfcTagReader.cs:82-86 | with a budget that is a multiple of 8, the last request is 8 or 16 bytes |
| DataArea.PlanBlocks | src/pcsc-nfc/NfcTagReader.cs:81-92 | request k addresses block (start + 4k) mod 256 |
| DataArea.PlanBlocksNoWrap | src/pcsc-nfc/NfcTagReader.cs:81-92 | while the area ends at or below block 256, request k addresses block start + 4k exactly |
| DataArea.PlanWrapsPastBlock255 | src/pcsc-nfc/NfcTagReader.cs:92 | a size byte of 127 or more sends the 64th request to block 0, because the byte counter wraps |
| DataArea.PlanInRange | src/pcsc-nfc/NfcTagReader.cs:81-92 | a size byte of at most 126 gives requests at blocks 4, 8, 12, ..., all within 4..255 |
| DataArea.StreamOf | src/pcsc-nfc/NfcTagReader.cs:84-94 | the enumerator's bytes break only on an answer whose SW1 is not normal, and the failure carries that SW1 |
| DataArea.StreamOfPlanStep | src/pcsc-nfc/NfcTagReader.cs:84-90 | the first answer's data stands in front of the rest of the stream, or its failed status ends the stream |
| DataArea.StreamOfExhausted | src/pcsc-nfc/NfcTagReader.cs:84-94 | the enumerator runs to its end exactly when every read answers normally |
| DataArea.StreamOfAppend | src/pcsc-nfc/NfcTagReader.cs:84-94 | reads after a failed read contribute nothing; after normal reads, the later answers follow |
| DataArea.StreamOfAgree | src/pcsc-nfc/NfcTagReader.cs:84-94 | two cards that answer the same commands alike yield the same bytes |
| DataArea.MemoryTagStream | src/pcsc-nfc/NfcTagReader.cs:79-95 | on a card answering from a memory image, the enumerator yields exactly memory bytes 4·block up to 4·block + budget |
| Tlv.LengthField | src/pcsc-nfc/NfcTagReader.cs:97-115 | a length field reads exactly when one byte, or 0xFF and two more, are available; the short form is below 0xFF, the long form below 0x10000; running out is an error |
| Tlv.LengthFieldReadsForm | src/pcsc-nfc/NfcTagReader.cs:102-111 | each representable length in the one-byte form, or in the 0xFF big-endian form, reads back as itself, whatever follows |
| Tlv.LengthFieldIsForm | src/pcsc-nfc/NfcTagReader.cs:102-111 | every length that reads is written in one of those two forms: the long one exactly when it starts with 0xFF |
| Tlv.LengthFieldExtend | src/pcsc-nfc/NfcTagReader.cs:97-115 | a length field does not look past its own bytes |
| Tlv.LengthValue | src/pcsc-nfc/NfcTagReader.cs:161-172 | a length and value field give a value below 0x10000 bytes and strictly fewer bytes after them; running out is an error |
| Tlv.LengthValueOfForm | src/pcsc-nfc/NfcTagReader.cs:161-172 | a length field in either form followed by that many bytes reads back as those bytes, leaving what follows |
| Tlv.LengthValueExtend | src/pcsc-nfc/NfcTagReader.cs:161-172 | length and value fields do not look past their own bytes |
| Tlv.Decode | src/pcsc-nfc/NfcTagReader.cs:141-176 | a decoded message is shorter than 0x10000 bytes; the only failures are the 0xFF tag, and running out before a message or inside a field, which a broken stream replaces with its own failure |
| Tlv.DecodeTlv | src/pcsc-nfc/NfcTagReader.cs:141-176 | on a data area read to its end, a message is shorter than 0x10000 bytes, and the only failures are the 0xFF tag, no NDEF message and a truncated field |
| Tlv.DecodeExtend | src/pcsc-nfc/NfcTagReader.cs:163-166 | once the decoder has an answer, later bytes and how the stream ends do not change it (the first NDEF Message TLV wins) |
| Tlv.FieldSlices | src/pcsc-nfc/NfcTagReader.cs:161-172 | the value of a TLV is the bytes just after its length field, and the rest follows right after the value |
| Tlv.OccursInSuffix | src/pcsc-nfc/NfcTagReader.cs:141-176 | a run of bytes found after a skipped prefix is a run of the whole area |
| Tlv.DecodeMessageInArea | src/pcsc-nfc/NfcTagReader.cs:141-176 | every message the decoder returns is a run of consecutive bytes of the data area |
| Tlv.DecodeSkipsOne | src/pcsc-nfc/NfcTagReader.cs:150-173 | a NULL TLV, or a TLV of another type with a well-formed length, is passed over |
| Tlv.DecodeAfterSkipped | src/pcsc-nfc/NfcTagReader.cs:141-174 | any series of such TLVs in front of the bytes leaves the answer unchanged |
| Tlv.DecodeMessageTlv | src/pcsc-nfc/NfcTagReader.cs:161-166 | an NDEF Message TLV at the front decodes to its value, whatever follows |
| Tlv.DecodeFindsMessage | src/pcsc-nfc/NfcTagReader.cs:141-176 | skipped TLVs followed by an NDEF Message TLV holding m decode to m, in either length form |
| Tlv.DecodeFindsTerminator | src/pcsc-nfc/NfcTagReader.cs:155-158 | a Terminator TLV reached first gives the empty message |
| Tlv.DecodeRejectsTagFF | src/pcsc-nfc/NfcTagReader.cs:145-148 | 0xFF in tag position after skipped TLVs is an error |
| Tlv.DecodeFindsNothing | src/pcsc-nfc/NfcTagReader.cs:141-176 | an area of skipped TLVs only fails with "no NDEF message" when the stream runs out, or with the failure that ended it |
| Tlv.DecodeExamples | src/pcsc-nfc/NfcTagReader.cs:141-176 | 00 00 03 02 AA BB FE gives AA BB; FE gives the empty message; 00 01 00 finds nothing; a short value is truncated; FF 01 2C is length 300 |
| StaleCurrent.DecodeStaleCurrent | src/pcsc-nfc/NfcTagReader.cs:141-176 | the loop as written on an area read to its end fails only with "no NDEF message" or the 0xFF-tag error, never with a truncation |
| StaleCurrent.StaleLength | src/pcsc-nfc/NfcTagReader.cs:97-115 | the length read as written is below 0x10000; the position (moved by `Advance`, which stops at the end of the area) stays in the area and, unless it reached the end, lies past exactly 1 byte, or 3 after 0xFF |
| StaleCurrent.StaleValue | src/pcsc-nfc/NfcTagReader.cs:117-127 | the value read as written has `length` bytes, and byte i is the `Current` after the i-th step: the area's byte there, or its last byte once it has run out |
| StaleCurrent.StaleField | src/pcsc-nfc/NfcTagReader.cs:161-172 | the value read as written has as many bytes as the length field says; the position stays in the area and, unless it reached the end, lies right after the value |
| StaleCurrent.StaleLengthAgrees | src/pcsc-nfc/NfcTagReader.cs:97-115 | where the whole length field is in the area, the code as written reads what `LengthField` reads |
| StaleCurrent.StaleValueInArea | src/pcsc-nfc/NfcTagReader.cs:117-127 | where the whole value field is in the area, the code as written reads those bytes |
| StaleCurrent.StaleFieldAgrees | src/pcsc-nfc/NfcTagReader.cs:161-172 | where both fields are in the area, the code as written reads what `LengthValue` reads and continues at the same place |
| StaleCurrent.StaleCurrentAgrees | src/pcsc-nfc/NfcTagReader.cs:141-176 | the loop as written agrees with `Decode` on every area where `Decode` does not report a truncated field |
| StaleCurrent.StaleCurrentCounterexample | src/pcsc-nfc/NfcTagReader.cs:117-127 | the 8-byte area 00 00 00 00 00 03 04 AA gives AA AA AA AA as written (bytes that stand nowhere in the area), while `Decode` reports the truncation |
| NfcTag.ValidatedCc | src/pcsc-nfc/NfcTagReader.cs:59-77 | an accepted container has at least 4 bytes and passes every check |
| NfcTag.ReadNdefSpec | src/pcsc-nfc/NfcTagReader.cs:129-178 | a refused container is the result, with its own error; a message needs an accepted container and is shorter than 0x10000 bytes; past the container, failures are a refused read's SW1 or the decoder's errors |
| NfcTag.ReadNdefAllNormal | src/pcsc-nfc/NfcTagReader.cs:129-178 | when every data-area read answers normally, the result is the decoder run over the whole data area |
| NfcTag.ReadFromMemoryTag | src/pcsc-nfc/NfcTagReader.cs:129-178 | a card holding a valid container and an area of at most 126 × 8 bytes yields the decoding of exactly those memory bytes |
| NfcTag.ReadNdefInArea | src/pcsc-nfc/NfcTagReader.cs:129-178 | a message read from a card is a run of consecutive bytes of its data area |
| NfcTag.LaterReadsCannotSpoil | src/pcsc-nfc/NfcTagReader.cs:139-176 | once the first k reads hold the answer, cards that differ only in later answers give the same result |
| NfcTag.EarlyAnswerStands | src/pcsc-nfc/NfcTagReader.cs:163-166 | an answer decoded from the first commands' bytes stays the answer when more commands follow |
| NfcTag.LogPrefix | src/pcsc-nfc/NfcTagReader.cs:139-176 | a log that, followed by the pending reads, equals the earlier log followed by the whole plan extends the earlier log by a prefix of the plan |
| NfcTag.FetchStream | src/pcsc-nfc/NfcTagReader.cs:84-90 | with no chunk in hand, the stream still to come is the next chunk's data followed by the rest, or breaks at once with the chunk's status |
| NfcTag.FetchLog | src/pcsc-nfc/NfcTagReader.cs:84-93 | sending the next command moves it from the pending plan to the end of the log |
| NfcTag.NfcTagReader.constructor | src/pcsc-nfc/NfcTagReader.cs:17-19 | a new reader holds its card reader, with no container read and no command sent |
| NfcTag.NfcTagReader.ReadBlocks | src/pcsc-nfc/NfcTagReader.cs:21-56 | sends exactly one READ BINARY of `bytes` at `block` and logs it; succeeds exactly when SW1 is 0x90, with the response data |
| NfcTag.NfcTagReader.ValidateNfcTag | src/pcsc-nfc/NfcTagReader.cs:59-77 | sends one 4-byte read of block 3; on a normal answer stores it in `cc` and returns the checks' verdict, else leaves `cc` and fails with SW1; succeeds exactly when the card's container is accepted |
| NfcTag.NfcTagReader.ReadRemainingData | src/pcsc-nfc/NfcTagReader.cs:79-95 | a fresh enumerator that sends nothing yet and will yield exactly the data area that `cc[2]` announces |
| NfcTag.NfcTagReader.ReadLengthField | src/pcsc-nfc/NfcTagReader.cs:97-115 | returns what `LengthField` reads at the cursor and advances past exactly its 1 or 3 bytes; a stream that ends inside the field gives its error |
| NfcTag.NfcTagReader.ReadValueField | src/pcsc-nfc/NfcTagReader.cs:117-127 | succeeds exactly when `length` bytes remain; returns them in order and advances past them; otherwise fails with the stream's end |
| NfcTag.NfcTagReader.ReadTlvs | src/pcsc-nfc/NfcTagReader.cs:141-176 | the loop returns exactly what `Decode` gives on the stream still to come |
| NfcTag.NfcTagReader.ReadNdefMessage | src/pcsc-nfc/NfcTagReader.cs:129-178 | the result is the decoder over the data area the validated container announces; the commands sent are the container read and then a prefix, in order, of the data-area reads |
| NfcTag.DataAreaEnumerator.constructor | src/pcsc-nfc/NfcTagReader.cs:81-82 | starts at block 4 with a budget of `cc[2]` × 8 bytes, nothing in hand and nothing sent |
| NfcTag.DataAreaEnumerator.FetchChunk | src/pcsc-nfc/NfcTagReader.cs:84-93 | with the chunk in hand used up, sends exactly one read, of min(left, 16) bytes at the current block; it leaves the bytes still to come unchanged and shrinks the budget; a failed read is where the stream ends |
| NfcTag.DataAreaEnumerator.MoveNext | src/pcsc-nfc/NfcTagReader.cs:84-94 | yields the next byte of the stream and drops it; at the end of the area yields nothing; a failed read is reported; while a byte of the chunk in hand is left, nothing is sent |

## Left out

- PC/SC plumbing is not modelled: the send and receive protocol control
  information, the 256-byte receive buffer, and turning the received bytes
  into a response. The card is a function from command to response, and
  `Transmit` never throws.
- The transaction that `ReadNdefMessage` holds (`Reader.Transaction(SCardReaderDisposition.Leave)`)
  is not modelled. Its only effect is that the card answers consistently
  within one read, and the function model of the card assumes that.
- The null check on the constructor argument is left out, because Dafny
  references are never null.
- Exception types and messages are left out. Each throw is an `Err` with its
  cause.
- Writing and clearing tags are not part of this model, and neither are the
  example programs.
- NfcTag.NfcTagReader.ReadRemainingData: requires `|cc| > 2`, where the source
  would throw an index error. Its only caller runs it after
  `ValidateNfcTag` has accepted a container of at least 4 bytes.
- NfcTag.DataAreaEnumerator.MoveNext: after a failed read, the model states
  only that the command log is consistent, not the enumerator's fields. The
  C# iterator is finished by then and nothing reads it again.
- NfcTag.NfcTagReader.ReadLengthField: on an error the cursor's position is
  not stated, because the TLV loop gives up at once.
- NfcTag.NfcTagReader.ReadValueField: on an error the cursor's position is
  not stated, for the same reason.
- NfcTag.NfcTagReader.ReadNdefMessage: does not restate the new `cc`;
  `ValidateNfcTag` states it.
- NfcTag.NfcTagReader.ReadNdefMessage: states that the data-area reads are a
  prefix of the plan, not that the prefix is the shortest one the TLV loop
  needs. The laziness is stated one step at a time, on `MoveNext` and
  `FetchChunk`, and not summed up over the whole loop.
- Tlv.LengthValue: inside a length or value field, the model reports a
  truncated field where the source reads a stale `Current` (see Findings).
  `StaleCurrent` models the code as written, for areas read to their end.
- NfcTag.DataAreaEnumerator.constructor: the C# iterator reads `cc[2]` on its
  first `MoveNext`, not when it is created. Nothing changes `cc` in between,
  so the model reads it at creation.
- The C# iterator moves `block` and `bytesLeftToRead` on after yielding the
  last byte of a chunk. The model moves them right after the read. Both send
  the same commands in the same order.

## Findings

| source | as written | input that shows it | evidently intended | confidence | as-written member | corrected member |
|---|---|---|---|---|---|---|
| src/pcsc-nfc/NfcTagReader.cs:101-106, 120-124 | `ReadLengthField` and `ReadValueField` ignore what `MoveNext` returns. When the data area ends inside a TLV, they keep reading the finished enumerator's `Current`, its last byte, and return it as message bytes. | capability container size byte 1 and data area 00 00 00 00 00 03 04 AA | fail on a TLV that runs past the end of the data area, so that a returned message is always bytes of the area | medium, not executed (relies on a finished compiler-generated iterator keeping its last `Current`) | StaleCurrent.StaleCurrentCounterexample | Tlv.DecodeMessageInArea |
