/**
 * The single command the reader sends: a PC/SC pseudo-APDU READ BINARY, and
 * the status check on its answer (status bytes as in section 5.1.3 of
 * ISO/IEC 7816-4, where SW1 = 0x90 is normal processing).
 */
module CommandFramer {
  import opened NfcTypes

  /** Class byte of PC/SC pseudo-APDUs addressed to the reader. */
  const CLA_PSEUDO_APDU: byte := 0xFF
  const INS_READ_BINARY: byte := 0xB0
  const SW1_NORMAL: byte := 0x90

  /** A case 2 short command: header and expected response length Le. */
  datatype CommandApdu = CommandApdu(cla: byte, ins: byte, p1: byte, p2: byte, le: nat)

  /** A response: its data bytes and the first status byte. */
  datatype Response = Response(data: seq<byte>, sw1: byte)

  /**
   * The card reader as the tag reader sees it: one synchronous exchange. Within
   * one transaction the tag answers a command the same way each time, so the
   * exchange is a function of the command.
   */
  datatype CardReader = CardReader(transmit: CommandApdu -> Response)

  /** READ BINARY of `le` bytes from block `block`. */
  function ReadBinary(block: byte, le: nat): CommandApdu
  {
    CommandApdu(CLA_PSEUDO_APDU, INS_READ_BINARY, 0x00, block, le)
  }

  /** The outcome of one exchange: its data when SW1 is normal processing, else a failure carrying SW1. */
  function CheckStatus(resp: Response): (r: Result<seq<byte>>)
    ensures r.Ok? <==> resp.sw1 == SW1_NORMAL
    ensures r.Ok? ==> r.value == resp.data
    ensures r.Err? ==> r.error == StatusNotNormal(resp.sw1)
  {
    if resp.sw1 != SW1_NORMAL then Err(StatusNotNormal(resp.sw1)) else Ok(resp.data)
  }
}


