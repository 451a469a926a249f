/**
 * The capability container of a Type 2 Tag (block 3; section 2 of the NFC
 * Forum Type 2 Tag Operation Specification): magic number, version, data-area
 * size in units of 8 bytes, and access conditions.
 */
module CapabilityContainer {
  import opened NfcTypes

  const CC_BLOCK: byte := 3
  const CC_SIZE: nat := 4
  const MAGIC_NUMBER: byte := 0xE1
  /** Mapping version 1.0; the whole byte is compared, so a minor version other than 0 is refused. */
  const VERSION: byte := 0x10

  /** Whether the access-condition byte allows reading without authentication (high nibble zero). */
  predicate ReadAllowed(access: byte)
    ensures ReadAllowed(access) <==> access < 0x10
  {
    (access as bv8) & 0xF0 == 0
  }

  /**
   * The checks of the tag detection procedure, in the order the reader makes
   * them; the first that fails decides the error. A container too short for
   * the byte a check reads fails at that check.
   */
  function CcCheck(cc: seq<byte>): (r: Result<()>)
    ensures r.Ok? <==> |cc| >= CC_SIZE && cc[0] == MAGIC_NUMBER && cc[1] == VERSION && cc[3] < 0x10
    ensures |cc| >= 1 && cc[0] != MAGIC_NUMBER ==> r == Err(BadMagicNumber)
    ensures |cc| >= 2 && cc[0] == MAGIC_NUMBER && cc[1] != VERSION ==> r == Err(VersionMismatch)
    ensures |cc| >= 4 && cc[0] == MAGIC_NUMBER && cc[1] == VERSION && cc[3] >= 0x10 ==> r == Err(NoUnencryptedRead)
  {
    if |cc| < 1 then Err(IndexOutOfRange)
    else if cc[0] != MAGIC_NUMBER then Err(BadMagicNumber)
    else if |cc| < 2 then Err(IndexOutOfRange)
    else if cc[1] != VERSION then Err(VersionMismatch)
    else if |cc| < 4 then Err(IndexOutOfRange)
    else if !ReadAllowed(cc[3]) then Err(NoUnencryptedRead)
    else Ok(())
  }

  /** Worked examples: a wrong magic number and read-protected access conditions are refused. */
  lemma CcCheckExamples()
    ensures CcCheck([0xE1, 0x10, 0x6D, 0x00]) == Ok(())
    ensures CcCheck([0xE0, 0x10, 0x6D, 0x00]) == Err(BadMagicNumber)
    ensures CcCheck([0xE1, 0x11, 0x6D, 0x00]) == Err(VersionMismatch)
    ensures CcCheck([0xE1, 0x10, 0x6D, 0xF0]) == Err(NoUnencryptedRead)
    ensures CcCheck([0xE1, 0x10, 0x6D]) == Err(IndexOutOfRange)
  {
  }
}


