/** Wire-level constants of the manikin BLE protocol, the integer widths the
    device code works with, and the error numbers it returns.

    A frame is laid out as
      | START | LENGTH | SOF_MSG | CMD | MSG ... | EOF_MSG | CRC lo | CRC hi | STOP |
    where LENGTH is the number of MSG (payload) bytes.
 */
module Protocol {

  type byte = x: int | 0 <= x < 0x100
  type uint16 = x: int | 0 <= x < 0x1_0000
  type uint32 = x: int | 0 <= x < 0x1_0000_0000

  /** A nullable pointer argument: `None` stands for NULL. */
  datatype Option<T> = None | Some(value: T)

  /** The outcome of a codec operation; `error` is the errno it reports. */
  datatype Result<T> = Success(value: T) | Failure(error: int)

  // Fixed header positions, relative to the START byte of a frame.
  const START_BYTE_POS: nat := 0
  const LENGTH_BYTE_POS: nat := 1
  const SOF_MSG_POS: nat := 2
  const CMD_POS: nat := 3
  const PAYLOAD_POS: nat := 4

  /** One past the EOF marker of a frame whose LENGTH byte is `length`;
      the EOF marker itself sits at `EofMsgPos(length) - 1`. */
  function EofMsgPos(length: nat): (p: nat)
  {
    length + 5
  }

  // Marker bytes.
  const PACKET_START_BYTE: byte := 0x01
  const PACKET_SOF_MSG: byte := 0x3A
  const PACKET_EOF_MSG: byte := 0x3B
  const PACKET_STOP_BYTE: byte := 0x17

  // Command identifiers; 0 is reserved and CMD_INVALID is the first value past the range.
  const CMD_START: byte := 2
  const CMD_STOP: byte := 3
  const CMD_DATA: byte := 4
  const CMD_TIMEDATA: byte := 5
  const CMD_INVALID: byte := 6

  /** A command the decoder accepts: neither the reserved zero nor at or past CMD_INVALID. */
  predicate ValidCommand(cmd: int)
  {
    0 < cmd < CMD_INVALID
  }

  /** The decoder refuses any window shorter than this. */
  const MIN_DECODE_LEN: nat := 7

  /** Header (4 bytes) plus trailer (EOF, two CRC bytes, STOP): a frame is its payload plus this. */
  const FRAME_OVERHEAD: nat := 8

  /** Capacity of the payload array of a message record. */
  const MAX_MSG_SIZE: nat := 512

  /** The largest payload length the one-byte LENGTH field can carry. */
  const MAX_LENGTH_FIELD: nat := 0xFF

  // errno values (positive); the session layer returns their negations.
  const EIO: int := 5
  const ENOMEM: int := 12
  const EINVAL: int := 22
  const ENOSPC: int := 28
  const ENODATA: int := 61

  /** The smaller of two naturals. */
  function Min(a: nat, b: nat): (m: nat)
    ensures m <= a && m <= b && (m == a || m == b)
  {
    if a <= b then a else b
  }
}
