/** The byte vectors of the device's codec tests, stated as lemmas about the model. */
module Scenarios {
  import opened Protocol
  import opened Serializer
  import opened CodecProperties

  /** The frame used by both the decode and the encode test. */
  const VALID_FRAME: seq<byte> := [0x01, 0x02, 0x3A, 0x02, 0xAA, 0xBB, 0x3B, 0xD7, 0x59, 0x17]

  /** The encode test's expected layout is the decode test's frame. */
  lemma EncodeLayoutMatchesVector()
    ensures EncodeFrame(CMD_START, [0xAA, 0xBB], 0x59D7) == VALID_FRAME
  {
  }

  /** The aligned frame decodes to command START and payload AA BB. */
  lemma ValidFrameDecodes()
    ensures Decode(VALID_FRAME) == Success(Message(CMD_START, [0xAA, 0xBB]))
  {
    EncodeLayoutMatchesVector();
    DecodeEncodeRoundTrip(CMD_START, [0xAA, 0xBB], 0x59D7);
  }

  /** A window with no START byte anywhere is refused. */
  lemma InvalidStartRefused()
    ensures Decode([0x00, 0x02, 0x3A, 0x02, 0xAA, 0xBB, 0x3B]) == Failure(EINVAL)
  {
    var w: seq<byte> := [0x00, 0x02, 0x3A, 0x02, 0xAA, 0xBB, 0x3B];
    assert forall j: nat :: !WellFormedAt(w, j) by {
      forall j: nat ensures !WellFormedAt(w, j) {
        if j < |w| { assert w[j] != PACKET_START_BYTE; }
      }
    }
  }

  /** A window cut before its EOF marker is refused by the length check. */
  lemma MissingEofRefused()
    ensures Decode([0x01, 0x02, 0x3A, 0x02, 0xAA, 0xBB]) == Failure(EINVAL)
  {
  }

  /** The test window holding a frame shifted by two zero bytes. */
  const SHIFTED_WINDOW: seq<byte> := [0x00, 0x00, 0x01, 0x02, 0x3A, 0x03, 0xDE, 0xAD, 0x3B, 0xC4, 0xBB, 0x17]

  /** The shifted frame decodes as if aligned. */
  lemma ShiftedFrameDecodes()
    ensures Decode(SHIFTED_WINDOW) == Success(Message(CMD_STOP, [0xDE, 0xAD]))
  {
    var noise: seq<byte> := [0x00, 0x00];
    var frame := EncodeFrame(CMD_STOP, [0xDE, 0xAD], 0xBBC4);
    assert SHIFTED_WINDOW == noise + frame;
    StartFreeNoiseSkipped(noise, frame);
    DecodeEncodeRoundTrip(CMD_STOP, [0xDE, 0xAD], 0xBBC4);
  }

  /** The invalid-command test vector is six bytes long, so it is refused by
      the length check before its command byte is ever read. */
  lemma InvalidCommandVectorRefusedByLength()
    ensures |[0x01, 0x01, 0x3A, 0x06, 0xFF, 0x3B]| < MIN_DECODE_LEN
    ensures Decode([0x01, 0x01, 0x3A, 0x06, 0xFF, 0x3B]) == Failure(EINVAL)
  {
  }

  /** With one trailing byte the same frame reaches the command check, which refuses command 6. */
  lemma InvalidCommandRefused()
    ensures Decode([0x01, 0x01, 0x3A, 0x06, 0xFF, 0x3B, 0x00]) == Failure(EINVAL)
  {
    var w: seq<byte> := [0x01, 0x01, 0x3A, 0x06, 0xFF, 0x3B, 0x00];
    assert WellFormedAt(w, 0);
    OffsetZeroPreferred(w);
  }

  /** A frame whose CRC bytes are zeroed still decodes: the CRC is never checked. */
  lemma CorruptCrcAccepted()
    ensures Decode([0x01, 0x02, 0x3A, 0x02, 0xAA, 0xBB, 0x3B, 0x00, 0x00, 0x17])
              == Success(Message(CMD_START, [0xAA, 0xBB]))
  {
    assert [0x01, 0x02, 0x3A, 0x02, 0xAA, 0xBB, 0x3B, 0x00, 0x00, 0x17] == EncodeFrame(CMD_START, [0xAA, 0xBB], 0);
    DecodeEncodeRoundTrip(CMD_START, [0xAA, 0xBB], 0);
  }

  /** The encode test's call (a 32-byte buffer, a present message) is refused
      by the shipped guard, where the test expects 0. */
  lemma EncodeTestRefusedAsWritten(msg: MsgStruct)
    ensures EncodeMsgAsWritten(32, Some(msg), true) == EINVAL
  {
  }
}
