/** Properties that relate several calls of the frame codec: the
    decode/encode round trip, resynchronisation past a noise prefix, and
    independence from everything after the EOF marker. */
module CodecProperties {
  import opened Protocol
  import opened Serializer

  /** Decoding a well-formed frame at offset 0 uses offset 0, whatever follows it. */
  lemma OffsetZeroPreferred(w: seq<byte>)
    requires WellFormedAt(w, 0)
    ensures FirstValidFrom(w, 0) == 0
  {
  }

  /** Decoding the frame layout gives back the command and the payload, for
      every valid command, every payload the LENGTH byte can carry and every
      CRC value: decode inverts encode. */
  lemma {:induction false} DecodeEncodeRoundTrip(cmd: byte, payload: seq<byte>, crc: uint16)
    requires ValidCommand(cmd)
    requires |payload| <= MAX_LENGTH_FIELD
    ensures Decode(EncodeFrame(cmd, payload, crc)) == Success(Message(cmd, payload))
  {
    var f := EncodeFrame(cmd, payload, crc);
    OffsetZeroPreferred(f);
    var r := Decode(f);
    assert r.Success?;
    assert r.value.cmd == cmd;
    assert |r.value.payload| == |payload|;
    forall k | 0 <= k < |payload|
      ensures r.value.payload[k] == payload[k]
    {
      assert f[PAYLOAD_POS..PAYLOAD_POS + |payload|][k] == f[PAYLOAD_POS + k];
    }
    assert r.value.payload == payload;
  }

  /** Decoding a frame laid out with an invalid command fails with +EINVAL. */
  lemma {:induction false} EncodedInvalidCommandRejected(cmd: byte, payload: seq<byte>, crc: uint16)
    requires !ValidCommand(cmd)
    requires |payload| <= MAX_LENGTH_FIELD
    ensures Decode(EncodeFrame(cmd, payload, crc)) == Failure(EINVAL)
  {
    OffsetZeroPreferred(EncodeFrame(cmd, payload, crc));
  }

  /** The trailer CRC is never read: two frames that differ only in their CRC decode alike. */
  lemma {:induction false} CrcIgnored(cmd: byte, payload: seq<byte>, crc1: uint16, crc2: uint16)
    requires |payload| <= MAX_LENGTH_FIELD
    ensures Decode(EncodeFrame(cmd, payload, crc1)) == Decode(EncodeFrame(cmd, payload, crc2))
  {
    if ValidCommand(cmd) {
      DecodeEncodeRoundTrip(cmd, payload, crc1);
      DecodeEncodeRoundTrip(cmd, payload, crc2);
    } else {
      EncodedInvalidCommandRejected(cmd, payload, crc1);
      EncodedInvalidCommandRejected(cmd, payload, crc2);
    }
  }

  /** The first frame-length bytes of a window that is well-formed at 0. */
  ghost function FramePrefix(w: seq<byte>): seq<byte>
    requires WellFormedAt(w, 0)
  {
    w[..EofMsgPos(w[LENGTH_BYTE_POS])]
  }

  /** For a window well-formed at 0, the decoded result depends only on the
      bytes from START through EOF: CRC, STOP and anything after are never read. */
  lemma {:induction false} TailIgnored(w: seq<byte>, w': seq<byte>)
    requires WellFormedAt(w, 0)
    requires MIN_DECODE_LEN <= |w| && MIN_DECODE_LEN <= |w'|
    requires EofMsgPos(w[LENGTH_BYTE_POS]) <= |w'|
    requires w'[..EofMsgPos(w[LENGTH_BYTE_POS])] == FramePrefix(w)
    ensures Decode(w') == Decode(w)
  {
    var n := EofMsgPos(w[LENGTH_BYTE_POS]);
    forall k | 0 <= k < n
      ensures w'[k] == w[k]
    {
      assert w'[..n][k] == w[..n][k];
    }
    assert WellFormedAt(w', 0);
    OffsetZeroPreferred(w);
    OffsetZeroPreferred(w');
    var r, r' := Decode(w), Decode(w');
    assert r.Success? <==> r'.Success?;
    if r.Success? {
      assert |r.value.payload| == |r'.value.payload|;
      assert r.value.payload == r'.value.payload;
    }
  }

  /** Two windows whose first well-formed frames start the same suffix decode alike. */
  lemma {:induction false} SameSuffixSameDecode(w1: seq<byte>, w2: seq<byte>)
    requires MIN_DECODE_LEN <= |w1| && MIN_DECODE_LEN <= |w2|
    requires 0 <= FirstValidFrom(w1, 0) && 0 <= FirstValidFrom(w2, 0)
    requires w1[FirstValidFrom(w1, 0)..] == w2[FirstValidFrom(w2, 0)..]
    ensures Decode(w1) == Decode(w2)
  {
    if !PacketIsInvalid(w1) {
      OffsetZeroPreferred(w1);
    }
    if !PacketIsInvalid(w2) {
      OffsetZeroPreferred(w2);
    }
  }

  /** A prefix of noise bytes is skipped: if no frame is well-formed at any
      offset inside the noise of `noise + frame`, the window decodes exactly
      as the frame alone. */
  lemma {:induction false} NoisePrefixSkipped(noise: seq<byte>, frame: seq<byte>)
    requires WellFormedAt(frame, 0)
    requires MIN_DECODE_LEN <= |frame|
    requires forall j: nat :: j < |noise| ==> !WellFormedAt(noise + frame, j)
    ensures Decode(noise + frame) == Decode(frame)
  {
    var w := noise + frame;
    assert w[|noise|..] == frame;
    WellFormedShift(w, |noise|);
    assert FirstValidFrom(w, 0) == |noise|;
    OffsetZeroPreferred(frame);
    assert frame[0..] == frame;
    SameSuffixSameDecode(w, frame);
  }

  /** A noise byte that is not START can never begin a frame, so noise free
      of START bytes is always skipped. */
  lemma {:induction false} StartFreeNoiseSkipped(noise: seq<byte>, frame: seq<byte>)
    requires WellFormedAt(frame, 0)
    requires MIN_DECODE_LEN <= |frame|
    requires forall k :: 0 <= k < |noise| ==> noise[k] != PACKET_START_BYTE
    ensures Decode(noise + frame) == Decode(frame)
  {
    forall j: nat | j < |noise|
      ensures !WellFormedAt(noise + frame, j)
    {
      assert (noise + frame)[j] == noise[j];
    }
    NoisePrefixSkipped(noise, frame);
  }

  /** The search does not look past the first well-formed frame: if its
      command is invalid the whole window is refused, even when a valid frame
      follows. */
  lemma {:induction false} BadFirstFrameRefusesWindow(first: seq<byte>, later: seq<byte>)
    requires WellFormedAt(first, 0) && MIN_DECODE_LEN <= |first|
    requires !ValidCommand(first[CMD_POS])
    ensures Decode(first + later) == Failure(EINVAL)
  {
    var w := first + later;
    assert w[..|first|] == first;
    assert WellFormedAt(w, 0);
    OffsetZeroPreferred(w);
  }

  /** The corrected encoder completes the round trip: whenever it succeeds
      on a record with a valid command, decoding its output gives back the
      command and the payload_size bytes of payload it was given. */
  lemma {:induction false} EncodeMsgRoundTrip(maxLen: nat, msg: MsgStruct, crc16: seq<byte> -> uint16)
    requires WellSizedStruct(msg)
    requires ValidCommand(msg.cmd)
    requires EncodeMsg(maxLen, msg, crc16).Success?
    ensures Decode(EncodeMsg(maxLen, msg, crc16).value)
              == Success(Message(msg.cmd, msg.payload[..msg.payloadSize]))
  {
    var payload := msg.payload[..msg.payloadSize];
    assert EncodeMsg(maxLen, msg, crc16).value == EncodeFrame(msg.cmd, payload, crc16(payload));
    DecodeEncodeRoundTrip(msg.cmd, payload, crc16(payload));
  }
}
