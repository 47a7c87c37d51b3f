/** The frame codec of the device: the well-formedness test, the
    resynchronising search, the decoder, and the encoder (both its guard as
    shipped and the frame layout it is meant to produce). */
module Serializer {
  import opened Protocol

  /** A decoded message: its command and its payload; `payload_size` is `|payload|`. */
  datatype Message = Message(cmd: byte, payload: seq<byte>)

  /** The device's message record: a command, a fixed payload array and the
      number of payload bytes in use. */
  datatype MsgStruct = MsgStruct(cmd: uint32, payload: seq<byte>, payloadSize: uint32)

  predicate WellSizedStruct(m: MsgStruct)
  {
    |m.payload| == MAX_MSG_SIZE
  }

  /** Reference definition of "a frame is well-formed at offset i of w":
      with L the byte at i+1, the window holds at least the L+5 bytes from
      START through EOF, and the START, SOF and EOF markers sit at i, i+2 and
      i+L+4. The CRC and STOP bytes take no part. */
  ghost predicate WellFormedAt(w: seq<byte>, i: nat)
  {
    && i + 1 < |w|
    && i + EofMsgPos(w[i + 1]) <= |w|
    && w[i] == PACKET_START_BYTE
    && w[i + 2] == PACKET_SOF_MSG
    && w[i + w[i + 1] + 4] == PACKET_EOF_MSG
  }

  /** True when `buf` (a window of |buf| bytes) does NOT start with a
      well-formed frame. Every read stays inside the window. */
  function PacketIsInvalid(buf: seq<byte>): (invalid: bool)
    requires |buf| > LENGTH_BYTE_POS
    ensures !invalid <==> WellFormedAt(buf, 0)
  {
    var length := buf[LENGTH_BYTE_POS];
    var eofPos := EofMsgPos(length);
    if eofPos > |buf| then
      true
    else if buf[START_BYTE_POS] == PACKET_START_BYTE
         && buf[SOF_MSG_POS] == PACKET_SOF_MSG
         && buf[eofPos - 1] == PACKET_EOF_MSG then
      false
    else
      true
  }

  /** Well-formedness at offset i of w is well-formedness at the start of the suffix from i. */
  lemma WellFormedShift(w: seq<byte>, i: nat)
    requires i <= |w|
    ensures WellFormedAt(w, i) <==> WellFormedAt(w[i..], 0)
  {
  }

  /** The search loop as a recursive function: the least offset at or after
      `i` where a frame is well-formed, or -1 if there is none. */
  function FirstValidFrom(w: seq<byte>, i: nat): (r: int)
    decreases |w| - i
    ensures r == -1 || (i <= r < |w| && WellFormedAt(w, r))
    ensures r == -1 <==> forall j: nat :: i <= j ==> !WellFormedAt(w, j)
    ensures 0 <= r ==> forall j: nat :: i <= j < r ==> !WellFormedAt(w, j)
  {
    if i + 2 >= |w| then
      -1
    else if w[i] == PACKET_START_BYTE && i + 1 + w[i + 1] < |w| && !PacketIsInvalid(w[i..]) then
      WellFormedShift(w, i);
      i
    else
      WellFormedShift(w, i);
      FirstValidFrom(w, i + 1)
  }

  /** The search as the device runs it: scan forward while `i + 2 < len`,
      try offsets holding a START byte whose declared frame ends inside the
      window. Returns the least well-formed offset, or -1. */
  method FindValidFrameOffset(data: seq<byte>) returns (r: int)
    ensures r == -1 || (0 <= r < |data| && WellFormedAt(data, r))
    ensures r == -1 <==> forall j: nat :: !WellFormedAt(data, j)
    ensures 0 <= r ==> forall j: nat :: j < r ==> !WellFormedAt(data, j)
    ensures r == FirstValidFrom(data, 0)
  {
    var i: nat := 0;
    while i + 2 < |data|
      invariant forall j: nat :: j < i ==> !WellFormedAt(data, j)
    {
      if data[i] == PACKET_START_BYTE {
        var length := data[i + 1];
        // The declared frame must end inside the window.
        if i + 1 + length < |data| {
          if !PacketIsInvalid(data[i..]) {
            WellFormedShift(data, i);
            return i;
          }
        }
      }
      WellFormedShift(data, i);
      i := i + 1;
    }
    return -1;
  }

  /** The two bounds guards of the search are implied by well-formedness,
      so they never hide a well-formed offset. */
  lemma SearchGuardsImplied(w: seq<byte>, i: nat)
    requires WellFormedAt(w, i)
    ensures i + 2 < |w|
    ensures i + 1 + w[i + 1] < |w|
  {
  }

  /** Decodes the frame at the start of `buf`: checks the command byte, then
      copies LENGTH payload bytes. Failure is reported as 1. The caller must
      guarantee that the payload lies inside the window. */
  function DecodeMsgFromBuffer(buf: seq<byte>): (r: Result<Message>)
    requires CMD_POS < |buf|
    requires PAYLOAD_POS + buf[LENGTH_BYTE_POS] <= |buf|
    ensures r.Success? <==> ValidCommand(buf[CMD_POS])
    ensures r.Failure? ==> r.error == 1
    ensures r.Success? ==> r.value.cmd == buf[CMD_POS]
    ensures r.Success? ==> |r.value.payload| == buf[LENGTH_BYTE_POS]
    ensures r.Success? ==> forall k :: 0 <= k < |r.value.payload| ==> r.value.payload[k] == buf[PAYLOAD_POS + k]
  {
    var cmd := buf[CMD_POS];
    if cmd == 0 || cmd >= CMD_INVALID then
      Failure(1)
    else
      var msgLen := buf[LENGTH_BYTE_POS];
      Success(Message(cmd, buf[PAYLOAD_POS..PAYLOAD_POS + msgLen]))
  }

  /** Decodes a raw window. Windows shorter than MIN_DECODE_LEN are refused;
      otherwise the frame at offset 0 is used when well-formed, and the least
      well-formed offset otherwise. Every failure is reported as +EINVAL. */
  function Decode(w: seq<byte>): (r: Result<Message>)
    ensures |w| < MIN_DECODE_LEN ==> r == Failure(EINVAL)
    ensures r.Failure? ==> r.error == EINVAL
    ensures MIN_DECODE_LEN <= |w| && FirstValidFrom(w, 0) == -1 ==> r.Failure?
    ensures r.Success? ==>
              var off := FirstValidFrom(w, 0);
              && MIN_DECODE_LEN <= |w|
              && 0 <= off
              && WellFormedAt(w, off)
              && off + EofMsgPos(|r.value.payload|) <= |w|
              && r.value.cmd == w[off + CMD_POS]
              && ValidCommand(r.value.cmd)
              && |r.value.payload| == w[off + LENGTH_BYTE_POS]
              && forall k :: 0 <= k < |r.value.payload| ==> r.value.payload[k] == w[off + PAYLOAD_POS + k]
    ensures MIN_DECODE_LEN <= |w| && 0 <= FirstValidFrom(w, 0) ==>
              (r.Success? <==> ValidCommand(w[FirstValidFrom(w, 0) + CMD_POS]))
  {
    if |w| < MIN_DECODE_LEN then
      Failure(EINVAL)
    else
      var offset := if PacketIsInvalid(w) then FirstValidFrom(w, 0) else 0;
      if offset < 0 then
        Failure(EINVAL)
      else
        var length := w[offset + LENGTH_BYTE_POS];
        // Never taken: a byte is always below itself plus five.
        if length >= EofMsgPos(length) then
          Failure(EINVAL)
        else
          match DecodeMsgFromBuffer(w[offset..])
          case Failure(_) => Failure(EINVAL)
          case Success(m) => Success(m)
  }

  /** The decoder with its output record: returns 0 or +EINVAL, writes
      command, payload prefix and payload_size on success, and leaves the
      record untouched on every failure. */
  function DecodeInto(w: seq<byte>, out: MsgStruct): (r: (int, MsgStruct))
    requires WellSizedStruct(out)
    ensures r.0 == 0 || r.0 == EINVAL
    ensures r.0 == 0 <==> Decode(w).Success?
    ensures r.0 != 0 ==> r.1 == out
    ensures r.0 == 0 ==>
              var m := Decode(w).value;
              && WellSizedStruct(r.1)
              && r.1.cmd == m.cmd
              && r.1.payloadSize == |m.payload|
              && r.1.payload[..|m.payload|] == m.payload
              && r.1.payload[|m.payload|..] == out.payload[|m.payload|..]
  {
    match Decode(w)
    case Failure(e) => (e, out)
    case Success(m) =>
      var n := |m.payload|;
      (0, MsgStruct(m.cmd, m.payload + out.payload[n..], n))
  }

  /** The frame the encoder is meant to emit for command `cmd` and payload
      `payload`, with the payload's CRC16 stored little-endian. */
  function EncodeFrame(cmd: byte, payload: seq<byte>, crc: uint16): (f: seq<byte>)
    requires |payload| <= MAX_LENGTH_FIELD
    ensures |f| == |payload| + FRAME_OVERHEAD
    ensures WellFormedAt(f, 0) && f[LENGTH_BYTE_POS] == |payload|
    ensures f[CMD_POS] == cmd && f[PAYLOAD_POS..PAYLOAD_POS + |payload|] == payload
    ensures f[|payload| + 5] as int + 0x100 * (f[|payload| + 6] as int) == crc
    ensures f[|f| - 1] == PACKET_STOP_BYTE
  {
    [PACKET_START_BYTE, |payload|, PACKET_SOF_MSG, cmd]
    + payload
    + [PACKET_EOF_MSG, crc % 0x100, crc / 0x100, PACKET_STOP_BYTE]
  }

  /** The encoder's guard exactly as shipped: `in_buff ||` makes every
      present message fail, so the call succeeds only when there is no
      message to encode. It writes nothing in either case. */
  function EncodeMsgAsWritten(maxLen: nat, msg: Option<MsgStruct>, outPresent: bool): (ret: int)
    ensures ret == 0 || ret == EINVAL
    ensures msg.Some? ==> ret == EINVAL
    ensures ret == 0 <==> maxLen >= FRAME_OVERHEAD && msg.None? && outPresent
  {
    if maxLen < FRAME_OVERHEAD || (msg.Some? || !outPresent) then
      EINVAL
    else
      0
  }

  /** The encoder with the guard it was meant to have: it refuses a payload
      the LENGTH byte cannot carry or a frame longer than `maxLen`, and
      otherwise emits the frame layout, the CRC taken over the payload. The
      command occupies a single byte on the wire. */
  function EncodeMsg(maxLen: nat, msg: MsgStruct, crc16: seq<byte> -> uint16): (r: Result<seq<byte>>)
    requires WellSizedStruct(msg)
    ensures r.Failure? ==> r.error == EINVAL
    ensures r.Success? <==> msg.payloadSize <= MAX_LENGTH_FIELD && msg.payloadSize + FRAME_OVERHEAD <= maxLen
    ensures r.Success? ==> |r.value| == msg.payloadSize + FRAME_OVERHEAD <= maxLen
    ensures r.Success? ==> WellFormedAt(r.value, 0) && r.value[LENGTH_BYTE_POS] == msg.payloadSize
    ensures r.Success? ==>
              var p := msg.payload[..msg.payloadSize];
              && r.value[CMD_POS] == msg.cmd % 0x100
              && r.value[PAYLOAD_POS..PAYLOAD_POS + |p|] == p
              && r.value[|p| + 5] as int + 0x100 * (r.value[|p| + 6] as int) == crc16(p) as int
              && r.value[|r.value| - 1] == PACKET_STOP_BYTE
  {
    if msg.payloadSize > MAX_LENGTH_FIELD || msg.payloadSize + FRAME_OVERHEAD > maxLen then
      Failure(EINVAL)
    else
      var payload := msg.payload[..msg.payloadSize];
      Success(EncodeFrame(msg.cmd % 0x100, payload, crc16(payload)))
  }
}
