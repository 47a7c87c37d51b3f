/** The session layer of the device: one RX and one TX ring, a bounded
    subscription table, and the public operations over them. A handle is an
    immutable record; each operation returns its errno-style result together
    with the updated handle, and runs as one atomic step. */
module Session {
  import opened Protocol
  import opened Serializer
  import opened RingBuffer
  import CodecProperties

  // Build-time configuration of the embedding firmware.
  const MAX_ATT_SIZE: nat := 244
  const MAX_SUBSCRIBERS: nat := 8
  const BUFFER_SPACE: nat := 2048

  /** The size of a message record on the 32-bit target: a 4-byte command,
      the payload array and a 4-byte payload_size. */
  const MSG_STRUCT_SIZE: nat := 4 + MAX_MSG_SIZE + 4

  /** A semaphore handed in by a waiting caller; NULL_SEM is the null pointer. */
  type SemRef = nat
  const NULL_SEM: SemRef := 0

  datatype Subscription = Subscription(command: uint32, listenerSem: SemRef)

  /** An all-zero table slot. */
  const ZERO_SUBSCRIPTION: Subscription := Subscription(0, NULL_SEM)

  datatype Handle = Handle(
    rx: Ring,
    tx: Ring,
    subscriptions: seq<Subscription>,
    numOfSubscribers: byte)

  /** The subscription table is a fixed array of MAX_SUBSCRIBERS slots. */
  predicate WellSized(h: Handle)
  {
    |h.subscriptions| == MAX_SUBSCRIBERS
  }

  /** The session invariant: the count never exceeds the table, and both rings respect their capacity. */
  predicate Valid(h: Handle)
  {
    && WellSized(h)
    && h.numOfSubscribers <= MAX_SUBSCRIBERS
    && h.rx.Valid()
    && h.tx.Valid()
  }

  /** The result code of an operation together with the handle after it. */
  datatype Outcome = Outcome(ret: int, handle: Handle)

  // ---------------------------------------------------------------------
  // Byte image of a message record, as copied into the RX ring.

  /** A 32-bit word as four bytes, least significant first. */
  function Le32(x: uint32): (b: seq<byte>)
    ensures |b| == 4
  {
    var y1 := x / 0x100;
    var y2 := y1 / 0x100;
    [x % 0x100, y1 % 0x100, y2 % 0x100, y2 / 0x100]
  }

  /** The 32-bit word four little-endian bytes hold. */
  function FromLe32(b: seq<byte>): (x: uint32)
    requires |b| == 4
  {
    b[0] as int + 0x100 * (b[1] as int + 0x100 * (b[2] as int + 0x100 * (b[3] as int)))
  }

  /** Reading back a little-endian 32-bit word gives the word written. */
  lemma {:induction false} Le32RoundTrip(x: uint32)
    ensures FromLe32(Le32(x)) == x
  {
    var y1 := x / 0x100;
    var y2 := y1 / 0x100;
    assert x == x % 0x100 + 0x100 * y1;
    assert y1 == y1 % 0x100 + 0x100 * y2;
    assert y2 == y2 % 0x100 + 0x100 * (y2 / 0x100);
  }

  /** The bytes of a message record: command, payload array, payload_size. */
  function StructBytes(m: MsgStruct): (b: seq<byte>)
    requires WellSizedStruct(m)
    ensures |b| == MSG_STRUCT_SIZE
    ensures b[..4] == Le32(m.cmd)
    ensures b[4..4 + MAX_MSG_SIZE] == m.payload
    ensures b[4 + MAX_MSG_SIZE..] == Le32(m.payloadSize)
  {
    Le32(m.cmd) + m.payload + Le32(m.payloadSize)
  }

  /** The message record a block of MSG_STRUCT_SIZE bytes holds. */
  function StructFromBytes(b: seq<byte>): (m: MsgStruct)
    requires |b| == MSG_STRUCT_SIZE
    ensures WellSizedStruct(m)
  {
    MsgStruct(FromLe32(b[..4]), b[4..4 + MAX_MSG_SIZE], FromLe32(b[4 + MAX_MSG_SIZE..]))
  }

  /** A record survives its trip through the byte image. */
  lemma {:induction false} StructBytesRoundTrip(m: MsgStruct)
    requires WellSizedStruct(m)
    ensures StructFromBytes(StructBytes(m)) == m
  {
    Le32RoundTrip(m.cmd);
    Le32RoundTrip(m.payloadSize);
  }

  /** A block carries message `m` when the record it holds has m's command,
      m's length as payload_size and m's payload as the payload prefix. */
  ghost predicate CarriesMessage(block: seq<byte>, m: Message)
  {
    && |block| == MSG_STRUCT_SIZE
    && |m.payload| <= MAX_MSG_SIZE
    && var s := StructFromBytes(block);
    && s.cmd == m.cmd
    && s.payloadSize == |m.payload|
    && s.payload[..|m.payload|] == m.payload
  }

  // ---------------------------------------------------------------------
  // Ring wrappers.

  /** Stores all of `data` or reports failure. Empty input is refused and
      leaves the ring alone. The library call may accept only part of the
      data; that part stays in the ring and the result is -ENOSPC. */
  function StoreToRing(ring: Ring, data: seq<byte>): (r: (int, Ring))
    requires ring.Valid()
    ensures r.1.Valid() && r.1.capacity == ring.capacity
    ensures r.0 == 0 || r.0 == -EINVAL || r.0 == -ENOSPC
    ensures |data| == 0 ==> r == (-EINVAL, ring)
    ensures r.0 == 0 <==> 0 < |data| <= ring.Space()
    ensures r.0 == -ENOSPC <==> ring.Space() < |data|
    ensures r.0 == 0 ==> r.1.contents == ring.contents + data
    ensures r.0 == -ENOSPC ==>
              && r.1.contents == ring.contents + data[..ring.Space()]
              && |r.1.contents| == ring.capacity
  {
    if |data| == 0 then
      (-EINVAL, ring)
    else
      var put := Put(ring, data);
      (if put.1 == |data| then 0 else -ENOSPC, put.0)
  }

  /** The result of a fetch: the code, the ring after it, and the bytes that
      were copied into the caller's buffer. */
  datatype Fetched = Fetched(ret: int, ring: Ring, out: seq<byte>)

  /** Fetches exactly `len` bytes or reports failure. A zero length is
      refused and leaves the ring alone; when fewer bytes are stored, all of
      them are handed out and the result is -ENODATA. */
  function FetchFromRing(ring: Ring, len: nat): (r: Fetched)
    requires ring.Valid()
    ensures r.ring.Valid() && r.ring.capacity == ring.capacity
    ensures r.ret == 0 || r.ret == -EINVAL || r.ret == -ENODATA
    ensures len == 0 ==> r == Fetched(-EINVAL, ring, [])
    ensures r.ret == 0 <==> 0 < len <= |ring.contents|
    ensures r.ret == -ENODATA <==> |ring.contents| < len
    ensures ring.contents == r.out + r.ring.contents
    ensures r.ret == 0 ==> |r.out| == len
    ensures r.ret == -ENODATA ==> r.out == ring.contents && r.ring.contents == []
  {
    if len == 0 then
      Fetched(-EINVAL, ring, [])
    else
      var got := Get(ring, len);
      Fetched(if |got.1| == len then 0 else -ENODATA, got.0, got.1)
  }

  // ---------------------------------------------------------------------
  // Public operations.

  /** Fresh session: both rings empty with BUFFER_SPACE bytes each, no
      subscribers, every table slot zeroed. */
  function Init(): (r: Outcome)
    ensures r.ret == 0 && Valid(r.handle)
    ensures r.handle.rx.contents == [] && r.handle.tx.contents == []
    ensures r.handle.rx.capacity == BUFFER_SPACE && r.handle.tx.capacity == BUFFER_SPACE
    ensures r.handle.numOfSubscribers == 0
    ensures forall i :: 0 <= i < MAX_SUBSCRIBERS ==> r.handle.subscriptions[i] == ZERO_SUBSCRIPTION
  {
    Outcome(0, Handle(EmptyRing(BUFFER_SPACE), EmptyRing(BUFFER_SPACE),
                      seq(MAX_SUBSCRIBERS, _ => ZERO_SUBSCRIPTION), 0))
  }

  /** Registers `sem` as listener for `command` in the next free slot. A
      null semaphore gives -EINVAL and a full table -ENOMEM, both leaving the
      handle unchanged. There is no duplicate check. */
  function WaitForCommand(h: Handle, command: uint32, sem: SemRef): (r: Outcome)
    requires WellSized(h)
    ensures WellSized(r.handle)
    ensures Valid(h) ==> Valid(r.handle)
    ensures r.ret == 0 || r.ret == -EINVAL || r.ret == -ENOMEM
    ensures sem == NULL_SEM ==> r == Outcome(-EINVAL, h)
    ensures sem != NULL_SEM && h.numOfSubscribers >= MAX_SUBSCRIBERS ==> r == Outcome(-ENOMEM, h)
    ensures r.ret == 0 <==> sem != NULL_SEM && h.numOfSubscribers < MAX_SUBSCRIBERS
    ensures r.ret == 0 ==>
              && r.handle.numOfSubscribers == h.numOfSubscribers + 1
              && r.handle.subscriptions[h.numOfSubscribers] == Subscription(command, sem)
              && (forall i :: 0 <= i < MAX_SUBSCRIBERS && i != h.numOfSubscribers ==>
                    r.handle.subscriptions[i] == h.subscriptions[i])
              && r.handle.rx == h.rx && r.handle.tx == h.tx
  {
    if sem == NULL_SEM then
      Outcome(-EINVAL, h)
    else if h.numOfSubscribers >= MAX_SUBSCRIBERS then
      Outcome(-ENOMEM, h)
    else
      var n := h.numOfSubscribers;
      Outcome(0, h.(subscriptions := h.subscriptions[n := Subscription(command, sem)],
                    numOfSubscribers := n + 1))
  }

  /** Tear-down: forgets every subscriber by resetting the count; the rings
      and the table slots themselves are not touched. */
  function Deinit(h: Handle): (r: Outcome)
    ensures r.ret == 0
    ensures r.handle.numOfSubscribers == 0
    ensures r.handle.rx == h.rx && r.handle.tx == h.tx
    ensures r.handle.subscriptions == h.subscriptions
    ensures Valid(r.handle) <==> WellSized(h) && h.rx.Valid() && h.tx.Valid()
  {
    Outcome(0, h.(numOfSubscribers := 0))
  }

  /** The message record the send path builds: the payload is truncated to
      MAX_ATT_SIZE bytes and the rest of the array is zero. */
  function BuildMessage(command: uint32, data: seq<byte>): (m: MsgStruct)
    ensures WellSizedStruct(m) && m.cmd == command
    ensures m.payloadSize == Min(|data|, MAX_ATT_SIZE)
    ensures m.payload[..m.payloadSize] == data[..m.payloadSize]
    ensures forall k :: m.payloadSize <= k < MAX_MSG_SIZE ==> m.payload[k] == 0
  {
    var n := if |data| > MAX_ATT_SIZE then MAX_ATT_SIZE else |data|;
    MsgStruct(command, data[..n] + seq(MAX_MSG_SIZE - n, _ => 0), n)
  }

  /** What the send path does: refuse with a code, or hand `size` bytes to
      the user-supplied transport, whose own result is then returned. */
  datatype SendStep = SendRejected(ret: int) | Transmit(bytes: seq<byte>, size: byte)

  /** The send path as shipped. `encoded` is the uninitialised stack buffer.
      The shipped encoder reports +EINVAL for every message, which the
      `< 0` test lets through, so the transport is handed EINVAL bytes of
      that buffer and the -EIO branch is never taken. */
  function SendMessageAsWritten(command: uint32, data: seq<byte>, encoded: seq<byte>): (r: SendStep)
    requires |encoded| == MAX_ATT_SIZE
    ensures |data| == 0 ==> r == SendRejected(-EINVAL)
    ensures |data| > 0 ==> r == Transmit(encoded[..EINVAL], EINVAL)
  {
    if |data| == 0 then
      SendRejected(-EINVAL)
    else
      var msg := BuildMessage(command, data);
      var encodedLen := EncodeMsgAsWritten(MAX_ATT_SIZE, Some(msg), true);
      if encodedLen < 0 then
        SendRejected(-EIO)
      else
        Transmit(encoded[..encodedLen], encodedLen)
  }

  /** The send path with the corrected encoder: a payload that, after
      truncation, still does not fit the MAX_ATT_SIZE output buffer as a
      frame gives -EIO; otherwise the transport receives the frame for the
      command's low byte, the payload and its CRC, which for a valid command
      decodes back to the command and the whole payload. */
  function SendMessage(command: uint32, data: seq<byte>, crc16: seq<byte> -> uint16): (r: SendStep)
    ensures |data| == 0 ==> r == SendRejected(-EINVAL)
    ensures |data| > 0 && r.SendRejected? ==> r.ret == -EIO
    ensures r.Transmit? <==> 0 < |data| && |data| + FRAME_OVERHEAD <= MAX_ATT_SIZE
    ensures r.Transmit? ==> r.size == |r.bytes| == |data| + FRAME_OVERHEAD
    ensures r.Transmit? ==> r.bytes == EncodeFrame(command % 0x100, data, crc16(data))
    ensures r.Transmit? && ValidCommand(command) ==>
              Decode(r.bytes) == Success(Message(command, data))
  {
    if |data| == 0 then
      SendRejected(-EINVAL)
    else
      var msg := BuildMessage(command, data);
      match EncodeMsg(MAX_ATT_SIZE, msg, crc16)
      case Failure(_) => SendRejected(-EIO)
      case Success(frame) =>
        SendRoundTrip(command, data, crc16);
        assert msg.payload[..msg.payloadSize] == data;
        Transmit(frame, |frame|)
  }

  /** The frame the corrected send path emits decodes to what was sent. */
  lemma {:induction false} SendRoundTrip(command: uint32, data: seq<byte>, crc16: seq<byte> -> uint16)
    requires 0 < |data| && |data| + FRAME_OVERHEAD <= MAX_ATT_SIZE
    ensures EncodeMsg(MAX_ATT_SIZE, BuildMessage(command, data), crc16).Success?
    ensures ValidCommand(command) ==>
              Decode(EncodeMsg(MAX_ATT_SIZE, BuildMessage(command, data), crc16).value)
                == Success(Message(command, data))
  {
    var msg := BuildMessage(command, data);
    assert msg.payload[..msg.payloadSize] == data;
    if ValidCommand(command) {
      assert EncodeMsg(MAX_ATT_SIZE, msg, crc16).value == EncodeFrame(command, data, crc16(data));
      CodecProperties.DecodeEncodeRoundTrip(command, data, crc16(data));
    }
  }

  /** Receives one raw window of MAX_ATT_SIZE bytes: decodes it and pushes
      the decoded record, one MSG_STRUCT_SIZE block, onto the RX ring.
      `scratch` is the uninitialised record the decoder writes into. A
      decode failure gives -EINVAL and leaves the handle alone; a full ring
      gives -ENOSPC, the part of the block that fit remaining in the ring.
      Nothing but the RX ring ever changes. */
  function OnBleMessage(h: Handle, raw: seq<byte>, scratch: MsgStruct): (r: Outcome)
    requires |raw| == MAX_ATT_SIZE
    requires WellSizedStruct(scratch)
    requires h.rx.Valid()
    ensures r.ret == 0 || r.ret == -EINVAL || r.ret == -ENOSPC
    ensures r.handle.tx == h.tx
    ensures r.handle.subscriptions == h.subscriptions
    ensures r.handle.numOfSubscribers == h.numOfSubscribers
    ensures r.handle.rx.Valid() && r.handle.rx.capacity == h.rx.capacity
    ensures Valid(h) ==> Valid(r.handle)
    ensures r.ret == -EINVAL <==> Decode(raw).Failure?
    ensures r.ret == -EINVAL ==> r.handle == h
    ensures r.ret == 0 <==> Decode(raw).Success? && MSG_STRUCT_SIZE <= h.rx.Space()
    ensures r.ret == 0 ==>
              && |r.handle.rx.contents| == |h.rx.contents| + MSG_STRUCT_SIZE
              && r.handle.rx.contents[..|h.rx.contents|] == h.rx.contents
              && CarriesMessage(r.handle.rx.contents[|h.rx.contents|..], Decode(raw).value)
    ensures r.ret == -ENOSPC ==>
              && |r.handle.rx.contents| == h.rx.capacity
              && r.handle.rx.contents[..|h.rx.contents|] == h.rx.contents
              && r.handle.rx.contents[|h.rx.contents|..]
                   == StructBytes(DecodeInto(raw, scratch).1)[..h.rx.Space()]
  {
    var decoded := DecodeInto(raw, scratch);
    if decoded.0 != 0 then
      Outcome(-EINVAL, h)
    else
      var block := StructBytes(decoded.1);
      StructBytesRoundTrip(decoded.1);
      var stored := StoreToRing(h.rx, block);
      assert stored.0 == 0 ==> stored.1.contents[|h.rx.contents|..] == block;
      if stored.0 != 0 then
        Outcome(-ENOSPC, h.(rx := stored.1))
      else
        Outcome(0, h.(rx := stored.1))
  }
}
