# Manikin BLE protocol — a Dafny model of the device core

This project models the device side of the manikin BLE framing protocol: the
frame codec (`manikin_ble_serializer.c`) and the session bookkeeping built on
it (`manikin_ble.c`).

A frame is laid out as

    | START 0x01 | LENGTH | SOF 0x3A | CMD | payload (LENGTH bytes) | EOF 0x3B | CRC lo | CRC hi | STOP 0x17 |

The decoder accepts a raw window and finds a frame in it. It first refuses
any window shorter than 7 bytes. It then tries offset 0. If no frame is
well-formed there, it scans forward for the least offset where one is.
Well-formedness checks only START, SOF and EOF at the positions LENGTH
implies. At the chosen offset the command byte must lie strictly between 0
and 6. The payload is then copied out.

The session keeps an RX ring, a TX ring and a bounded table of command
subscriptions. Each session operation is a pure function. It returns the
errno-style code together with the new handle.

Modules, one per source unit:

- `Protocol` (`protocol.dfy`) holds the constants from
  `device/src/private/manikin_ble_protocol_definitions.h`: marker bytes,
  command identifiers and header positions. It also holds byte types and
  errno values.
- `Serializer` (`serializer.dfy`) models `manikin_ble_serializer.c`. It also
  holds the reference predicate `WellFormedAt`, the frame layout
  `EncodeFrame` and the corrected encoder.
- `CodecProperties` (`codec_properties.dfy`) holds the round trip, the
  noise-prefix and tail-independence lemmas.
- `Scenarios` (`scenarios.dfy`) holds the byte vectors of the device's
  codec tests, stated as lemmas about the model.
- `RingBuffer` (`ring.dfy`) is an abstract bounded byte FIFO. It stands in
  for the RTOS ring buffer.
- `Session` (`session.dfy`) models `manikin_ble.c`.
- `SessionProperties` (`session_properties.dfy`) holds lemmas over several
  session operations.

Conventions and assumptions:

- Error signs follow the code. The serializer reports a positive `EINVAL`;
  `decode_msg_from_buffer` reports 1. The session layer returns negative
  errnos. The errno values are the POSIX/newlib numbers (EIO 5, ENOMEM 12,
  EINVAL 22, ENOSPC 28, ENODATA 61). The value of EINVAL also matters in one
  place: the shipped send path hands the transport EINVAL, that is 22, bytes
  (`Session.SendMessageAsWritten`).
- Some values are build-time configuration and are not defined in the
  repository's sources. They are fixed as constants:
  - `MAX_ATT_SIZE` = 244
  - `MAX_SUBSCRIBERS` = 8
  - ring capacity `BUFFER_SPACE` = 2048
  - `sizeof(manikin_ble_msg_t)` = 520, for a 32-bit target: 4-byte enum,
    512-byte payload, 4-byte `size_t`
- `MANIKIN_BLE_EOF_MSG_POS(L)` is `L + 5`. The EOF marker is at `L + 4`.
  `MANIKIN_BLE_CMD_INVALID` is 6.
- The header names the SOF and EOF markers `START_OF_MSG` and `END_OF_MSG`,
  while the code says `SOF_MSG` and `EOF_MSG`. Their values are 0x3A and
  0x3B.
- The ring library's put copies as many bytes as still fit and returns the
  count. Its get hands out what is stored. So a store that does not fit
  leaves the bytes that fitted in the ring and returns -ENOSPC; nothing
  rolls them back (`SessionProperties.FailedStoreIsPartial`).
- The CRC algorithm is not part of this model. The encoder takes the CRC as a
  function parameter `crc16`. The decoder never reads the CRC, as in the code.
- Null pointers are modelled only where the code stores or tests them as
  values: the listener semaphore (`NULL_SEM`), the encoder's message
  argument (`Option`) and the encoder's output buffer (`outPresent`).
- Uninitialised memory is passed in as a parameter: the decoder's output
  record in `on_ble_message`, and the encode buffer in `send_message`.

Where the code differs from its own tests, the model follows the code:

- The decoder does not check the CRC. The test `test_invalid_crc`
  (device/tests/manikin_ble_serializer_decode/src/main.c:78-89) expects an
  error for a frame whose CRC bytes are zeroed. In the model that vector
  decodes successfully (`Scenarios.CorruptCrcAccepted`).
- The invalid-command test vector is 6 bytes long. It is refused by the
  length check, not by the command check
  (`Scenarios.InvalidCommandVectorRefusedByLength`).
- The code disagrees with itself about what a successful encode returns.
  The encode test expects 0
  (device/tests/manikin_ble_serializer_encode/src/main.c:19-20), and the
  encoder's body returns 0 when its guard passes. But
  `manikin_ble_send_message` passes the encoder's result to the transport
  as the number of bytes to send (device/src/manikin_ble.c:91-95), so an
  encoder returning 0 would send nothing. The corrected `Serializer.EncodeMsg`
  and `Session.SendMessage` follow send_message: a successful encode yields
  the frame, and the transport is handed all of its bytes.

Other behaviour of the code that the model keeps as written:

- `manikin_ble_wait_for_command` does no duplicate check: registering the
  same command twice takes two slots. It only registers and never blocks
  (`SessionProperties.DuplicateRegistrationAccepted`).
- `manikin_ble_send_message` never touches the TX ring. It hands the frame
  straight to the transport; the TX ring is only initialised, by `manikin_ble_init`.

## Model

| member | source | states |
|---|---|---|
| Serializer.PacketIsInvalid | device/src/manikin_ble_serializer.c:27-42 | the window starts with no frame exactly when the reference well-formedness fails: L+5 bytes are present, START at 0, SOF at 2, EOF at L+4; every read stays in bounds |
| Serializer.WellFormedShift | device/src/manikin_ble_serializer.c:55 | testing the suffix from offset i is the same as testing well-formedness at offset i of the whole window |
| Serializer.FirstValidFrom | device/src/manikin_ble_serializer.c:44-63 | the search returns the least offset at or after i at which a frame is well-formed, or -1 exactly when there is none |
| Serializer.FindValidFrameOffset | device/src/manikin_ble_serializer.c:44-63 | the loop as written returns the least well-formed offset of the window, or -1 exactly when no offset is well-formed; it agrees with the recursive search `FirstValidFrom` that `Decode` uses |
| Serializer.SearchGuardsImplied | device/src/manikin_ble_serializer.c:46-53 | the loop guards i+2 < len and i+1+length < len hold at every well-formed offset, so they never skip a frame |
| Serializer.DecodeMsgFromBuffer | device/src/manikin_ble_serializer.c:11-25 | succeeds exactly when the command byte is neither 0 nor at least CMD_INVALID; on success the command is that byte, the payload has LENGTH bytes and byte k is the byte at 4+k; failure is 1 |
| Serializer.Decode | device/src/manikin_ble_serializer.c:65-98 | windows under 7 bytes give EINVAL; with no well-formed offset, EINVAL; otherwise success exactly when the command at the least well-formed offset is valid, and then command, payload_size (the LENGTH byte) and payload bytes are read at that offset |
| Serializer.DecodeInto | device/src/manikin_ble_serializer.c:65-98 | returns 0 or EINVAL; on failure the output record is unchanged; on success it holds the command, payload_size and the payload prefix, and the rest of the payload array is unchanged |
| Serializer.EncodeFrame | device/tests/manikin_ble_serializer_encode/src/main.c:22-41 | the intended frame has length payload+8, is well-formed at 0 with LENGTH the payload length, carries command and payload at 3 and 4, stores the CRC little-endian after EOF and ends with STOP |
| Serializer.EncodeMsgAsWritten | device/src/manikin_ble_serializer.c:100-108 | the shipped guard returns EINVAL for every present message; it returns 0 only when the message is absent, the output present and max_len at least 8 |
| Serializer.EncodeMsg | device/src/manikin_ble_serializer.c:100-108 | the corrected encoder succeeds exactly when payload_size fits the LENGTH byte and the frame fits max_len, and fails only with EINVAL; its output is then a well-formed frame of length payload_size+8 whose LENGTH byte is payload_size, whose CMD byte is the low byte of the command, whose payload is the first payload_size bytes of the record, whose CRC bytes hold crc16 of that payload little-endian, and whose last byte is STOP |
| CodecProperties.OffsetZeroPreferred | device/src/manikin_ble_serializer.c:72-83 | a window well-formed at 0 is decoded at offset 0 |
| CodecProperties.DecodeEncodeRoundTrip | device/tests/manikin_ble_serializer_decode/src/main.c:7-21 | decoding the frame layout returns the command and payload for every valid command, payload up to 255 bytes and CRC |
| CodecProperties.EncodedInvalidCommandRejected | device/src/manikin_ble_serializer.c:13-17 | a frame with command 0 or at least 6 is refused with EINVAL |
| CodecProperties.CrcIgnored | device/tests/manikin_ble_serializer_decode/src/main.c:78-89 | two frames that differ only in their CRC decode identically, so a corrupted CRC is never detected |
| CodecProperties.TailIgnored | device/src/manikin_ble_serializer.c:27-42 | for a window well-formed at 0, the result depends only on the bytes from START through EOF |
| CodecProperties.SameSuffixSameDecode | device/src/manikin_ble_serializer.c:72-92 | the result depends only on the window suffix starting at the least well-formed offset |
| CodecProperties.NoisePrefixSkipped | device/src/manikin_ble_serializer.c:72-83 | noise before a frame that forms no well-formed offset of its own leaves the decoded result unchanged |
| CodecProperties.StartFreeNoiseSkipped | device/tests/manikin_ble_serializer_decode/src/main.c:43-56 | any noise prefix without a START byte leaves the decoded result unchanged |
| CodecProperties.BadFirstFrameRefusesWindow | device/src/manikin_ble_serializer.c:72-96 | a first well-formed frame with an invalid command makes the whole window fail, whatever follows |
| CodecProperties.EncodeMsgRoundTrip | device/tests/manikin_ble_serializer_encode/src/main.c:9-41 | whenever the corrected encoder succeeds on a valid command, decoding its output gives back command and payload |
| Scenarios.EncodeLayoutMatchesVector | device/tests/manikin_ble_serializer_encode/src/main.c:22-41 | the frame layout for command START, payload AA BB and CRC 0x59D7 is the test's ten bytes |
| Scenarios.ValidFrameDecodes | device/tests/manikin_ble_serializer_decode/src/main.c:7-21 | the aligned test frame decodes to command START with payload AA BB |
| Scenarios.InvalidStartRefused | device/tests/manikin_ble_serializer_decode/src/main.c:23-31 | a window with a bad START byte is refused with EINVAL |
| Scenarios.MissingEofRefused | device/tests/manikin_ble_serializer_decode/src/main.c:33-41 | a window cut before EOF is refused with EINVAL |
| Scenarios.ShiftedFrameDecodes | device/tests/manikin_ble_serializer_decode/src/main.c:43-56 | the frame shifted by two zero bytes decodes to command STOP with payload DE AD |
| Scenarios.InvalidCommandVectorRefusedByLength | device/tests/manikin_ble_serializer_decode/src/main.c:68-76 | the invalid-command vector is refused, and by the length check, since it is only 6 bytes |
| Scenarios.InvalidCommandRefused | device/src/manikin_ble_serializer.c:13-17 | the same frame padded to 7 bytes reaches the command check and is refused for command 6 |
| Scenarios.CorruptCrcAccepted | device/tests/manikin_ble_serializer_decode/src/main.c:78-89 | the frame with zeroed CRC decodes successfully, so the test's expectation is not met |
| Scenarios.EncodeTestRefusedAsWritten | device/tests/manikin_ble_serializer_encode/src/main.c:17-20 | the encode test's call returns EINVAL from the shipped guard instead of 0 |
| Session.StructBytes | device/src/manikin_ble.c:118 | the block copied into RX is the 520-byte image of the record: the command as 4 little-endian bytes, then the 512 payload bytes, then payload_size as 4 little-endian bytes |
| Session.StructBytesRoundTrip | device/src/manikin_ble.c:118 | the block copied into RX gives back the record it was copied from |
| Session.StoreToRing | device/src/manikin_ble.c:6-16 | empty input gives -EINVAL with the ring unchanged; otherwise 0 exactly when all bytes fit, and then they are appended; -ENOSPC exactly when the data exceeds the free space, and then the fitting prefix is appended and the ring is full |
| Session.FetchFromRing | device/src/manikin_ble.c:18-28 | zero length gives -EINVAL with the ring unchanged; otherwise 0 exactly when len bytes are stored, and then the oldest len bytes are removed and returned; -ENODATA exactly when fewer than len bytes are stored, and then all of them are handed out and the ring is drained |
| Session.Init | device/src/manikin_ble.c:41-56 | returns 0 with both rings empty at full capacity, no subscribers, every slot zeroed and the session invariant established |
| Session.WaitForCommand | device/src/manikin_ble.c:58-76 | a null semaphore gives -EINVAL and a full table -ENOMEM, both unchanged; otherwise the slot at index count is set to {command, sem}, the count grows by one, other slots and rings are kept, and count at most MAX_SUBSCRIBERS is preserved |
| Session.Deinit | device/src/manikin_ble.c:143-153 | sets the count to 0 and touches neither ring nor the table slots; it keeps the session invariant |
| Session.BuildMessage | device/src/manikin_ble.c:83-89 | the built record has payload_size min(len, MAX_ATT_SIZE), payload equal to that prefix of the data, and zeros after it |
| Session.SendMessageAsWritten | device/src/manikin_ble.c:78-96 | zero length gives -EINVAL; any other data reaches the transport as EINVAL bytes of the uninitialised encode buffer, never -EIO |
| Session.SendMessage | device/src/manikin_ble.c:78-96 | with the corrected encoder, zero length gives -EINVAL, a payload too long for the buffer gives -EIO, and otherwise the transport receives exactly the frame layout of the command's low byte, the data and crc16 of the data, which for a valid command decodes back to command and data |
| Session.SendRoundTrip | device/src/manikin_ble.c:85-95 | data that fits as a frame is encoded successfully, and for a valid command the frame decodes to the command and the data |
| Session.OnBleMessage | device/src/manikin_ble.c:108-122 | decode failure gives -EINVAL with the handle unchanged; success gives 0 exactly when a record block fits, appending one block that carries the decoded message; otherwise -ENOSPC with the ring full, the bytes added being the first free-space bytes of the record image; nothing but RX changes |
| SessionProperties.StoreFetchFifo | device/src/manikin_ble.c:6-28 | bytes stored are fetched back in FIFO order: old contents first, then the new data |
| SessionProperties.FailedStoreIsPartial | device/src/manikin_ble.c:12-15 | a store larger than the free space returns -ENOSPC and still changes a ring that had room |
| SessionProperties.DuplicateRegistrationAccepted | device/src/manikin_ble.c:65-72 | registering one command twice succeeds twice and takes two slots |
| SessionProperties.RegistrationFillsInOrder | device/src/manikin_ble.c:65-72 | successive registrations fill the free slots in order, keep earlier slots, and stop at MAX_SUBSCRIBERS |
| SessionProperties.DeinitReopensTable | device/src/manikin_ble.c:143-153 | after deinit a registration succeeds again and lands in slot 0 |
| SessionProperties.ReceivedMessageCanBeFetched | device/src/manikin_ble.c:108-122 | on a fresh session an accepted window can be fetched back as one block carrying the decoded message |

## Findings

| source | as written | input that shows it | evidently intended | confidence | as-written member | corrected member |
|---|---|---|---|---|---|---|
| device/src/manikin_ble_serializer.c:102 | the guard tests the message pointer for being present instead of absent, so every real message is refused with EINVAL and nothing is written | the encode test's call: max_len 32, message {START, AA BB, size 2}, output buffer present | refuse only a missing message, a missing buffer or a buffer too small for the frame, then write the frame | high, not executed | Serializer.EncodeMsgAsWritten | Serializer.EncodeMsg |
| device/src/manikin_ble.c:91-95 | the encoder result is tested with `< 0`, but the serializer reports the positive EINVAL, so a failed encode is never mapped to -EIO; the transport receives 22 bytes of the uninitialised encode buffer | any call with non-empty data, for example command START with payload AA | an encoder failure becomes -EIO; on success the encoded frame is sent. The encode test expects 0 on success, while send_message uses the encoder's result as the frame length; the corrected members follow send_message | high, not executed | Session.SendMessageAsWritten | Session.SendMessage |

## Left out

- Locking: the mutexes around ring and table accesses exist for concurrency. Every operation is one atomic step.
- Ring library internals: the ring put and get are modelled by their documented effect on an abstract bounded FIFO (`RingBuffer.Put`, `RingBuffer.Get`).
- CRC16: the algorithm is not part of this model. The encoder takes it as a function parameter, and the decoder never checks it, as in the code.
- `peek_from_ring`: its body is empty, so it has no behaviour to model.
- `ring_is_empty`: a static helper that nothing calls.
- `manikin_ble_receive_message`: a stub that always returns -ENODATA.
- `manikin_ble_poll`: a no-op; its dispatch loop is commented out.
- `manikin_ble_send_ble`: the user-supplied transport. The send path stops at the `Transmit` step that hands it the bytes, and the transport's own result is returned unchanged.
- The header documents -ENOENT for `on_ble_message`, but the code never returns it, so the model does not either.
- Null-pointer checks on handle, data and output buffers: sequences are never null. Only the semaphore and the encoder's message argument and output buffer are modelled as nullable.
- Serializer.FindValidFrameOffset: the `(int)i` cast at device/src/manikin_ble_serializer.c:57 is not modelled as a narrowing. It narrows only for an offset above INT_MAX, which needs a window of more than 2 GiB.
- Session.OnBleMessage: takes the raw window as exactly MAX_ATT_SIZE bytes, because the code always decodes that many bytes from the pointer.
- Session.SendMessageAsWritten: the transport size parameter is one byte. Its value here, EINVAL, fits, so no truncation is modelled.
