# pyStream core in Dafny

pyStream sends a stream of `(metadata, data)` items over UDP and puts them back together on the
other side. This project models its three core parts and proves properties of them.

- **The fragmenter** is `stream_via_udp`. It numbers items from 1 and cuts each item's bytes into
  `packet_size` slices. Each slice goes out behind a 16-byte header: four little-endian u32
  fields, in the order metadata, data_index, packet_index, packet_count. It maps every failure
  to its own exception, except the `ValueError` from unpacking an item of the wrong length,
  which escapes as it is.
- **The reassembler** is `receive_stream_via_udp`. It keeps a table of 100 slots, each holding
  100 cells and two counters. It files each datagram under slot `data_index % 100`. When a
  slot's received count reaches its expected count, it yields the joined cells.
- **The validators** check the IPv4 address, the port and the packet size before any socket
  work is done.

Modules:

- `Exceptions` holds the exception hierarchy as one `Error` datatype, plus `Option`, `Result`
  and `Outcome`. `Outcome` is what a validator does: pass, or raise an error.
- `Bytes` holds bytes, Python's clamping slice and `b"".join`.
- `HeaderCodec` holds the `"<IIII"` struct format, as an explicit little-endian encoder and
  decoder.
- `Validation` holds the three validators and the strict "an int, not a bool" rule.
- `Sender` holds the fragmenter. `Stream` and `SendPackets` are methods whose loops follow the
  source's `while`/`for` loops. `Stream` is proved equal to the specification function
  `Transmit`, which gives the packets handed to `sendto` and the exception that ends the
  stream, if any. `SendPackets`, the inner loop over one item, is proved equal to
  `SendItem(ItemPackets(…))`, the part of `Transmit` for that item.
- `Receiver` holds the reassembler:
  - a value-level specification: `Receive` for one datagram, `RunFrom` for a whole stream;
  - class `Reassembler`, which owns an `array` of 100 `Slot` objects, each with a 100-cell
    `array`, and whose `Step` method is proved to follow `Receive`;
  - method `ReceiveStreamViaUdp`, which loops over the received datagrams.
- `RoundTrip` proves that the receiver delivers what the sender sent. `Scenarios` proves
  concrete arrival orders: out of order, slot reuse, duplicates.

The generator is a finite sequence of `Pull`s:

- a well-formed item;
- an item that cannot be unpacked (`TypeError`);
- an iterable of the wrong length (`ValueError`);
- a generator that raises.

The end of the sequence is `StopIteration`. Which `sendto` call fails, if any, is the parameter
`failAt`. The socket on the receiving side is a finite sequence of events:

- a datagram;
- a timeout;
- the end of the modelled input. A real receiver would wait for its 10-second timeout here.

Behaviour is modelled as the code is written:

- `data_index` does not wrap at 2^32. Once it reaches 2^32, the next item with data fails in
  `struct.pack` and the stream stops with `FailedToCreatePacketError`
  (`Sender.ItemPacketsFail`). An item with empty data packs nothing, so it does not fail and
  the stream goes on.
- On the receiver, a datagram shorter than 16 bytes makes `struct.unpack` raise `struct.error`.
  The stream ends there (`Receiver.ShortDatagramRaises`); the datagram is not skipped.
- `packet_index == 1` resets the two counters but leaves the cells alone. Line 38 of
  receiver.py only reads the cell list.
- `packet_index == 0` writes cell -1, which Python resolves to cell 99. Any `packet_index`
  above 100 raises `IndexError`.
- The completed frame is `cells[:packet_count]`, using the current datagram's `packet_count`.
- Every item is numbered, including one with empty data. Such an item sends nothing and is
  never delivered.
- An item that is an iterable of the wrong length makes the unpacking at sender.py:49 raise a
  `ValueError`. Line 50 catches only `TypeError`, so this `ValueError` reaches the caller
  unwrapped.
- `recvfrom(packet_size)` keeps only the first `packet_size` bytes of a longer datagram, as
  POSIX systems do. The round trip therefore needs the receiver's packet size to be at least the
  sender's plus 16.
- Two frames whose indexes differ by 100 share a slot. If their fragments interleave, the
  receiver can emit a frame that mixes the payloads of both (`Scenarios.SlotReuseMixesFrames`).

## Model

| member | source | states |
|---|---|---|
| Bytes.PySlice | src/pystream/core/sender.py:72 | `data[lo:hi]` clamps both bounds to the length. Its length is `min(hi, len) - lo`, or 0 once `lo` passes the end. |
| Bytes.Join | src/pystream/core/receiver.py:46 | `b"".join(parts)` starts with the first part, is that part alone when there is one, and is empty when every part is. |
| Bytes.JoinAppend | src/pystream/core/receiver.py:46 | `b"".join` of two concatenated lists of parts is the concatenation of the two joins. |
| Bytes.JoinSnoc | src/pystream/core/receiver.py:46 | Appending one part to a joined list appends its bytes. |
| HeaderCodec.EncodeLE | src/pystream/constants.py:12 | An n-byte little-endian encoding has exactly n bytes. |
| HeaderCodec.DecodeLE | src/pystream/constants.py:12 | Decoding n little-endian bytes gives a value below 256^n. |
| HeaderCodec.DecodeEncodeLE | src/pystream/constants.py:12 | Decoding the n-byte encoding of any v < 256^n gives v back. |
| HeaderCodec.EncodeDecodeLE | src/pystream/constants.py:12 | Encoding the decoded value gives back any byte string of the same width. |
| HeaderCodec.EncodeLEBytes | src/pystream/constants.py:12 | Byte j of the n-byte encoding of v is (v / 256^j) mod 256: the least significant byte comes first (`<`). |
| HeaderCodec.EncodeU32 | src/pystream/constants.py:12 | An `I` field encodes to 4 bytes. |
| HeaderCodec.DecodeU32 | src/pystream/constants.py:12 | 4 bytes decode to a value in [0, 2^32). |
| HeaderCodec.DecodeEncodeU32 | src/pystream/constants.py:12 | An `I` field survives encoding and decoding. |
| HeaderCodec.EncodeDecodeU32 | src/pystream/constants.py:12 | Any 4 bytes survive decoding and re-encoding. |
| HeaderCodec.Pack | src/pystream/core/sender.py:65-71 | `struct.pack("<IIII", ...)` succeeds exactly when all four fields are in [0, 2^32). Otherwise it raises `struct.error`. On success it gives 16 bytes (constants.py:13); where each byte comes from is `PackLayout`. |
| HeaderCodec.Unpack | src/pystream/core/receiver.py:32-34 | `struct.unpack` succeeds exactly on 16 bytes and raises `struct.error` otherwise. The fields it gives are all u32; which bytes make which field is `UnpackLayout`. |
| HeaderCodec.PackLayout | src/pystream/core/sender.py:65-71 | Bytes 0-3, 4-7, 8-11 and 12-15 of a packed header hold metadata, data_index, packet_index and packet_count, in that order, each least significant byte first. |
| HeaderCodec.UnpackLayout | src/pystream/core/receiver.py:32-34 | Unpacking 16 bytes reads the same layout: field f is b[4f] + 256·b[4f+1] + 65536·b[4f+2] + 16777216·b[4f+3]. |
| HeaderCodec.DecodeWord | src/pystream/core/receiver.py:32-34 | Decoding a 4-byte group gives b0 + 256·b1 + 65536·b2 + 16777216·b3. |
| HeaderCodec.UnpackPack | src/pystream/core/receiver.py:32-34 | Unpacking a packed header gives back the same four fields. |
| HeaderCodec.PackUnpack | src/pystream/core/receiver.py:32-34 | Packing the fields unpacked from 16 bytes gives back those bytes. |
| HeaderCodec.SplitPacket | src/pystream/core/receiver.py:32-42 | Header plus payload has length 16 + payload. The receiver's `byte[:16]` unpacks to the header and `byte[16:]` is the payload. |
| Validation.IsExactInt | src/pystream/utils/validation.py:12-16 | `type(value) is int` holds for every int and for no bool. |
| Validation.ValidatePort | src/pystream/utils/validation.py:70-75 | Passes exactly for an exact int in [0, 65535]. Every failure is `InvalidPortError`. |
| Validation.ValidatePacketSize | src/pystream/utils/validation.py:96-104 | Passes exactly for an exact int v with 0 < v <= 65507 - 16. Every failure is `InvalidPacketSizeError`. |
| Validation.ValidateIPv4 | src/pystream/utils/validation.py:41-50 | Passes exactly for a string that inet_pton accepts as a dotted quad. A non-string, or a string it rejects, raises `InvalidIPAddressError`. |
| Validation.Split | src/pystream/utils/validation.py:42 | Splitting at dots gives at least one part, and no part contains a dot. |
| Validation.ParseIPv4 | src/pystream/utils/validation.py:42 | An accepted address has four octets, each at most 255. |
| Validation.DecimalValueOfDecimal | src/pystream/utils/validation.py:42 | The decimal spelling of n reads back as n. |
| Validation.DecimalHasNoLeadingZero | src/pystream/utils/validation.py:42 | A decimal spelling has no leading zero. |
| Validation.DecimalOfDecimalValue | src/pystream/utils/validation.py:42 | A digit string without a leading zero is the decimal spelling of its value. |
| Validation.DecimalIsOctet | src/pystream/utils/validation.py:42 | Every n <= 255 is spelt as an octet that inet_pton accepts. |
| Validation.SplitNoDot | src/pystream/utils/validation.py:42 | A string with no dot splits into itself alone. |
| Validation.SplitDot | src/pystream/utils/validation.py:42 | Splitting `x.y`, where x has no dot, gives x followed by the parts of y. |
| Validation.JoinDotsSplit | src/pystream/utils/validation.py:42 | Re-joining the parts with dots gives back the string. |
| Validation.ParseFormat | src/pystream/utils/validation.py:42 | Every quad of octets <= 255, written in dotted-decimal form, is accepted and parses back to itself. |
| Validation.SplitFormat | src/pystream/utils/validation.py:42 | A formatted quad splits into its four decimal spellings. |
| Validation.FormatParse | src/pystream/utils/validation.py:42 | Every accepted address is the canonical dotted-decimal spelling of the quad it parses to. |
| Validation.IPv4AcceptsExactlyDottedQuads | src/pystream/utils/validation.py:41-50 | A string passes if and only if it is the dotted-decimal spelling of some quad of octets <= 255. |
| Validation.AcceptedCharacters | src/pystream/utils/validation.py:42 | An accepted address contains only digits and dots. |
| Validation.BoolsAreNotInts | src/pystream/utils/validation.py:12-16 | `True` and `False` are rejected by both numeric validators, with their own errors. |
| Validation.PortVectors | tests/test_utils/test_validation.py:25-39 | -1 and 65536 are rejected. 0, 100, 1000, 10000 and 65535 are accepted. `""`, 3.14, `True` and `None` are rejected. |
| Validation.PacketSizeVectors | tests/test_utils/test_validation.py:42-56 | -1, 0, 65507 and 65492 are rejected. 1, 50000 and 65491 are accepted. `""`, `None` and 3.14 are rejected. |
| Validation.IPv4TypeVectors | tests/test_utils/test_validation.py:8-11 | `None`, 0, `True` and 3.14 are rejected as addresses. |
| Validation.IPv4AcceptsTypicalAddress | tests/test_utils/test_validation.py:20-22 | "192.168.0.1" is accepted. |
| Validation.IPv4AcceptsRepeatedOctets | tests/test_utils/test_validation.py:20-22 | "8.8.8.8" is accepted. |
| Validation.IPv4AcceptsTopOctet | tests/test_utils/test_validation.py:20-22 | "32.32.32.255" is accepted. |
| Validation.IPv4RejectsForeignCharacters | tests/test_utils/test_validation.py:14-17 | "abc", "f03rf" and "-1.-1.-1.-1" are rejected. |
| Validation.IPv4RejectsThreeGroups | tests/test_utils/test_validation.py:14-17 | "00.1.3" is rejected. |
| Validation.IPv4RejectsLargeOctet | tests/test_utils/test_validation.py:14-17 | "300.1.1.1" is rejected. |
| Sender.Range | src/pystream/core/sender.py:60 | `range(start, stop, step)` is empty exactly when stop <= start. Its k-th offset is start + k*step and below stop, and its last offset is within one step of stop. |
| Sender.Fragments | src/pystream/core/sender.py:60-72 | There is one slice per offset of the range, and each slice is non-empty and at most `packet_size` bytes. |
| Sender.RangeLength | src/pystream/core/sender.py:60-61 | `packet_count` is ceil(len/size), and it is 0 exactly for empty data. |
| Sender.FragmentCount | src/pystream/core/sender.py:60-61 | An item has ceil(len(data)/packet_size) fragments, and none when its data is empty. |
| Sender.FragmentLengths | src/pystream/core/sender.py:60-72 | Every fragment but the last has `packet_size` bytes. The last has len - (count-1)*size. |
| Sender.FragmentAt | src/pystream/core/sender.py:60-72 | Fragment k is `data[k*size : min(k*size + size, len)]`, and it starts inside the data. |
| Sender.FragmentPrefix | src/pystream/core/sender.py:60-72 | The first j fragments, joined, are the first min(j*size, len) bytes of the data. |
| Sender.FragmentsCover | src/pystream/core/sender.py:60-72 | The fragments, joined in order, give back the data exactly. |
| Sender.FragmentSlice | src/pystream/core/sender.py:62-72 | The fragment at the k-th offset of the range is the slice that line 72 takes. |
| Sender.ItemPackets | src/pystream/core/sender.py:60-79 | An item either fails with `FailedToCreatePacketError`, which needs non-empty data, or gives one packet per fragment, each of 16 header bytes plus 1 to `packet_size` payload bytes. |
| Sender.ItemPacketsFail | src/pystream/core/sender.py:62-79 | Packing an item fails exactly when it has data and one of metadata, data_index and packet_count is outside [0, 2^32). The failure is `FailedToCreatePacketError`. |
| Sender.ItemPacketLayout | src/pystream/core/sender.py:62-73 | Packet k is 16 header bytes plus fragment k. Its header unpacks to (metadata, data_index, k+1, packet_count). |
| Sender.PacketStep | src/pystream/core/sender.py:62-79 | At the k-th offset, a header that fails to pack fails the item with `FailedToCreatePacketError`. A header that packs is followed by the k-th slice as packet k. |
| Sender.PacketAt | src/pystream/core/sender.py:62-79 | The same as `PacketStep`, stated in terms of fragment k. |
| Sender.PacketsFitDatagram | src/pystream/core/sender.py:64-73 | With a validated packet size, every packet fits in one UDP datagram of at most 65507 bytes (constants.py:17). |
| Sender.PullPackets | src/pystream/core/sender.py:39-79 | A generator that raises, or an item that cannot be unpacked, gives `FailedToDataGenerationError`. An iterable of the wrong length gives `ValueError`. A well-formed item can only fail with `FailedToCreatePacketError`. |
| Sender.Plan | src/pystream/core/sender.py:38-88 | There is one entry per pulled item. |
| Sender.PlanNumbering | src/pystream/core/sender.py:37-88 | Item k is packed with data_index = first + k. Every item counts, including empty ones. |
| Sender.Shift | src/pystream/core/sender.py:81-86 | After n successful `sendto` calls, the failing call is n calls closer, and there is still one exactly when there was one before. |
| Sender.SendItem | src/pystream/core/sender.py:81-86 | What is sent is a prefix of the item's packets. The item ends without error exactly when it packed and the failing call, if any, lies beyond its packets. When the failing call `failAt` falls within the item's packets, exactly the first `failAt` packets are sent and `FailedToSendPacketError` is raised. Conversely, a `FailedToSendPacketError` on a packed item means exactly `failAt` packets were sent. |
| Sender.Send | src/pystream/core/sender.py:38-88 | Carrying out a plan never makes more than `failAt` successful `sendto` calls. |
| Sender.Transmit | src/pystream/core/sender.py:37-88 | An empty generator sends nothing and raises nothing. At most `failAt` packets are sent, and a `FailedToSendPacketError` ends the stream only after exactly `failAt` packets. The converse, that a failing call within the stream raises it, is `Sender.TransmitFailureCutsShort`. |
| Sender.SendFailsAtFailAt | src/pystream/core/sender.py:81-86 | When no item of a plan carries a send error of its own, a `FailedToSendPacketError` ends the stream only after exactly `failAt` packets (one direction; `Sender.SendFailureCutsShort` gives the other). |
| Sender.SendItemParts | src/pystream/core/sender.py:81-86 | An item that failed to pack sends nothing. Otherwise a prefix of its packets is sent, and all of them when no error occurred. A `FailedToSendPacketError` on a packed item means the failing call was the `failAt`-th, and a `failAt` within the item's packets sends exactly the first `failAt` of them and raises `FailedToSendPacketError`. |
| Sender.SendFailureCutsShort | src/pystream/core/sender.py:81-86 | Against the failure-free run of the same plan: if call n falls within the packets it sends, the run with call n failing sends exactly its first n packets and raises `FailedToSendPacketError`; otherwise the two runs are equal. |
| Sender.TransmitFailureCutsShort | src/pystream/core/sender.py:37-88 | For any generator and packet size, the stream whose `sendto` call n raises is the failure-free stream cut after n packets with `FailedToSendPacketError`, or the failure-free stream itself when that makes at most n calls. |
| Sender.SendCompletes | src/pystream/core/sender.py:38-88 | A stream that ends without error packed every item, sent each item's packets in order, and made at most `failAt` sends. |
| Sender.TransmitStep | src/pystream/core/sender.py:38-88 | A stream is the first item's transmission: on its error it stops there, otherwise the rest of the stream follows with the next data_index. |
| Sender.PullFails | src/pystream/core/sender.py:39-58 | A generator that raises, or an item that cannot be unpacked, ends the stream with `FailedToDataGenerationError` and nothing sent. An iterable of the wrong length ends it with a raw `ValueError`. |
| Sender.PullSends | src/pystream/core/sender.py:60-88 | After one item's packets, the stream either stops with that item's error or continues with the remaining items, numbered from the next data_index. |
| Sender.SendPackets | src/pystream/core/sender.py:60-86 | The inner `for` loop sends exactly the item's specified transmission. This is all packets in order, or nothing if packing fails, or a prefix up to the failing `sendto`. |
| Sender.Stream | src/pystream/core/sender.py:37-88 | The `while` loop over the generator produces exactly `Transmit`: the sent packets and the exception that ends the stream. |
| Sender.StreamViaUdp | src/pystream/core/sender.py:21-88 | Validation runs first, in the order ip, port, packet size. Each failure raises its own error before anything is sent. Otherwise the result is the stream's transmission. |
| Receiver.EmptyCells | src/pystream/core/receiver.py:18 | `[b""] * 100` is 100 empty cells. |
| Receiver.InitialTable | src/pystream/core/receiver.py:18 | `db` starts as 100 slots of 100 empty cells, with both counters 0. |
| Receiver.CellIndex | src/pystream/core/receiver.py:42 | `cells[packet_index - 1]` is cell packet_index-1 for 1..100, and cell 99 for 0. It raises `IndexError` above 100. |
| Receiver.HeaderOfPacks | src/pystream/core/receiver.py:32-34 | The header of a datagram is the u32 quadruple whose packing is its first 16 bytes. |
| Receiver.Receive | src/pystream/core/receiver.py:32-47 | One datagram keeps the table at 100x100. A datagram under 16 bytes raises `struct.error` and changes nothing. Only slot `data_index % 100` can change, and a raised error changes nothing. |
| Receiver.FirstFragmentResets | src/pystream/core/receiver.py:37-43 | Fragment 1 sets received to 1 and expected to packet_count. It stores its payload in cell 0 and leaves the other cells as they were. |
| Receiver.LaterFragmentAccumulates | src/pystream/core/receiver.py:42-43 | Any other in-range fragment stores its payload in its cell (index 0 lands in cell 99) and adds exactly 1 to received. |
| Receiver.IndexBeyondCellsRaises | src/pystream/core/receiver.py:42 | A packet_index above 100 raises `IndexError` and leaves the table unchanged. |
| Receiver.CompletesWhenCountsMeet | src/pystream/core/receiver.py:45-47 | A frame is emitted exactly when received equals expected. It is (data_index, join of `cells[:packet_count]`). |
| Receiver.Truncate | src/pystream/core/receiver.py:27 | `recvfrom(bufsize)` gives the prefix of the datagram of length min(len, bufsize): the whole datagram when it fits. |
| Receiver.RunFrom | src/pystream/core/receiver.py:25-47 | The receive loop keeps the table at 100 slots of 100 cells. |
| Receiver.RunDatagram | src/pystream/core/receiver.py:26-47 | A non-empty datagram is received after truncation, and the loop goes on with the rest. |
| Receiver.RunAppend | src/pystream/core/receiver.py:25-47 | Receiving two event sequences in a row is receiving the first, then the second from the table it left, unless the first already ended the stream. |
| Receiver.ShortDatagramRaises | src/pystream/core/receiver.py:32-34 | A non-empty datagram shorter than 16 bytes ends the stream with `struct.error`. |
| Receiver.EndOfStream | src/pystream/core/receiver.py:26-31 | A timeout, or an empty datagram, ends the stream normally with nothing more emitted. |
| Receiver.AsEvents | src/pystream/core/receiver.py:27 | Sent packets arrive as datagrams, one for one, in order. |
| Receiver.ReceiveRest | src/pystream/core/receiver.py:37-47 | Once a slot holds the first k fragments of a frame, the remaining fragments, in order, emit the frame and leave the slot with both counts equal to the fragment count. If the frame has more than 100 fragments, they raise `IndexError`. |
| Receiver.ReceiveItem | src/pystream/core/receiver.py:37-47 | One frame's fragments, in order and complete, emit (data_index, joined fragments) if there are at most 100 of them, leaving received = expected = their number in the slot, and raise `IndexError` otherwise. |
| Receiver.ReceivePartial | src/pystream/core/receiver.py:37-45 | From any table, the first j of n <= 100 fragments of a frame (1 <= j < n), in order, emit nothing and leave its slot holding those j fragments, counting j of n. |
| Receiver.PartialStep | src/pystream/core/receiver.py:37-45 | Fragment k + 1 of an in-order frame, not the last, emits nothing and extends the slot's held fragments from k to k + 1. |
| Receiver.RunKeepsOtherSlots | src/pystream/core/receiver.py:35-47 | A stream of datagrams, each for another slot, leaves a given slot exactly as it was, whether or not it ends in an exception. |
| Receiver.KeepOtherSlot | src/pystream/core/receiver.py:35-47 | One datagram for another slot leaves a given slot as it was, and the run after it continues from its table unless it raised. |
| Receiver.Reassembler.TableWellFormed | src/pystream/core/receiver.py:18 | The object table always holds 100 slots of 100 cells. |
| Receiver.Slot.State | src/pystream/core/receiver.py:18 | The value view of one `db` entry: its cells, in order, and its two counters. |
| Receiver.Slot.constructor | src/pystream/core/receiver.py:18 | A new slot has 100 empty cells and both counters 0. |
| Receiver.Reassembler.constructor | src/pystream/core/receiver.py:18 | A new reassembler holds the initial `db`. |
| Receiver.Reassembler.Step | src/pystream/core/receiver.py:32-47 | Handling one datagram updates the slot array in place exactly as `Receive` says, and the result is what `Receive` emits. |
| Receiver.Reassemble | src/pystream/core/receiver.py:25-47 | The receive loop over the event sequence emits exactly the frames of `RunFrom` from the initial table, and raises the error that stopped it, if any. |
| Receiver.ReceiveStreamViaUdp | src/pystream/core/receiver.py:13-47 | Validation runs first, in the order ip, port, packet size. Each failure raises its own error before anything is received. Otherwise the frames and the error are those of the receive loop, with packet_size as the `recvfrom` buffer. |
| RoundTrip.FragmentBound | src/pystream/core/sender.py:72 | No fragment is longer than `packet_size`. |
| RoundTrip.FragmentsFitCells | src/pystream/core/receiver.py:18-42 | An item has at most 100 fragments exactly when its data is at most 100*packet_size bytes. |
| RoundTrip.ItemCarries | src/pystream/core/sender.py:62-73 | Each packet of an item carries data_index, packet_index k+1 and packet_count, with fragment k as payload, and fits the receiver's buffer. |
| RoundTrip.ItemRoundTrip | src/pystream/core/receiver.py:37-47 | From any table, one item's packets arriving in order emit (data_index, data) when it has at most 100 fragments. Otherwise they raise `IndexError`. |
| RoundTrip.DeliverableItemPacks | src/pystream/core/sender.py:60-79 | An item with u32 header fields and at most 100 fragments packs, and its packets deliver exactly its data (nothing for empty data). |
| RoundTrip.SendWithoutFailure | src/pystream/core/sender.py:81-86 | With no failing `sendto`, every packed item's packets are sent in order. |
| RoundTrip.DeliverablePacks | src/pystream/core/sender.py:62-79 | An item with u32 fields never fails to pack. |
| RoundTrip.PlanPacks | src/pystream/core/sender.py:37-88 | If every item is deliverable, no item fails to pack. |
| RoundTrip.ReceivePlan | src/pystream/core/receiver.py:25-47 | All the packets of a run of deliverable items, received in order, emit each non-empty item once, in order, under its data_index. |
| RoundTrip.ComposeRuns | src/pystream/core/receiver.py:25-47 | Datagrams received in a row compose: the frames of the first part come before those of the second. |
| RoundTrip.StreamRoundTrip | src/pystream/core/sender.py:37-88 | Whatever the sender transmits without loss, reordering or timeout, the receiver emits as (data_index, data) for every non-empty item, in order, with data_index numbered from 1. |
| RoundTrip.TransmitOne | src/pystream/core/sender.py:37-88 | A one-item generator sends exactly that item's packets, with data_index 1. |
| RoundTrip.ItemHeaders | src/pystream/core/sender.py:62-71 | Every packet of an item carries the same metadata, data_index and packet_count. Their packet_index runs 1..packet_count in send order. |
| RoundTrip.OneItemStream | src/pystream/core/receiver.py:37-47 | A single item of at most 100 fragments goes out as ceil(len/size) packets with headers (metadata, 1, k+1, count) and comes back as (1, data). |
| RoundTrip.HundredFragmentStream | src/pystream/core/receiver.py:37-47 | 100000 bytes at packet size 1008 become exactly 100 packets, and a receiver with a 1024-byte buffer reassembles them. |
| Scenarios.ArriveQuietly | src/pystream/core/receiver.py:25-47 | A datagram that completes nothing leaves the loop running on the updated table. |
| Scenarios.ArriveCompleting | src/pystream/core/receiver.py:45-47 | A completing datagram yields its frame before the loop goes on. |
| Scenarios.Begin | src/pystream/core/receiver.py:37-43 | The first fragment of a multi-fragment frame starts the slot with one fragment held. |
| Scenarios.Single | src/pystream/core/receiver.py:37-47 | A one-fragment frame is emitted at once, whatever the slot held before. |
| Scenarios.Continue | src/pystream/core/receiver.py:42-43 | A middle fragment for a slot holding k fragments makes it hold k+1. |
| Scenarios.Finish | src/pystream/core/receiver.py:42-47 | The last fragment completes the frame, and the frame emitted is the joined fragments. |
| Scenarios.Overshoot | src/pystream/core/receiver.py:43-45 | A repeated later fragment after completion pushes received past expected, so nothing is emitted. |
| Scenarios.Elsewhere | src/pystream/core/receiver.py:35 | A datagram for another slot does not disturb a partly received frame. |
| Scenarios.RunBegin | src/pystream/core/receiver.py:37-43 | In a stream, a first fragment changes only its own slot, and the loop goes on. |
| Scenarios.RunSingle | src/pystream/core/receiver.py:37-47 | In a stream, a one-fragment frame is yielded and only its slot changes. |
| Scenarios.RunContinue | src/pystream/core/receiver.py:42-43 | In a stream, a middle fragment changes only its own slot, and the loop goes on. |
| Scenarios.RunFinish | src/pystream/core/receiver.py:42-47 | In a stream, the last fragment yields the joined frame, and only its slot changes. |
| Scenarios.RunOvershoot | src/pystream/core/receiver.py:43-45 | In a stream, a fragment past completion yields nothing. |
| Scenarios.OutOfOrderCompletion | src/pystream/core/receiver.py:35-47 | From any table, for frames da and db in different slots with 1 to 100 fragments each: all but the last fragment of da, then all of db, then da's last fragment emit exactly [(db, joined fb), (da, joined fa)], so frames come out in completion order, not data_index order. |
| Scenarios.OtherFrameBetween | src/pystream/core/receiver.py:35-47 | From any table, all but the last fragment of da, then all of db in another slot, emit exactly db's frame and leave da's slot holding da's fragments so far. |
| Scenarios.LastFragmentCompletes | src/pystream/core/receiver.py:42-47 | When a slot holds all but the last fragment of a frame (or for a one-fragment frame, from any table), the last fragment emits exactly that frame. |
| Scenarios.SlotReuseDropsEarlierFrame | src/pystream/core/receiver.py:35-40 | Frame d has n <= 100 fragments, and j of them (1 <= j < n) have arrived when all m <= 100 fragments of frame d+100 arrive, followed by the rest of d. Exactly one frame is emitted, (d+100, its joined fragments); frame d never is. |
| Scenarios.LaterFrameTakesSlot | src/pystream/core/receiver.py:35-40 | From any table, all m <= 100 fragments of frame d+100 followed by any number of non-first fragments of frame d emit exactly (d+100, its joined fragments). |
| Scenarios.StrayFragments | src/pystream/core/receiver.py:42-45 | Once a slot's received count has reached its expected count, non-first fragments for it only push received further past expected, so none completes a frame. |
| Scenarios.SlotReuseMixesFrames | src/pystream/core/receiver.py:35-46 | Interleaving frames d and d+100 emits one frame under index d, made from d+100's first payload and d's second. |
| Scenarios.DuplicateMasksLoss | src/pystream/core/receiver.py:37-46 | Two of three fragments, with the second duplicated, complete the frame. The third cell is filled with whatever the slot held there before. |
| Scenarios.RunBeginKeeping | src/pystream/core/receiver.py:37-42 | A first fragment leaves an unrelated stale cell of its slot untouched. |
| Scenarios.RunContinueKeeping | src/pystream/core/receiver.py:42-43 | A middle fragment leaves an unrelated stale cell of its slot untouched. |
| Scenarios.RunRepeat | src/pystream/core/receiver.py:42-47 | A duplicated second fragment counts as the third, so it completes the frame with the stale third cell. |
| Scenarios.OvertakenFirstFragment | src/pystream/core/receiver.py:37-45 | On a fresh table, fragment 2 of a two-fragment frame arriving ahead of fragment 1 means the frame is never emitted. |

## Left out

- Sockets are left out: creation, `bind`, `setblocking`, `settimeout`, `sendto`, `recvfrom`. Sending is appending to a sequence of packets. Receiving is reading from a sequence of events, and the timeout is an event.
- `sleep(0.001)` at sender.py:74 is left out. It only paces the sender and changes no result.
- The generator is a finite sequence. Lazy and infinite generators are left out, and so is the moment at which a generator raises relative to earlier sends. Only the order of results is kept.
- `socket.inet_pton` is foreign code. It is modelled by the dotted-quad grammar that it accepts for `AF_INET`: four dot-separated decimal groups, each at most 255, with no leading zero. The `ValueError` it raises for a string with an embedded NUL is not modelled.
- Python values are modelled only by the small sum type `PyValue` (int, bool, float, str, None). The receiver's packet size is validated but not checked against the sender's.
- Exception messages are left out: the f-strings, `sys.getsizeof` and the iterable-length hint.
- Exception chaining (`from e`) is left out, and so is the class tree above the leaf errors (`PyStreamBaseException`, `ValidationError`, `StreamError`). No routine of the core catches or tests those base classes.
- `metadata` is unpacked by the receiver and discarded (receiver.py:32). It is therefore not part of the delivered frames (`RoundTrip.Delivered`).
- `Receiver.Truncate` assumes POSIX `recvfrom`, which drops the tail of a datagram longer than the buffer. Windows raises instead (WSAEMSGSIZE); that is not modelled.
- A non-int `metadata` makes `struct.pack` raise as an out-of-range value would. The model takes `metadata` as an integer, so only the out-of-range case is covered.
- src/pystream/sender.py, demo_sender.py and demo_receiver.py are not part of this model. They are the legacy sender and the OpenCV demos.
