# A verified model of linux_bt_proxy

The proxy reads Bluetooth LE advertisements from BlueZ and forwards them to Home Assistant clients over
the ESPHome plaintext protocol. This project models the parts of it that carry state or arithmetic, from
the bytes a client sends to the bytes it gets back, and from device properties to advertisement bytes:

| file | what it models |
|---|---|
| `Words.dfy` | machine words; `&`, `\|` and shifts defined bit by bit, with the arithmetic they amount to |
| `Varint.dfy` | base-128 varints on 64-bit words (`src/proto.rs`) |
| `Framing.dfy` | frame encoding and the incremental extraction of frames from a growing buffer (`src/proto.rs`, `src/handlers.rs`) |
| `Session.dfy` | one client's session as a state machine, under arbitrary chunking of its byte stream |
| `History.dfy` | flags and output of a whole session as functions of what it has handled |
| `Chunking.dfy` | when cutting the byte stream into reads matters, said of the bytes and cut positions alone |
| `Desync.dfy` | a session that has lost the frame boundary, and when it is aborted |
| `Client.dfy` | `handle_client` and its handlers as loops over mutable objects, proved to follow `Session.dfy` |
| `Fanout.dfy` | many clients on one broadcast channel, over all interleavings |
| `TestClient.dfy` | the independent implementation of the protocol in `test_client.py` |
| `Uuid.dfy`, `Mac.dfy` | UUID and MAC text |
| `AdData.dfy`, `Advertisement.dfy` | AD structures, their section 11 parser, and the raw advertisement encoder (`src/raw_adv.rs`) |
| `Legacy.dfy` | the legacy advertisement (`src/ble.rs`) and its agreement with the raw one |
| `Supervisor.dfy` | the restart loop with capped exponential backoff (`src/ble.rs`) |

Conventions. `usize` is 64 bits and wraps, as in the release profile; lengths are bounded by the words
that hold them. A Rust `String` is its UTF-8 bytes. An abort (a `BytesMut` split out of
bounds, a string sliced inside a character) is an explicit outcome, not a precondition. What the program cannot see is a parameter: protobuf
parsing and serialisation, whether the peer address can be read, how many bytes the socket accepts before
a write fails, and the order in which reads and advertisements arrive.

## What the model shows about the code

* The completeness guard of `next_message` (src/proto.rs:61), commented as making sure the entire message
  is there, does not count the type varint, while the split at src/proto.rs:70 does. `AbortExactly` and
  `AbortInMemory` say exactly when the split goes out of bounds; `AbortExample` is the three-byte buffer
  `00 01 01`. The independence from chunking that a stream protocol promises is therefore proved twice:
  without condition for the guard that counts the type (`ChunkingIrrelevant`), and for the guard as
  written as an equivalence. `AsWrittenInBytes` states its condition on the bytes read (the runs agree if and
  only if no read of the running session leaves their residue in the short window), `EveryEnvironment`
  removes the environment from it, and `CutFrameAborts`, `SafeCuts` and `BadCutSmallTypes` say which cut
  positions in a client's frames are the bad ones.
* A session that lost the frame boundary reads nothing more and is otherwise undisturbed
  (`HopelessAbsorbing`), except that a length near 2^64 overflows the guard's sum, and the session then aborts
  as soon as the type follows (`AbortsOnOverflow`; `OverflowExample` is such a stream).
* `parse_uuid` slices a string at byte offsets (src/raw_adv.rs:24), which aborts inside a multi-byte
  character. `AbortsOnCrossing` says exactly when, `AbortingUuid` is a 32-byte example, and the abort is an
  outcome of every caller up to `BuildAdvertisement`.
* The AD length octet wraps (src/raw_adv.rs:41). The round trip holds if and only if the properties are
  within the limits `InLimits` spells out (`RawRoundTrip`); `LongNameLost` is a name one byte over.
* `test_client.py` reads the zero byte of a frame as a varint, so it accepts `80 00` where the proxy never
  recovers (`LongPreamble`); `PreambleIsTheDifference` and `ReceiveAgrees` say exactly when the two
  agree on a complete message. Its `read_varint` returns the value alone, not the pair its docstring announces.

## Model

| member | source | states |
|---|---|---|
| `Words.Bitwise` | src/proto.rs:18-45 | Every bit of an AND and of an OR is that of the operands' bits. |
| `Varint.DecodeVarint` | src/proto.rs:15-30 | The decoding loop, bit operations included, returns the classification of its input given by `Decode`. |
| `Varint.EncodeVarint` | src/proto.rs:32-46 | The encoding loop produces the canonical varint, and terminates. |
| `Varint.DecodeCharacterised` | src/proto.rs:15-30 | Every byte string is exactly one of Ok, TooLong, Incomplete: Ok takes the first terminated group of at most ten bytes and its base-128 sum mod 2^64; TooLong is ten continuation bytes; Incomplete at most nine, all continuations. |
| `Varint.DecodeStep` | src/proto.rs:18-24 | OR-ing in a shifted group adds it, up to the bits lost off the top of the word, and nothing is lost before the tenth group. |
| `Varint.DecodeStable` | src/proto.rs:15-30 | Ok and TooLong are not changed by any bytes that follow. |
| `Varint.VarintRoundTrip` | src/proto.rs:15-46 | Decoding an encoded u64 in front of any tail gives the value and the length of its encoding. |
| `Varint.EncodeBand` | src/proto.rs:32-46 | The encoding has k bytes exactly for values in the k-th power-of-128 band. |
| `Varint.EncodeDigits` | src/proto.rs:32-46 | Byte i of an encoding is the i-th base-128 digit, with the high bit on all but the last. |
| `Varint.EncodeFits` | src/proto.rs:32-46 | At most ten bytes for a u64, five for a u32. |
| `Varint.EncodeMinimal` | src/proto.rs:15-46 | No byte string that decodes to a value is shorter than its encoding. |
| `Varint.CanonicalVarint` | src/proto.rs:15-46 | Re-encoding a decoded value gives the same bytes if and only if the last group is not redundant and no bits were lost. |
| `Framing.ExtractMessage` | src/proto.rs:48-74 | The in-place extraction: message and remaining buffer, buffer untouched, or abort, as `NextMessage` says. |
| `Framing.AbortExactly` | src/proto.rs:60-71 | The extraction as written aborts exactly in the short window and otherwise equals the extraction that counts the type bytes, which there yields nothing. |
| `Framing.AbortInMemory` | src/proto.rs:60-71 | For a buffer that fits in memory: abort iff both varints decode and the length overflows the sum or 1+len_size+length <= size < 1+len_size+type_size+length. |
| `Framing.AbortExample` | src/proto.rs:60-71 | The buffer 00 01 01 aborts; with its fourth byte it is a message. |
| `Framing.FrameStable` | src/proto.rs:48-74 | An extractable message is extracted unchanged after any further read, which is left behind it; every extraction removes at least three bytes. |
| `Framing.DrainConfluent` | src/server.rs:53-80 | Draining a, then its residue followed by b, gives the messages and residue of draining a then b at once. |
| `Framing.StuckExactly` | src/proto.rs:50-57 | No later bytes ever complete another message if and only if the first byte is not zero, a varint is too long, or the announced frame exceeds the address space. |
| `Framing.EncodeResponse` | src/handlers.rs:58-70 | The bytes written for a message are the frame of proto/api.proto:79-83: zero byte, length varint, type varint, body. |
| `Framing.FrameRoundTrip` | src/handlers.rs:58-70 | Extraction from an encoded frame followed by anything returns type and body and leaves exactly the rest, for every u32 type. |
| `Framing.SmallFrame` | proto/api.proto:79-83 | A small frame byte for byte: zero, length, type, body, written and extracted so. |
| `Framing.ConcatDrains` | src/server.rs:53-80 | Frames one after the other drain to exactly their list. |
| `Framing.FramePrefixWaits` | src/proto.rs:60-63 | A frame cut short yields nothing and stays in the buffer whole. |
| `Framing.FrameShortWindow` | src/proto.rs:60-71 | The cut positions inside an encoded frame at which the guard as written aborts. |
| `Framing.FrameShortWindowSmallType` | src/proto.rs:60-71 | For a one-byte type that is exactly one byte short of a non-empty body. |
| `Framing.ReserveSuffices` | src/handlers.rs:61 | The reserved 1+5+5+size bytes hold the frame for every type if and only if size < 2^35. |
| `Session.FromFlagsChoosesOne` | src/handlers.rs:50-55 | A subscription turns on exactly one form, by the low bit of its flags. |
| `Session.WriteTakes` | src/handlers.rs:84-87 | A write appends all the socket has room for, fails exactly if that is not everything or the write side is shut, and then writes nothing. |
| `Session.RequestsAnswered` | src/server.rs:54-79 | One message, in the numbers of proto/api.proto: 1, 3, 5, 7, 9, 11, 80 are answered by 2, 4, 6, 8, 10, 19, 81 or end the session; only 0x42 and 0x57 decide flags, and how; only 5 shuts the write side; any other type writes nothing. |
| `Session.ServeIsDrain` | src/server.rs:52-81 | With the guard that counts the type, the read arm drains the buffer and handles the messages in order until one ends the session. |
| `Session.ServeAsWritten` | src/server.rs:52-81 | With the guard as written, the same messages are handled, and then the session aborts if the residue is in the short window. |
| `Session.ReadSplits` | src/server.rs:44-87 | One read of two pieces equals two reads. |
| `Session.ChunkingIrrelevant` | src/server.rs:44-110 | For every event trace the session equals the session fed the same bytes one at a time: output, flags, buffer and termination. |
| `Session.SameBytesSameRun` | src/server.rs:44-110 | Traces with the same bytes in the same places between the other events end alike. |
| `Session.AsWrittenExactly` | src/server.rs:44-110 | The session as written equals the refined one on a trace if and only if no read leaves the running session's buffer in the short window; otherwise it aborts at the first such read with everything before it done. |
| `Session.OneByteShortAborts` | src/server.rs:46-81 | A first read one byte short of a frame with a body aborts the session; the same bytes in one read are served. |
| `Session.BufferIsResidue` | src/server.rs:46-81 | The buffer of a running session is the undrained residue of all bytes read, whatever else happened. |
| `Chunking.HitsInBytes` | src/server.rs:44-81 | A session hits the short window if and only if some read is made by a session that runs on and leaves the residue of all bytes so far in that window. |
| `Chunking.AsWrittenInBytes` | src/server.rs:44-110 | Both guards run alike on a trace if and only if every read that leaves the residue of the bytes so far in the short window comes after the session has ended. |
| `Chunking.EveryEnvironment` | src/server.rs:44-110 | They run alike in every environment if and only if no such read is preceded only by events a session can survive: nothing that ends it, and no request to answer after a DisconnectRequest. |
| `Chunking.ShortAtCut` | src/proto.rs:60-71 | The bytes of whole frames cut at position p leave a residue in the short window if and only if p lies in the last type-size bytes of one of the frames, behind its complete type varint. |
| `Chunking.CutFrameAborts` | src/server.rs:46-81 | A client that sends whole frames, cut anywhere: the program follows the refined session if and only if no read of the running session ends at such a position, and aborts otherwise. |
| `Chunking.SafeCuts` | src/server.rs:46-81 | The same for every environment at once: a condition on the events alone, namely that each bad cut follows an event that ends any session (end of stream, read error, closed channel) or a request behind a DisconnectRequest. |
| `Chunking.BadCutSmallTypes` | src/proto.rs:60-71 | With one-byte types the bad positions are exactly those one byte before the end of a frame with a body. |
| `Desync.HopelessAbsorbing` | src/server.rs:46-87 | After a wrong first byte or a varint too long, the program as written never aborts and never reads another message: flags stay, the buffer only grows, and the session is exactly what it would be without its reads, until something else ends it. |
| `Desync.Absorbing` | src/server.rs:46-87 | A session stuck in any way, under either guard: flags stay, the buffer only grows, and unless it is aborted it does exactly what it would do without its reads. |
| `Desync.AbortsOnOverflow` | src/proto.rs:56-71 | A stuck session is aborted by the program as written if and only if a read it makes while running completes a header with 1+len_size+length >= 2^64; up to the first such read it does what it would do without its reads. |
| `Desync.OverflowingLengthAborts` | src/proto.rs:56-71 | Every length that overflows with its own size gets a session stuck when it is read, and aborted by whatever type follows. |
| `Desync.OverflowExample` | src/proto.rs:56-71 | 00, nine bytes FF and 01 are such a length. |
| `History.HandleTracked` | src/handlers.rs:72-295 | One item: state after it, or the failure and what was still written, in terms of the history alone. |
| `History.HistoryExactly` | src/server.rs:43-110 | A session runs on after n items if and only if each was survived; then flags, output, remaining room and write-closed bit are the functions of the history; a failed session failed at the first item it did not survive. |
| `History.SubscriptionHistory` | src/server.rs:61-75 | In every running state of the handling of an item list: flags are those of the last successful subscribe or unsubscribe, none before the first, never both; a malformed subscribe changes nothing. |
| `History.ProgramFlags` | src/server.rs:44-110 | For every trace of the program as written: the flags are those of the last successful subscribe or unsubscribe among the items handled, none before the first, never both. The items handled are all of the trace's, or those up to the first one not survived if it failed, or those up to the first short read if it aborted. |
| `History.AdvertForwarding` | src/server.rs:88-100 | Handling an advertisement in any reachable running state changes nothing before the first subscribe or after an unsubscribe; otherwise, by the last decision, exactly one raw (93) or one legacy (67) frame is attempted, and the session runs on if and only if the peer address is readable and the frame was written whole. |
| `History.RunIsItems` | src/server.rs:44-110 | A run is the handling of the items its bytes and advertisements amount to, whatever the reads were cut into. |
| `History.ItemsGrow` | src/server.rs:44-110 | Each event's share of the items: a read brings the messages completed by its bytes behind all earlier ones, an advertisement itself, anything else nothing. |
| `History.FinishedBy` | src/server.rs:48-110 | A session finishes at the first end of stream, read error or channel closure, as it stood, and for no other reason. |
| `History.ProgramOutput` | src/server.rs:44-110 | For every trace of the program as written: the output is whole frames, a prefix in order of those the history asks for (all of them unless it failed or aborted), plus at most a cut frame if a write failed; nothing follows a DisconnectResponse; a peer draining it recovers exactly those frames; an aborted session has sent exactly what the events up to the first short read ask for. |
| `Client.TcpStream.Write` | src/handlers.rs:84-87 | `write_all` writes everything, or a prefix and an error, or nothing once shut down. |
| `Client.Answer` | src/handlers.rs:72-101 | Parse, then answer with one frame of the reply type; a bad payload or unreadable peer address writes nothing. |
| `Client.DisconnectRequest` | src/handlers.rs:103-120 | Answer, then shut the write side down. |
| `Client.SubscribeRequest` | src/handlers.rs:250-269 | A readable subscription turns on exactly one form, raw for odd flags, and decides the flags of every session state and history from there on; an unreadable one changes nothing. |
| `Client.Forward` | src/handlers.rs:271-295 | One frame of the given type around the advertisement. |
| `Client.Dispatch` | src/server.rs:54-79 | One arm of the message match takes exactly one step of the session machine, which is the one `RequestsAnswered` spells out. |
| `Client.DrainMessages` | src/server.rs:53-80 | The inner loop over the shared buffer serves it as the session machine does, aborts included. |
| `Client.OnAdvert` | src/server.rs:90-100 | The advertisement arm takes exactly one step of the session machine. |
| `Client.HandleClient` | src/server.rs:36-113 | The whole session loop, for any finite trace, ends with the status, flags and stream of the session machine with the guard as written. |
| `Fanout.ReceiveServed` | src/server.rs:88-108 | One `recv`, lagged or not, keeps the accounting of a client. |
| `Fanout.TransitionInv` | src/server.rs:18-34 | Every action of any party keeps the accounting of every client. |
| `Fanout.Conservation` | src/server.rs:18-34 | For every interleaving: in-order duplicate-free selection since accept; received plus Lagged counts plus unread equals sent; only advertisements with more than the capacity of newer ones were missed; the session is the run of the client's own events. |
| `Fanout.Taken` | src/server.rs:18-34 | Over every interleaving: the channel holds what was published before the senders were dropped, there is one client per accept, and a running client has read exactly what its socket presented, in order, an ended one a first part of it. |
| `Fanout.HeldWhenReceived` | src/server.rs:88-103 | Whatever a client has received, it received in a step in which the channel still held it. |
| `Fanout.StartIsTail` | src/server.rs:26 | A client's start is what had been sent when it was accepted, whatever happens later. |
| `Fanout.ClosedLast` | src/server.rs:104-107 | Closure of the channel, which happens only at program exit (src/main.rs:121-124 keeps a sender until `main` returns), reaches a client only after everything sent. |
| `Fanout.Paced` | src/server.rs:88-108 | Over every interleaving: a client still running at the end has moved past one advertisement per receive or has everything sent before, and with the senders gone cannot have received more often than that. |
| `Fanout.KeepsUp` | src/server.rs:88-108 | Over every interleaving: after one receive per unread advertisement a running client has everything that had been sent; while senders remain, as they do until the program exits, with an idle socket it runs on unless it failed on a write or an unreadable peer address. |
| `Fanout.CatchesUp` | src/server.rs:88-108 | At program exit, once the senders are gone: over every interleaving a client ends within one receive per unread advertisement plus one; with an idle socket it has failed or heard the closure with nothing unread. |
| `Fanout.NoLagNoLoss` | src/server.rs:101-103 | A client has every advertisement up to its cursor if and only if its Lagged counts are zero. |
| `Fanout.ClientSees` | src/server.rs:18-34 | End to end: what a client finds on its socket drains to the frames its own requests and received advertisements ask for. |
| `Fanout.NonInterference` | src/server.rs:23-33 | A client ends as it would if the other clients did nothing. |
| `TestClient.ReadVarint` | test_client.py:6-28 | The byte-at-a-time loop on unbounded integers reads the unreduced base-128 sum and leaves the rest. |
| `TestClient.EncodeUnbounded` | test_client.py:30-41 | Same bytes as the Rust encoder. |
| `TestClient.ReceiveMessage` | test_client.py:52-60 | Reads one message off the socket, with the outcomes of `ReceiveOf`: a bad preamble, a broken varint, a length too large to allocate, or the message. |
| `TestClient.DecodersAgree` | test_client.py:6-28 | Both decoders accept the same prefixes and consume the same count; the Rust value is the Python value mod 2^64. |
| `TestClient.FramesReceived` | test_client.py:52-60 | Every frame the proxy encodes is received intact, leaving the rest, if and only if `recv` can allocate its body; otherwise it raises. |
| `TestClient.StreamReceived` | test_client.py:81-92 | Frames one after the other are received as exactly their list, then whatever follows them. |
| `TestClient.StreamExactly` | test_client.py:81-92 | The receive loop gets exactly the frames sent and then the end of the stream if and only if it can allocate every body. |
| `TestClient.CutFrameReceived` | test_client.py:52-60 | A frame cut by the end of the stream is an error while its header is incomplete or if its length cannot be allocated, and otherwise a message with a cut payload. |
| `TestClient.ProgramHeard` | src/server.rs:44-110 | End to end, for every trace of the program as written: an independent client that can allocate them receives exactly the frames the history asks for, in order, all of them unless the session failed or aborted, then at most a part of the next one. |
| `TestClient.ReceiveAgrees` | test_client.py:52-60 | On any buffer from which the proxy extracts a message, the test client receives the same one if and only if `recv` can allocate the length not reduced mod 2^64. |
| `TestClient.PreambleIsTheDifference` | test_client.py:53-56 | A message received in full is one the proxy extracts if and only if it starts with the zero byte. |
| `TestClient.BadPreambleExactly` | test_client.py:52-56 | The preamble is refused if and only if it is a varint other than zero, so for every first byte from 01 to 7F; anything received starts with 80 bytes and a 00, or just 00. |
| `TestClient.LongPreamble` | test_client.py:53-56 | 80 00 is accepted as a preamble by the client and desynchronises the proxy. |
| `Uuid.PairValue` | src/raw_adv.rs:24 | What a two-character `from_str_radix` accepts, the leading plus sign included. |
| `Uuid.DigitExactly` | src/raw_adv.rs:24 | The hexadecimal digits are those of two tables, upper and lower case, and no other character. |
| `Uuid.RadixExactly` | src/raw_adv.rs:24 | `from_str_radix(_, 16)` on a string of any length: an optional plus sign, then digits, all but the last two of them zeros. |
| `Uuid.UuidBytesExactly` | src/raw_adv.rs:17-25 | A string means sixteen bytes if and only if 32 characters remain without dashes and each pair is the number of its byte. |
| `Uuid.ParseUuidString` | src/raw_adv.rs:17-38 | The byte-filling loop and the shrinking: an abort exactly for `UuidAborts`, otherwise the short form of the bytes the string means, or none. |
| `Uuid.AbortsOnCrossing` | src/raw_adv.rs:23-25 | Slicing aborts if and only if 32 bytes are left without dashes and a multi-byte character crosses the end of a pair all of whose predecessors are numbers; so never for ASCII or accepted strings. |
| `Uuid.AbortingUuid` | src/raw_adv.rs:23-25 | "aé" and 29 zeros abort. |
| `Uuid.ParseLossless` | src/raw_adv.rs:14-38 | Expanding the short form of an accepted string with the Base UUID gives its sixteen bytes. |
| `Uuid.ParseCanonical` | src/raw_adv.rs:14-38 | Two accepted strings have the same form if and only if they spell the same bytes. |
| `Uuid.ShrinkNarrowest` | src/raw_adv.rs:27-37 | The 16-bit form is chosen iff some 16-bit UUID expands to the bytes, the 32-bit form iff only a 32-bit one does. |
| `Uuid.BaseUuidsShrink` | src/raw_adv.rs:4-6 | The dashed Base UUID with leading digits a b c d becomes the 16-bit UUID when a and b are zero, else the 32-bit one. |
| `Uuid.DashesIgnored` | src/raw_adv.rs:18 | A dash inserted anywhere changes nothing. |
| `Uuid.DashedParses` | src/raw_adv.rs:17-38 | The canonical spelling of any sixteen bytes is accepted and means those bytes. |
| `Uuid.ReadBack` | src/raw_adv.rs:53-59 | Little-endian bytes on the air read back as the UUID. |
| `Uuid.LittleEndian` | src/raw_adv.rs:53-59 | Each byte on the air is the expanded UUID's, last first. |
| `AdData.ByteVec.PushAd` | src/raw_adv.rs:40-44 | Appends one structure and nothing else. |
| `AdData.AdRoundTrip` | src/raw_adv.rs:40-44 | Parsing by section 11 gives exactly the pushed list if and only if every payload is at most 254 bytes. |
| `Advertisement.PushUuidListAd` | src/raw_adv.rs:46-74 | Appends the up to three lists of the partition by width, unless some string aborts. |
| `Advertisement.PushServiceDataAd` | src/raw_adv.rs:76-114 | Appends one structure per entry with a parseable UUID and byte data, in order, unless the UUID of an entry with byte data aborts. |
| `Advertisement.PushManufacturerDataAd` | src/raw_adv.rs:116-136 | Appends one structure per entry with a company id and byte data, in order. |
| `Advertisement.BuildRawAdvertisementData` | src/raw_adv.rs:146-177 | The bytes of the whole list, for any property map, ill-typed properties included, or an abort exactly if one of its UUID strings aborts. |
| `Advertisement.RawRoundTrip` | src/raw_adv.rs:146-177 | The built bytes parse back to the list if and only if: name at most 254 bytes, at most 127, 63, 15 UUIDs by width, service data at most 252, 250, 238 bytes, manufacturer data at most 252. |
| `Advertisement.OnAir` | src/raw_adv.rs:46-136 | A manufacturer entry, a 16-bit service UUID and an entry of service data, byte for byte. |
| `Advertisement.GroupsInOrder` | src/raw_adv.rs:146-177 | Within the limits the bytes hold nothing but the name, the three lists, service data, manufacturer data and power, in this order. |
| `Advertisement.LongNameLost` | src/raw_adv.rs:40-44 | A name of 255 bytes is pushed as one structure and read back as none. |
| `Advertisement.UuidConservation` | src/raw_adv.rs:46-74 | Within the limits, what reads back from types 3, 5 and 7 is the stable partition by width of the property's UUID strings: each in its list, right behind the earlier ones of its width, and nothing else. |
| `Advertisement.NameAndPowerRecovered` | src/raw_adv.rs:149-174 | Within the limits the `Name` and an in-range `TxPower` of the map read back from types 0x09 and 0x0A; an out-of-range power is left out. |
| `Mac.ParseMac` | src/utils.rs:10-21 | Six parts, each a byte, or an error. |
| `Mac.ParsesExactly` | src/utils.rs:10-21 | A string is a MAC if and only if it is six colonless parts with colons between, each a byte. |
| `Mac.FormatLayout` | src/utils.rs:3-8 | Two capital hexadecimal digits a byte, colons between. |
| `Mac.MacRoundTrip` | src/utils.rs:3-21 | Six bytes survive formatting and parsing. |
| `Mac.AddressIsBigEndian` | src/ble.rs:304-308 | The shift-and-OR fold over a formatted MAC is its big-endian value. |
| `Mac.AddressExactly` | src/ble.rs:304-308 | For any string, the big-endian number of its parts mod 2^64, unreadable parts counting as zero. |
| `Legacy.ExtractServiceData` | src/ble.rs:310-346 | The legacy entries of a dictionary, in order. |
| `Legacy.ExtractExactly` | src/ble.rs:310-346 | Every entry with a key of the right kind and byte data is extracted, in its place, with its text unchanged or its id in hex, and nothing else is. |
| `Legacy.IdHexDigits` | src/ble.rs:328-330 | Four lower-case hexadecimal digits. |
| `Legacy.IdHexReadsBack` | src/ble.rs:328-330 | The four-digit hex company id parses back to the id. |
| `Legacy.BuildAdvertisement` | src/ble.rs:198-253 | Nothing without an `Address` text, an abort exactly if the raw builder aborts; otherwise both forms share address, address type and RSSI, each read from its property of the map, and the raw data are the built bytes. |
| `Legacy.FormsAgree` | src/ble.rs:225-250 | Within the limits, for the dictionaries of the map: the service structures read from the raw bytes are the legacy service entries with a readable UUID, and the manufacturer structures are the legacy manufacturer entries with the id parsed back, in order. |
| `Supervisor.RunSupervised` | src/ble.rs:54-76 | Before every sleep the requested delay is min(2^j, 30), j the failures since the last healthy run or the start. |
| `Supervisor.BackoffClosedForm` | src/ble.rs:66-75 | Counting from the last healthy run (or the start) at m, delay i is min(2^(i-m), 30). |
| `Supervisor.DelayValues` | src/ble.rs:66-75 | Delays are among 1, 2, 4, 8, 16, 30, and 1 after a healthy run. |
| `Supervisor.RestartRate` | src/ble.rs:48-76 | In every window of every history, the k cycles in it take at least (91k - 300)/5 seconds of run and sleep. |
| `Supervisor.RateIsTight` | src/ble.rs:48-76 | Arbitrarily long histories attain that bound over their whole length. |

## Left out

- ExtractMessage: a build with overflow checks aborts already at the guard when the length overflows the sum; the model follows the release profile, which wraps.
- HandleClient: finite event traces; each `select!` arm is one step, so a session blocked in a write is not modelled, and the peer address oracle stands for whether the log level evaluates it.
- Conservation: tokio's broadcast behaviour is assumed as documented, with the capacity a parameter; a sender's error when no receiver exists is not modelled, since the listener holds one.
- ReceiveMessage: `recv` is taken to return in full unless the stream ends, and to allocate any length up to a bound that is a parameter; a negative Python integer, on which the encoder loops forever, has no counterpart.
- RunSupervised: run lengths and sleeps are real seconds given as a history; status notification and logging are not modelled.
- BuildAdvertisement: a dictionary is the sequence of its entries in iteration order; zvariant's own conversions are one constructor per type.
- Protobuf message bodies: parsing is a predicate and a flags function, a serialised message arbitrary bytes.
- D-Bus, discovery and property fetching (src/ble.rs:79-196), mDNS, startup and packaging: calls into other systems.
- The receiving side's own parsing of the company id beyond base 16 digits (prefixes, underscores, whitespace).
