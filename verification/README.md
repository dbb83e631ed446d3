# Two byte-level protocols, modelled and proved

This Dafny project models the two wire protocols of the repository and proves what they keep.

**The generated protobuf code** (`protobufTest/packet.pb.h`, `packet.pb.cc`) and the packet builders on top of it
(`PacketHandler.cpp`). The three messages are classes (`LoginPacket`, `ConnectedPacket`, `PacketHeader`) with the
source's own fields: a word of presence bits, lazily allocated strings and submessages, a cached size. Every method
is proved against functions on plain values (`Messages`, `MessageLoop`, `Serialization`, `Sizes`), and the deep
properties are lemmas about those functions. `ExpectTag` and `ExpectAtEnd` are hints with arbitrary answers: they may
say yes only when that is right, and may say no at any time. The parser's `goto` is the variable `expected`.

**`ByteBuffer` and the length-prefixed TCP framing** (`bytebuffer/mangosByteBuffer`). `ByteBuffer` is a class with its
storage and two cursors; what `<<` and `>>` exchange is `BufferCodec`. `TcpServer.SendData` frames a payload in its
send buffer, and `TcpClient` reassembles packets from whatever pieces `recv` returns. What a client delivers is a
function of the byte stream alone (`Framing.Deliver`), for every stream, well formed or not.

| file | what it models |
|---|---|
| `Bytes.dfy` | bytes, little-endian integers, C strings |
| `WireFormat.dfy` | varints, tags, fields and groups of the Protocol Buffers encoding |
| `MessageLoop.dfy` | the read-tag-and-dispatch loop, parsing as a fold over records, parsing as merging |
| `Messages.dfy`, `Serialization.dfy`, `Sizes.dfy` | the three messages as values: one record's effect, merging, serialising, sizes |
| `CodedStream.dfy` | input and output streams, presence bits |
| `LoginPacket.dfy`, `ConnectedPacket.dfy`, `PacketHeader.dfy` | the generated classes |
| `MessageRuns.dfy` | runs of operations on a header |
| `PacketHandler.dfy` | the builders, and packets read through a C string |
| `BufferCodec.dfy`, `ByteBuffer.dfy` | typed values on the wire, and the buffer class |
| `Framing.dfy`, `TcpClient.dfy`, `TcpServer.dfy` | frames, reassembly, the server's run, whole sessions |

## What the code does that one might not expect

- **Stale pointers.** A presence bit that is clear means "field at its default" after any run of the operations in
  `MessageRuns`. It stops being true when a caller writes through a pointer from `mutable_login_packet()` or
  `mutable_username()` after the field was cleared. Then even `Clear` leaves the write behind, for the next
  `mutable_...()` to find: `StaleString`, `StaleSubmessage`. `Clear` leaves a message like a fresh one exactly when the
  fields its tests pass over, in the header and in its submessages, held their defaults (`Clears`).
- **Unknown fields.** A header comes back from its serialisation exactly when none of its unknown fields is one the
  parser recognises (`HeaderRoundTrip`). Parsing never stores such a field, so every reachable message does.
- **Cached sizes.** The serialisers take length prefixes from the submessages' caches; the bytes are right exactly when
  those caches are (`CachedSizesMatter`), which `ByteSize` makes true.
- **`ParseFromString(buf)`** reads a char array as a C string. A login request survives exactly when its name and
  password are not empty and its version is not zero; otherwise the parse fails. That the server then finds a login
  with no fields rests on the assumption below that an over-long length is refused before its body is read. The
  refusing connected packet is cut after its tag and its parse fails, but the client still reads the right answer,
  because the parser marks a submessage present before it reads its length.
- **`memmove`** in the client copies `m_nRecvSize` bytes, not the surplus, so it reads past `m_cbRecvBuf` into the next
  member, `m_cbDataBuf`, exactly when the packet and the bytes live when it is taken exceed the buffer. Whether a run
  does that depends on how `recv` cuts the stream; `overran` tells, and `OverrunFromStream` says when the stream alone
  decides. The bytes that stay live never come from there.
- **POD texts** are printed as C strings. A packet without a zero byte behind its index is read on into what an earlier
  packet left, and past the packet buffer when there is no zero byte there either.
- **Partial sends.** `SendData` answers true as soon as one byte is accepted. The frame is on the wire exactly when all
  of it was; `PartialSendLoses` shows two "successful" sends of the server from which nothing is delivered.
- **Null payloads.** `SendData` with a null pointer and a size sends whatever the send buffer held.
- **Small and large size fields.** A size field below 4 makes `nDataSize` wrap to nearly 65536; the client then survives
  only if nothing believes it. A size field above the buffer stops the client with a full buffer, and nothing else does.
- **The size assertion of `append`** looks at the buffer before each piece, so a value may end beyond 10,000,000 bytes;
  `Room` is the exact condition.

## Model

| member | source | states |
|---|---|---|
| WireFormat.VarintRoundTrip | protobufTest/packet.pb.cc:288 | a minimal varint below 128^k reads back with any bytes behind it, in at most k bytes |
| WireFormat.VarintShape | protobufTest/packet.pb.cc:288 | the bytes of a varint: seven bits each, low ones first, a continuation bit on all but the last, none superfluous |
| WireFormat.VarintExamples | protobufTest/packet.pb.cc:288 | 1, 150 and 300 as the standard writes them |
| WireFormat.VarintReads | protobufTest/packet.pb.cc:240-242 | any varint, minimal or not, is read up to its first byte below 128 if that is among the first ten, and keeps its low 64 or 32 bits; otherwise it is malformed |
| WireFormat.Int32RoundTrip | protobufTest/packet.pb.cc:240-242 | every int32 reads back from its varint |
| WireFormat.SignExtended | protobufTest/packet.pb.cc:288 | the varint of an int32, read as a 64-bit two's complement number, is that int32 |
| WireFormat.MinusOne | protobufTest/packet.pb.cc:288 | minus one is FF nine times, then 01 |
| WireFormat.LowWord | protobufTest/packet.pb.cc:240-242 | an int32 is the low 32 bits of its varint in two's complement |
| WireFormat.TruncateTwice | protobufTest/packet.pb.cc:240-242 | reading an int32 with 32 or with 64 bits gives the same number |
| WireFormat.BodyRoundTrip | protobufTest/packet.pb.cc:268-277 | any field, of any wire type and nested to any depth, reads back after its tag with any bytes behind it |
| WireFormat.GroupRoundTrip | protobufTest/packet.pb.cc:268-277 | the fields of a group read back up to the matching end tag |
| WireFormat.BodyStable | protobufTest/packet.pb.cc:268-277 | a field that can be read is read the same when more input follows |
| WireFormat.FieldBytes | protobufTest/packet.pb.cc:300-303 | the bytes of an unknown field of each kind: wire types 0, 1, 2, 3 with its end 4, and 5 |
| WireFormat.NoField | protobufTest/packet.pb.cc:274-275 | which bytes are no field: number 0, wire types 4, 6 and 7, too few bytes, a length above 2^31 - 1 or beyond the input |
| WireFormat.WrongGroupEnd | protobufTest/packet.pb.cc:274-275 | a group ended by the tag of another number is malformed |
| MessageLoop.ParseIsFold | protobufTest/packet.pb.cc:829-893 | parsing an entire input is splitting it into records and folding them into the message, and fails when either does |
| MessageLoop.LoopStops | protobufTest/packet.pb.cc:234-273 | the loop stops at the end of the input, at a zero byte for a tag, and at any end-of-group tag |
| MessageLoop.RecordsOfFields | protobufTest/packet.pb.cc:895-922 | the records of serialised fields are those fields |
| MessageLoop.LoopConcat | protobufTest/packet.pb.cc:829-893 | after a complete message the loop goes on with what follows, whether or not that is accepted |
| MessageLoop.LoopKeeps | protobufTest/packet.pb.cc:829-893 | what every record and every cut-short record keeps holds after any input, rejected ones included |
| MessageLoop.ParseMerges | protobufTest/packet.pb.cc:829-893 | if one record is a merge, parsing into a message is parsing from scratch and merging |
| MessageLoop.ParseConcatMerges | protobufTest/packet.pb.cc:829-893 | and parsing a concatenation is merging the two parses |
| Messages.HeaderMonoid | protobufTest/packet.pb.cc:1006-1020 | MergeFrom is associative, with the fresh header as identity on both sides |
| Messages.LoginStepMerges | protobufTest/packet.pb.cc:505-574 | each login record does to any message what merging the message of that record alone does: last one wins, unknown fields append |
| Messages.ConnectedStepMerges | protobufTest/packet.pb.cc:230-282 | the same for connected packets |
| Messages.HeaderStepMerges | protobufTest/packet.pb.cc:829-893 | the same for headers, where a submessage record is parsed into the submessage present and so merges with it |
| Messages.HeaderParseMerges | protobufTest/packet.pb.cc:829-893 | for every input, parsing into any header gives MergeFrom of that header and the parse from scratch, and is accepted for the same inputs |
| Messages.HeaderConcatMerges | protobufTest/packet.pb.cc:1006-1020 | parse(a + b) is the merge of parse(a) and parse(b) |
| Serialization.HeaderStaysClean | protobufTest/packet.pb.cc:879-888 | whatever is parsed, accepted or not, no unknown field of the header or its submessages is one the parser knows |
| Serialization.LoginRoundTrip | protobufTest/packet.pb.cc:576-605 | a clean login that fits in an int parses back from its bytes |
| Serialization.ConnectedRoundTrip | protobufTest/packet.pb.cc:284-304 | the same for connected packets |
| Serialization.HeaderRoundTrip | protobufTest/packet.pb.cc:895-922 | a header that fits in an int parses back from its bytes exactly when it is clean |
| Serialization.NormalIdempotent | protobufTest/packet.pb.cc:879-888 | parsing the serialisation of what any accepted input parses to gives the same header and the same bytes again |
| Serialization.ConcatFieldwise | protobufTest/packet.pb.cc:1006-1020 | two serialised headers in a row parse to one, field by field: the later text or number wins, also inside the submessages, unknown fields are kept in order |
| Serialization.MergeInitialized | protobufTest/packet.pb.cc:1034-1040 | merging headers whose logins have name and password gives such a header, also with one login over another |
| Sizes.VarintSizeExact | protobufTest/packet.pb.cc:336-338 | the size computed by comparing with powers of 128 is the length of the varint written |
| Sizes.FieldsSizeExact | protobufTest/packet.pb.cc:349-353 | the size of unknown fields, groups included, is their length on the wire |
| Sizes.LoginSize | protobufTest/packet.pb.cc:641-676 | the sum ByteSize forms for a login is the length of its serialisation |
| Sizes.ConnectedSize | protobufTest/packet.pb.cc:330-358 | the same for a connected packet |
| Sizes.HeaderSize | protobufTest/packet.pb.cc:957-992 | the same for a header, with the submessages' sizes |
| Sizes.LoginPieces | protobufTest/packet.pb.cc:576-605 | the record list of a login is, byte for byte, tags 18, 26 and 32 with their values, then the unknown fields |
| Sizes.ConnectedPieces | protobufTest/packet.pb.cc:284-304 | the same with tags 8 and 18 |
| Sizes.Int32RecordMeans | protobufTest/packet.pb.cc:596-599 | an int32 record is its tag and a varint that is the number in 64-bit two's complement, with any bytes behind it |
| Sizes.MinusOneRecords | protobufTest/packet.pb.cc:284-289 | a version and a connected number of minus one, byte by byte |
| Sizes.HeaderPieces | protobufTest/packet.pb.cc:895-922 | the same with tags 10, 18 and 26, the submessages under their true lengths |
| Sizes.CachedSizesMatter | protobufTest/packet.pb.cc:924-955 | what a header's serialisers write is right exactly when every cached size they use is the true one |
| CodedStream.LowByteDecides | protobufTest/packet.pb.cc:812 | with three presence bits, the low byte test is "some field present", and the mask 3 is "both required fields" |
| CodedStream.CodedInputStream.ReadTag | protobufTest/packet.pb.cc:833 | 0 for the end, a malformed tag and tag 0, told apart by whether the end was legitimate |
| CodedStream.CodedInputStream.ExpectTag | protobufTest/packet.pb.cc:844 | yes only if the tag is next, and then consumed; no changes nothing |
| CodedStream.CodedInputStream.ExpectAtEnd | protobufTest/packet.pb.cc:875 | yes only at the end of the message |
| LoginPackets.LoginTextRecords | protobufTest/packet.pb.cc:512-538 | from the bytes of a name or password record, whatever was there before, the field is replaced and the loop goes on |
| LoginPackets.LoginVersionRecord | protobufTest/packet.pb.cc:545-552 | from the bytes of a version record the version becomes the low 32 bits of its varint |
| LoginPackets.LoginCut | protobufTest/packet.pb.cc:512-552 | a record cut short fails the parse; a text is present by then with what it held before, a version is not touched |
| LoginPackets.LoginPacket.MutableUsername | protobufTest/packet.pb.h:506-512 | the name becomes present and keeps its text, also one left behind by a stale write |
| LoginPackets.LoginPacket.WriteUsername | protobufTest/packet.pb.h:506-512 | a write through the pointer, at any later time: it changes the value exactly if the name is present, and breaks the invariant exactly if it is not and the text is not empty |
| LoginPackets.LoginPacket.SetUsername | protobufTest/packet.pb.h:485-491 | the name is present with the given text, nothing else changes |
| LoginPackets.LoginPacket.ClearUsername | protobufTest/packet.pb.h:476-481 | the name is absent and empty, nothing else changes |
| LoginPackets.LoginPacket.ReleaseUsername | protobufTest/packet.pb.h:513-522 | the name is absent, its text goes to the caller |
| LoginPackets.LoginPacket.SetAllocatedUsername | protobufTest/packet.pb.h:523-534 | the name is the given string, absent for null |
| LoginPackets.LoginPacket.MutablePassword | protobufTest/packet.pb.h:576-582 | the password becomes present and keeps its text |
| LoginPackets.LoginPacket.WritePassword | protobufTest/packet.pb.h:576-582 | a write through the pointer, at any later time, as for the name |
| LoginPackets.LoginPacket.ClearPassword | protobufTest/packet.pb.h:546-551 | the password is absent and empty, nothing else changes |
| LoginPackets.LoginPacket.ReleasePassword | protobufTest/packet.pb.h:583-592 | the password is absent, its text goes to the caller |
| LoginPackets.LoginPacket.SetAllocatedPassword | protobufTest/packet.pb.h:593-604 | the password is the given string, absent for null |
| LoginPackets.LoginPacket.SetPassword | protobufTest/packet.pb.h:555-561 | the password is present with the given text |
| LoginPackets.LoginPacket.SetVersion | protobufTest/packet.pb.h:623-626 | the version is present with the given value |
| LoginPackets.LoginPacket.ClearVersion | protobufTest/packet.pb.h:616-619 | the version is absent and zero |
| LoginPackets.LoginPacket.IsInitialized | protobufTest/packet.pb.cc:718-722 | true exactly when name and password are present |
| LoginPackets.LoginPacket.Clear | protobufTest/packet.pb.cc:487-503 | the value is that of a fresh login, whatever was written through old string pointers; every field is at its default exactly when those the has-bit tests pass over were before |
| LoginPackets.LoginPacket.MergeFrom | protobufTest/packet.pb.cc:690-704 | the message becomes the merge of both, the invariant holds |
| LoginPackets.LoginPacket.CopyFrom | protobufTest/packet.pb.cc:712-716 | the message equals the source, also when it is the source |
| LoginPackets.LoginPacket.MergePartialFromCodedStream | protobufTest/packet.pb.cc:505-574 | for any answers to the hints: the same verdict and message as the plain loop on every input; on success also the same end position and reason to stop |
| LoginPackets.LoginPacket.ByteSize | protobufTest/packet.pb.cc:641-676 | answers and caches the length of the serialisation |
| LoginPackets.LoginPacket.SerializeWithCachedSizes | protobufTest/packet.pb.cc:576-605 | appends the serialisation of the value; `Sizes.LoginPieces` and `Int32RecordMeans` say which bytes that is |
| LoginPackets.LoginPacket.SerializeWithCachedSizesToArray | protobufTest/packet.pb.cc:607-639 | writes the same bytes into the array and touches nothing behind them |
| ConnectedPackets.ConnectedNumberRecord | protobufTest/packet.pb.cc:237-249 | from the bytes of a connected record the number becomes the low 32 bits of its varint |
| ConnectedPackets.ConnectedTextRecord | protobufTest/packet.pb.cc:252-266 | from the bytes of a list record the list is replaced |
| ConnectedPackets.ConnectedCut | protobufTest/packet.pb.cc:237-266 | a record cut short fails the parse; the list is present by then, the number is not touched |
| ConnectedPackets.ConnectedPacket.SetConnected | protobufTest/packet.pb.h:387-390 | the number is present with the given value |
| ConnectedPackets.ConnectedPacket.ClearConnected | protobufTest/packet.pb.h:380-383 | the number is absent and zero |
| ConnectedPackets.ConnectedPacket.SetCharacterList | protobufTest/packet.pb.h:411-417 | the list is present with the given text |
| ConnectedPackets.ConnectedPacket.MutableCharacterList | protobufTest/packet.pb.h:432-438 | the list becomes present and keeps its text |
| ConnectedPackets.ConnectedPacket.WriteCharacterList | protobufTest/packet.pb.h:432-438 | a write through the pointer, at any later time, as for the name of a login |
| ConnectedPackets.ConnectedPacket.ClearCharacterList | protobufTest/packet.pb.h:402-407 | the list is absent and empty |
| ConnectedPackets.ConnectedPacket.SetAllocatedCharacterList | protobufTest/packet.pb.h:449-460 | the list is the given string, absent for null |
| ConnectedPackets.ConnectedPacket.ReleaseCharacterList | protobufTest/packet.pb.h:439-448 | the list is absent, its text goes to the caller |
| ConnectedPackets.ConnectedPacket.Clear | protobufTest/packet.pb.cc:217-228 | the value is that of a fresh packet; every field is at its default exactly when those the has-bit tests pass over were before |
| ConnectedPackets.ConnectedPacket.MergeFrom | protobufTest/packet.pb.cc:372-383 | the message becomes the merge of both |
| ConnectedPackets.ConnectedPacket.CopyFrom | protobufTest/packet.pb.cc:391-395 | the message equals the source |
| ConnectedPackets.ConnectedPacket.MergePartialFromCodedStream | protobufTest/packet.pb.cc:230-282 | for any answers to the hints, the same as the plain loop, as for a login |
| ConnectedPackets.ConnectedPacket.ByteSize | protobufTest/packet.pb.cc:330-358 | answers and caches the length of the serialisation |
| ConnectedPackets.ConnectedPacket.SerializeWithCachedSizes | protobufTest/packet.pb.cc:284-304 | appends the serialisation of the value |
| ConnectedPackets.ConnectedPacket.SerializeWithCachedSizesToArray | protobufTest/packet.pb.cc:306-328 | writes the same bytes into the array |
| PacketHeaders.HeaderRecords | protobufTest/packet.pb.cc:836-873 | from the bytes of a record: a submessage is parsed into the one present or a fresh one and must be used up, an auth code is replaced |
| PacketHeaders.HeaderCut | protobufTest/packet.pb.cc:836-873 | a record cut short fails the parse; its field is present by then with what it held before |
| PacketHeaders.PacketHeader.LoginPacketView | protobufTest/packet.pb.h:646-648 | the getter answers the login, or the default instance when there is none |
| PacketHeaders.PacketHeader.MutableLoginPacket | protobufTest/packet.pb.h:649-653 | allocates at most once; the submessage becomes present and keeps its value |
| PacketHeaders.PacketHeader.ClearLoginPacket | protobufTest/packet.pb.h:642-645 | the login is absent, and its object empty |
| PacketHeaders.PacketHeader.ReleaseLoginPacket | protobufTest/packet.pb.h:654-659 | the login is absent, its object goes to the caller |
| PacketHeaders.PacketHeader.SetAllocatedLoginPacket | protobufTest/packet.pb.h:660-668 | the login is the given object's value, absent for null; the object must not be the one already held |
| PacketHeaders.PacketHeader.MutableConnectedPacket | protobufTest/packet.pb.h:687-691 | the same for the connected packet |
| PacketHeaders.PacketHeader.ClearConnectedPacket | protobufTest/packet.pb.h:680-683 | the connected packet is absent, and its object empty |
| PacketHeaders.PacketHeader.ReleaseConnectedPacket | protobufTest/packet.pb.h:692-697 | the connected packet is absent, its object goes to the caller |
| PacketHeaders.PacketHeader.SetAllocatedConnectedPacket | protobufTest/packet.pb.h:698-706 | the connected packet is the given object's value, absent for null |
| PacketHeaders.PacketHeader.MutableAuthCode | protobufTest/packet.pb.h:748-754 | the auth code becomes present and keeps its text |
| PacketHeaders.PacketHeader.WriteAuthCode | protobufTest/packet.pb.h:748-754 | a write through the pointer, at any later time, as for the name of a login |
| PacketHeaders.PacketHeader.ClearAuthCode | protobufTest/packet.pb.h:718-723 | the auth code is absent and empty |
| PacketHeaders.PacketHeader.SetAllocatedAuthCode | protobufTest/packet.pb.h:765-776 | the auth code is the given string, absent for null |
| PacketHeaders.PacketHeader.SetAuthCode | protobufTest/packet.pb.h:727-733 | the auth code is present with the given text |
| PacketHeaders.PacketHeader.ReleaseAuthCode | protobufTest/packet.pb.h:755-764 | the auth code is absent, its text goes to the caller |
| PacketHeaders.PacketHeader.IsInitialized | protobufTest/packet.pb.cc:1034-1040 | true exactly when a login, if present, has name and password |
| PacketHeaders.PacketHeader.Clear | protobufTest/packet.pb.cc:811-827 | the value is that of a fresh header, whatever was written through old pointers; every field, those of the submessages included, is at its default exactly when those the has-bit tests pass over were before |
| PacketHeaders.PacketHeader.MergeFrom | protobufTest/packet.pb.cc:1006-1020 | the header becomes the merge of both, its invariant holds, what it newly owns is fresh |
| PacketHeaders.PacketHeader.CopyFrom | protobufTest/packet.pb.cc:1028-1032 | the header equals the source, also when it is the source |
| PacketHeaders.PacketHeader.ParseLoginPacket | protobufTest/packet.pb.cc:836-846 | length, limit, nested parse and the test for its end give what the plain loop gives for the record |
| PacketHeaders.PacketHeader.MergePartialFromCodedStream | protobufTest/packet.pb.cc:829-893 | for any answers to the hints, in the header and in its submessages, the same verdict and message as the plain loop; on success also the same end position and reason to stop |
| PacketHeaders.PacketHeader.ParseFromString | protobufTest/AuthServer.cpp:62-63 | true exactly for a complete message whose login, if present, has name and password; the value is what the loop had parsed, also on failure |
| PacketHeaders.PacketHeader.ByteSize | protobufTest/packet.pb.cc:957-992 | answers and caches the length of the serialisation, and leaves every present submessage with its true length cached |
| PacketHeaders.PacketHeader.SerializeWithCachedSizes | protobufTest/packet.pb.cc:895-922 | appends the records with length prefixes from the caches, whatever the caches hold |
| PacketHeaders.PacketHeader.SerializeWithCachedSizesToArray | protobufTest/packet.pb.cc:924-955 | writes the same bytes into the array |
| PacketHeaders.PacketHeader.SerializeToString | protobufTest/PacketHandler.cpp:30-31 | the size pass and the array serialiser together give the serialisation |
| PacketHeaders.ThroughBytes | protobufTest/packet.pb.cc:829-922 | a clean header that fits goes through its bytes into another object: same value, and the verdict is true exactly when a login, if there is one, has name and password |
| MessageRuns.Run | protobufTest/packet.pb.h:633-776 | any run of the accessors of all three classes, whole-message operations on the header and through mutable_..._packet(), parses and set_allocated objects with runs of their own, on a new header: a field whose presence bit is clear is at its default, and the value is what the operations say |
| MessageRuns.RunLogin | protobufTest/packet.pb.h:466-626 | any run of accessors, clears, parses, merges and copies on a new login: the same |
| MessageRuns.RunConnected | protobufTest/packet.pb.h:370-460 | any run on a new connected packet: the same |
| MessageRuns.ReachableRoundTrip | protobufTest/packet.pb.cc:895-922 | every message such a run can produce parses back from its serialisation |
| MessageRuns.StaleString | protobufTest/packet.pb.cc:487-503 | a write through an old string pointer survives Clear, and the next mutable_username() finds it |
| MessageRuns.StaleSubmessage | protobufTest/packet.pb.h:642-653 | a write through an old submessage pointer survives Clear |
| PacketHandlers.BuildConnectedPacket | protobufTest/PacketHandler.cpp:5-19 | the packet is the serialisation of the reply: 12 02 08 01, or 12 00 |
| PacketHandlers.BuildLoginPacket | protobufTest/PacketHandler.cpp:21-34 | the packet, byte by byte from the arguments as C strings: tag 10, a length, then name under tag 18, password under 26, version under 32 |
| PacketHandlers.BuildAuthCodePacket | protobufTest/PacketHandler.cpp:36-45 | the packet is tag 26, a length and the code as a C string |
| PacketHandlers.LoginRequestBytes | protobufTest/PacketHandler.cpp:25-31 | the serialisation of a request, byte by byte from name, password and version |
| PacketHandlers.LoginExample | protobufTest/PacketHandler.cpp:25-31 | login_packet("a", "b", 1), byte by byte |
| PacketHandlers.VarintZeroFree | protobufTest/PacketHandler.cpp:30-31 | a minimal varint holds a zero byte only when it encodes 0 |
| PacketHandlers.ConnectedReplyBytes | protobufTest/PacketHandler.cpp:9-16 | the two connected packets, byte by byte |
| PacketHandlers.LoginRequestZeroFree | protobufTest/PacketHandler.cpp:21-34 | a request has no zero byte exactly when nothing in it is empty or zero |
| PacketHandlers.AuthCodeZeroFree | protobufTest/PacketHandler.cpp:36-45 | an auth code packet has no zero byte exactly when the code is not empty |
| PacketHandlers.LoginOverCString | protobufTest/AuthServer.cpp:62-67 | what the auth server holds after ParseFromString(buf), for every request: name, password and version as sent exactly when none is empty or zero, and otherwise, with a library that refuses an over-long length at once, a login with no fields |
| PacketHandlers.AuthCodeOverCString | protobufTest/GameServer.cpp:63-68 | the game server holds the code that was sent in every case; only the verdict of an empty one is false |
| PacketHandlers.ConnectedOverCString | protobufTest/GameClient.cpp:104-113 | the client holds the reply that was sent in both cases, although the refusal fails to parse |
| PacketHandlers.RefusalSetsNothing | protobufTest/AuthServer.cpp:87-88 | the text "failure" parses to a header without an auth code |
| Bytes.LittleEndian | bytebuffer/mangosByteBuffer/ByteBuffer.h:65-69 | the byte of weight 256^i is stored at position i |
| Bytes.LittleEndianBytes | bytebuffer/mangosByteBuffer/ByteBuffer.h:65-69 | the bytes of integers of one, two, four and eight bytes, lowest first |
| BufferCodec.IntegerBytes | bytebuffer/mangosByteBuffer/ByteBuffer.h:84-124 | an integer takes its width, and negative ones are in two's complement |
| BufferCodec.IntegerExamples | bytebuffer/mangosByteBuffer/ByteBuffer.h:105-124 | minus two as an int32, and the limits of types of each width |
| BufferCodec.BoolBytes | bytebuffer/mangosByteBuffer/ByteBuffer.h:79-83 | a bool is written as 1 or 0; a char from 1 to 127 reads as true |
| BufferCodec.ListExample | bytebuffer/mangosByteBuffer/ByteBuffer.h:381-393 | a list of two strings, byte by byte |
| BufferCodec.MapExample | bytebuffer/mangosByteBuffer/ByteBuffer.h:449-461 | a map of two bindings, byte by byte |
| BufferCodec.ReadFails | bytebuffer/mangosByteBuffer/ByteBuffer.h:281-291 | a read fails exactly when its bytes are not there |
| BufferCodec.RoundTrip | bytebuffer/mangosByteBuffer/ByteBuffer.h:79-125 | a value of any type, containers nested to any depth, reads back with any bytes behind it |
| BufferCodec.StringRoundTrip | bytebuffer/mangosByteBuffer/ByteBuffer.h:220-233 | a written string reads back as its C string, so whole exactly when it has no zero byte |
| BufferCodec.SeqRoundTrip | bytebuffer/mangosByteBuffer/ByteBuffer.h:395-408 | the elements of a vector or list are appended in order |
| BufferCodec.PairsRoundTrip | bytebuffer/mangosByteBuffer/ByteBuffer.h:463-477 | inserting the bindings of an ascending map one by one rebuilds it exactly |
| BufferCodec.InsertPlaces | bytebuffer/mangosByteBuffer/ByteBuffer.h:474 | insert puts a new key where it belongs and lets an existing key keep its first binding |
| BufferCodec.StrictTotalOrder | bytebuffer/mangosByteBuffer/ByteBuffer.h:463-477 | the order of keys is a strict total order on the values of a type: transitive, antisymmetric, zero exactly on equal values |
| BufferCodec.NumberOrder | bytebuffer/mangosByteBuffer/ByteBuffer.h:463-477 | integers are ordered as numbers, false before true |
| BufferCodec.StringOrder | bytebuffer/mangosByteBuffer/ByteBuffer.h:463-477 | of strings the first differing byte decides, and a proper prefix comes first |
| BufferCodec.SeqOrder | bytebuffer/mangosByteBuffer/ByteBuffer.h:463-477 | the same for vectors and lists, element by element |
| BufferCodec.MapOrder | bytebuffer/mangosByteBuffer/ByteBuffer.h:463-477 | the same for maps, binding by binding: key first, then value |
| BufferCodec.ReadHasType | bytebuffer/mangosByteBuffer/ByteBuffer.h:157-202 | whatever can be read is a value of its type, maps in ascending order of keys included |
| BufferCodec.IntegerKeysAscend | bytebuffer/mangosByteBuffer/ByteBuffer.h:463-477 | integer keys of a map that was read ascend as numbers, whatever order its bindings came in |
| BufferCodec.RecordRoundTrip | bytebuffer/mangosByteBuffer/ByteBuffer.h:157-202 | values of several types, read in the order of their types, are all recovered |
| BufferCodec.BackPatch | bytebuffer/mangosByteBuffer/ByteBuffer.h:71-75 | overwriting a field with a value of the same width changes that field alone when everything is decoded |
| ByteBuffers.OverwriteAt | bytebuffer/mangosByteBuffer/ByteBuffer.h:326-338 | what append leaves at each position: source, old byte, or zero in a gap |
| ByteBuffers.OverwriteConcat | bytebuffer/mangosByteBuffer/ByteBuffer.h:326-338 | two appends in a row are one append of both |
| ByteBuffers.AppendsConcat | bytebuffer/mangosByteBuffer/ByteBuffer.h:326-338 | any run of appends is one append of the concatenation; from a cleared buffer it is the concatenation |
| ByteBuffers.ByteBuffer.AppendEach | bytebuffer/mangosByteBuffer/ByteBuffer.h:326-338 | any run of appends leaves what one append of the concatenation would |
| ByteBuffers.RoomSplit | bytebuffer/mangosByteBuffer/ByteBuffer.h:326-338 | the assertions of two runs of appends in turn hold exactly when those of the joint run do |
| ByteBuffers.ByteBuffer.Clear | bytebuffer/mangosByteBuffer/ByteBuffer.h:59-63 | empty, both cursors at 0 |
| ByteBuffers.ByteBuffer.Resize | bytebuffer/mangosByteBuffer/ByteBuffer.h:306-311 | cut or zero-filled to size, read cursor at 0, write cursor at the end |
| ByteBuffers.ByteBuffer.Append | bytebuffer/mangosByteBuffer/ByteBuffer.h:326-338 | overwrite or extend at the write cursor, which moves behind what was written, exactly when the size assertion holds |
| ByteBuffers.ByteBuffer.Put | bytebuffer/mangosByteBuffer/ByteBuffer.h:344-348 | replaces bytes in place and moves no cursor |
| ByteBuffers.ByteBuffer.Write | bytebuffer/mangosByteBuffer/ByteBuffer.h:79-146 | a value of any type is appended in its encoding, exactly when there is room for all but the last piece below 10,000,000 bytes; otherwise an assertion fails |
| ByteBuffers.ByteBuffer.WriteSeq | bytebuffer/mangosByteBuffer/ByteBuffer.h:381-393 | count and elements of a vector or list are appended, with the exact condition for the assertions |
| ByteBuffers.ByteBuffer.WriteElements | bytebuffer/mangosByteBuffer/ByteBuffer.h:386-391 | the loop over a vector or list appends every element |
| ByteBuffers.ByteBuffer.WriteMap | bytebuffer/mangosByteBuffer/ByteBuffer.h:449-461 | count and bindings of a map are appended, with the exact condition for the assertions |
| ByteBuffers.ByteBuffer.ReadString | bytebuffer/mangosByteBuffer/ByteBuffer.h:220-233 | the char loop takes everything before a zero byte or the end, and steps over the zero |
| ByteBuffers.ByteBuffer.Read | bytebuffer/mangosByteBuffer/ByteBuffer.h:157-202 | a value of any type is decoded and the read cursor moves behind it |
| ByteBuffers.ByteBuffer.ReadMap | bytebuffer/mangosByteBuffer/ByteBuffer.h:463-477 | the loop over a counted map inserts every binding |
| ByteBuffers.RecordThroughBuffer | bytebuffer/mangosByteBuffer/ByteBuffer.h:281-291 | any record written from a cleared buffer is read back, and the read cursor ends at the write cursor, unless an append fails its assertion; that happens exactly when the last append starts at 10,000,000 bytes or later |
| ByteBuffers.BackPatchThroughBuffer | bytebuffer/mangosByteBuffer/ByteBuffer.h:344-348 | put at a recorded offset, through the buffer: one field changes, all others and the cursors do not |
| ByteBuffers.BackPatchFixedThroughBuffer | bytebuffer/mangosByteBuffer/ByteBuffer.h:71-75 | for an integer or bool field any value of its type may be put |
| Framing.FrameFields | bytebuffer/mangosByteBuffer/server.cpp:96-107 | where size, opcode and payload of a frame are found again, the first two as little-endian bytes |
| Framing.UnderstandFrame | bytebuffer/mangosByteBuffer/client.cpp:75-118 | from a framed packet the client takes the opcode and payload that went in; it fails exactly when the packet is a POD text without an end in the packet buffer, or a serialised message too short for its index |
| Framing.OpcodeDecides | bytebuffer/mangosByteBuffer/client.cpp:86-118 | bytes 01 00 for the opcode make a POD message, 02 00 a serialised one, all others an unknown one |
| Framing.MeaningOfPayloads | bytebuffer/mangosByteBuffer/client.cpp:120-131 | an index and a text up to a zero byte, as a POD or a serialised payload, are what the application is given |
| Framing.SaneAlways | bytebuffer/mangosByteBuffer/client.cpp:88-124 | a packet can be digested over any content of the packet buffer exactly when a POD text ends within its own payload and a serialised message has its index |
| Framing.SizeBelowHeader | bytebuffer/mangosByteBuffer/client.cpp:77-79 | a size field below the header's makes the size wrap, which breaks the program exactly for a serialised message, or a POD one without a zero byte in the buffer |
| Framing.DeliverFrames | bytebuffer/mangosByteBuffer/client.cpp:46-82 | from any frames packets are delivered unchanged and in order, the first 10 or up to the first that breaks the client, and the rest of the stream is left |
| Framing.DeliverSane | bytebuffer/mangosByteBuffer/client.cpp:46-82 | from the frames of sane packets exactly the first 10 are delivered, each saying what it said |
| Framing.AtMostTen | bytebuffer/mangosByteBuffer/client.cpp:50-54 | from any stream at most 10 packets are delivered |
| Framing.DeliverConserves | bytebuffer/mangosByteBuffer/client.cpp:46-82 | for any stream, the packets dispatched followed by what is left are the stream, byte for byte |
| Framing.DeliverGrows | bytebuffer/mangosByteBuffer/client.cpp:46-82 | more input never takes back a delivery, for any stream |
| TcpClients.Socket.Recv | bytebuffer/mangosByteBuffer/client.cpp:37 | any non-empty piece that fits, or the reason there is none |
| TcpClients.TcpClient.MoveDown | bytebuffer/mangosByteBuffer/client.cpp:69 | what the buffer holds after the move, and exactly when the move reads past it |
| TcpClients.TcpClient.ReadSerialized | bytebuffer/mangosByteBuffer/client.cpp:96-107 | the message read depends on the payload only, whatever was in the buffer |
| TcpClients.TcpClient.OnNetMessage | bytebuffer/mangosByteBuffer/client.cpp:86-118 | what the application is given for the packet buffer and size, and whether a read leaves the packet buffer or an assertion fails |
| TcpClients.TcpClient.PrintPod | bytebuffer/mangosByteBuffer/client.cpp:120-125 | the text printed ends at the first zero byte behind nIndex, within the array or not; without one the read leaves the packet buffer |
| TcpClients.TcpClient.TakePacket | bytebuffer/mangosByteBuffer/client.cpp:66-70 | a packet moves from the live bytes to the packet buffer and the surplus stays; the move reads past the receive buffer exactly when packet and live bytes together exceed it |
| TcpClients.TcpClient.Dispatch | bytebuffer/mangosByteBuffer/client.cpp:66-79 | the packet taken is dispatched, its bytes, the live size and the overrun are on record |
| TcpClients.TcpClient.Drain | bytebuffer/mangosByteBuffer/client.cpp:46-82 | after every packet the bytes dispatched, live and to come are the stream, byte for byte, and what is still to be delivered completes the run; afterwards no complete packet is left, or the socket was closed, exactly when 10 were dispatched and 4 more bytes are there |
| TcpClients.TcpClient.RunLoop | bytebuffer/mangosByteBuffer/client.cpp:32-85 | for any stream and any way recv cuts it: deliveries, bytes left and the reason to stop are those the stream determines, every byte is accounted for, the socket is closed exactly when 10 packets were dispatched and another header has arrived, and a memmove has overrun exactly when some packet and the bytes live when it was taken exceed 10280 |
| TcpClients.TcpClient.Finished | bytebuffer/mangosByteBuffer/client.cpp:37-55 | why the loop ends once recv has no more: 10 packets and another header, a full buffer exactly when an oversize packet is next, or the peer |
| TcpClients.OverrunFromStream | bytebuffer/mangosByteBuffer/client.cpp:69 | a packet longer than half the buffer overruns however recv cuts the stream; none does while each packet and what follows it fit |
| TcpClients.OverranExactly | bytebuffer/mangosByteBuffer/client.cpp:69 | what overran says, in terms of packet and live sizes alone |
| TcpServers.TcpServer.SendData | bytebuffer/mangosByteBuffer/server.cpp:96-111 | for every payload, null pointer and size: whether the send buffer is left, and if not, the wire gets a prefix of the frame, all of it exactly when the send accepted all; with a null pointer the frame carries what was in the buffer |
| TcpServers.TcpServer.SendSerialized | bytebuffer/mangosByteBuffer/server.cpp:54-65 | a message goes through the reused buffer into one frame |
| TcpServers.TcpServer.RunRounds | bytebuffer/mangosByteBuffer/server.cpp:28-79 | over whole sends the wire holds the frames of POD and serialised messages in turn, numbered from 0, for as many rounds as asked or until a send fails |
| TcpServers.FirstRound | bytebuffer/mangosByteBuffer/server.cpp:36-65 | the server's first two packets, byte by byte |
| TcpServers.ReceiveSerialized | bytebuffer/mangosByteBuffer/client.cpp:96-107 | any index and any text without a zero byte, once written, is what the handler reads |
| TcpServers.Relay | bytebuffer/mangosByteBuffer/client.cpp:32-85 | any packets that fit, framed, cut up and reassembled, arrive with their opcodes and payloads and in order: all that were sent up to the 10th, or up to the first that breaks the client |
| TcpServers.RelaySane | bytebuffer/mangosByteBuffer/client.cpp:32-85 | sane packets all arrive, up to the 10th, each saying what it said |
| TcpServers.Session | bytebuffer/mangosByteBuffer/server.cpp:28-79 | a whole session: the application sees the server's first 10 messages, POD and serialised in turn, each with its round's number and text |
| TcpServers.PartialSendLoses | bytebuffer/mangosByteBuffer/server.cpp:109-110 | the server's first two sends both report success, the first cut after one byte, and the client delivers nothing |

## Assumptions about the protobuf library

The library's own code is not part of the repository. Its primitives follow the Protocol Buffers encoding, sections
"Base 128 Varints", "Message Structure", "Length-Delimited Records", "Groups" and "Last One Wins": varints of at most
ten bytes; a record whose length exceeds an int or the input left, field number 0, wire types 6 and 7, and a group
without its end tag are malformed. A primitive that fails leaves its target as it was. `ParseFromString` clears,
parses, and asks for a complete and initialised message; `SerializeToString` runs `ByteSize` and then the array
serialiser.

## Left out

- Sockets, threads, console output and the login database: I/O. `recv` and `send` are arbitrary within their contracts.
- Descriptors, reflection, default-instance set-up and shutdown, `Swap`, copy constructors, and the overloads of the setters that differ only in how they take their string.
- UTF-8 checks of the generated code: their result is not used.
- The library's recursion and total-size limits; sizes are required to fit in an int where the code stores them in one.
- Direct access to `mutable_unknown_fields()`: not an operation of `MessageRuns`, since `HeaderRoundTrip` says exactly what it can break.
- Lines 9 and 25 of `protobufTest/PacketHandler.cpp` do not compile as written; the builders use the type `ConnectedPacket` and call `mutable_login_packet()`. The container templates of `ByteBuffer.h` bind a reference to a temporary; the loops are modelled as meant.
- `float`, `double` and `time_t` in `ByteBuffer`: bit patterns, and `operator>>(time_t)` loses the value it reads. Integers are little-endian.
- `ByteBuffer::append(const ByteBuffer&)`, `append(const std::string&)`, `operator>>(char[])`, positional reads and `operator[]`.
- ByteBuffers.ByteBuffer.Write: takes strings without a zero byte, since only those are values that can be read back; how any other string reads back is `BufferCodec.StringRoundTrip`.
- ByteBuffers.ByteBuffer.Read: asks that the value can be decoded; a read past the end is a failed assertion in the code.
- A container is modelled by its list of elements in iteration order; `std::map` keys are compared by value, texts as unsigned chars.
- TcpServers.TcpServer.RunRounds: the code's loop ends only when a send fails; the model also stops after a given number of rounds, any up to 2^31, beyond which the code's counter overflows.
- LoginPackets.LoginPacket.MutableUsername: gives the text, not a pointer. Writing through the pointer is `WriteUsername`, at any time while the message owns the string; once the string was released or replaced such a write no longer reaches the message. The other strings are modelled alike.
- LoginPackets.LoginPacket.MergePartialFromCodedStream: says nothing of the stream's position after a failure, which depends on how far the library's primitives read; the other two parsers neither.
- PacketHeaders.PacketHeader.SetAllocatedLoginPacket: objects are not reclaimed, so deleting the old submessage has no effect in the model; giving the header the object it already holds, which the code would delete and keep, is excluded. Likewise for the connected packet.
- PacketHandlers.LoginOverCString: what a cut login leaves behind rests on the assumption on over-long lengths above.
- TcpClients.OverrunFromStream: does not say for every stream in between which ways of cutting it overrun; `RunLoop` does, from the sizes live when the packets were taken.
- The initial contents of `m_cbDataBuf`, which the code leaves undefined, are zeros for a new client; the run theorem holds for any contents.
- What happens after a read past the packet buffer, a write past the send buffer or a failed assertion: the run ends there. A read past the receive buffer stays within the object, and the run goes on.
- libevent client, epoll chat server, thread samples and tinyhttpd.
