# WisCam protocol machinery in Dafny

A model of the parts of the WisCam camera firmware that take bytes apart and put them together,
with proofs of what they promise. The code modelled is the protocol machinery of the embedded web
server (`mongoose.c`), the control port and the ring buffer of `ser2net`, and the camera's own
configuration store. It works in place: decoders move bytes inside the receive buffer, parsers walk
over blocks with cursors, lists and buffers are updated field by field. The model keeps that form.
Each such operation is a method on arrays or objects, proved against a specification function, and
the promises are proved about the specification for all inputs, all runs and all ways in which the
network cuts a stream.

Three themes run through the modules.

* **Streams.** WebSocket, chunked HTTP and MQTT share one argument (`Streams.dfy`): a decoder that
  makes progress and does not change its mind when more bytes follow cannot see where a stream was
  cut. Each protocol then adds that its decoder undoes the sender in the same file.
* **Printer and parser.** CoAP, DNS names, URIs and base64 are read back from what is written. Where
  the code writes more than it can read, the exact condition is proved.
* **State in place.** The growing buffer, the ring buffer, the line editor, the output buffer, the
  option list and the configuration file are shown to be the queue, automaton, sorted list or map
  that they implement.

What a specification and the code both call, such as the exclusive or, the digits of a size or the
case of a letter, is tied to a statement in other terms: its bits, a table, or a rule on bytes. The
examples of the standards are in `Vectors.dfy`.

Where the code differs from what one would expect of it, the model follows the code: a partial
first write of a wrapped ring buffer (`buffer.c:62`), the close flag of a WebSocket frame
(`mongoose.c:9550`), an alternative of a pattern that matches only the empty prefix
(`mongoose.c:2012-2021`), a pattern byte compared with what stands behind the string
(`mongoose.c:2047-2050`), the identifier of an MQTT acknowledgement without a body
(`mongoose.c:10301-10307`), a chunk length that wraps around (`mongoose.c:6022-6053`), CoAP
options wider than sixteen bits (`mongoose.c:11948-12118`), DNS names with empty or long labels
(`mongoose.c:10941-10968`), URIs with delimiters inside their parts (`mongoose.c:5315-5442`) and a
configuration name that is not in the file, a value with blanks or line ends, or a line longer than
its buffer (`wiscam-config.c:83-95`, `130-136`, `173-180`). For each there is a lemma that says exactly when the expectation holds, and
for the surprising ones a concrete input. The comment of `ReadLine` (`wiscam-config.c:69`) says that an
empty line gives 0; the code gives 1, and so does the model. The comment at
`mongoose.c:11160` speaks of 16 pointer hops in a DNS name; the code allows 15, and so does the model.

| file | models |
|---|---|
| `Bytes.dfy`, `Slices.dfy` | bytes, integers on the wire, masking, facts about sequences |
| `Mbuf.dfy` | the growing buffer |
| `Streams.dfy` | decoders and receives |
| `WebSocket.dfy`, `WebSocketConnection.dfy`, `WebSocketClose.dfy` | frames, reassembly, sending, the close request |
| `Chunked.dfy`, `ChunkedConnection.dfy` | chunked bodies |
| `Mqtt.dfy`, `MqttConnection.dfy` | MQTT packets |
| `Hashing.dfy`, `Sha1.dfy`, `Md5.dfy` | incremental hashing and HMAC |
| `Coap.dfy`, `CoapCodec.dfy` | CoAP messages and the option list |
| `Dns.dfy`, `Uri.dfy`, `Base64.dfy` | names, URIs, base64 |
| `Glob.dfy`, `PathNormalizer.dfy` | patterns and paths |
| `LineEditor.dfy`, `ControllerOutput.dfy`, `RingBuffer.dfy` | the control port and the ring buffer of `ser2net` |
| `ConfigStore.dfy` | the configuration file |
| `Vectors.dfy` | literal inputs and outputs, most of them examples of the standards |

`dafny verify dfyconfig.toml` checks all of it.

Bytes are integers below 256, sizes are mathematical integers, and the widths of the source are
written out where they matter (the 64-bit frame length, the 32-bit hash counters and port numbers,
the 16-bit CoAP options, chunk sizes at any width). What the operating system answers to a
write, whether memory can be had and whether a file opens are parameters of the methods; so is what stands in memory behind a buffer or a
string where the source looks at it.

## Model

| member | source | states |
|---|---|---|
| `Mbuf.Buffer.Insert` | sources/applications/restful_server/mongoose.c:1381-1411 | The held bytes become front + data + back of what they were, in the same block or a larger one; if the block cannot grow nothing changes and 0 is returned |
| `Mbuf.Buffer.Append` | sources/applications/restful_server/mongoose.c:1414-1416 | The data joins the end of the held bytes, or nothing changes and 0 is returned |
| `Mbuf.Buffer.Remove` | sources/applications/restful_server/mongoose.c:1419-1424 | The first n bytes are dropped and the rest moves down unchanged; a count larger than what is held changes nothing |
| `Streams.SplitIndependence` | sources/applications/restful_server/mongoose.c:9694-9697 | For every decoder that makes progress and whose verdict on a whole unit does not change when more bytes follow, any number of receives cut anywhere gives the same output, rest and failure as one receive of the whole stream |
| `Streams.AnyFailedShows` | sources/applications/restful_server/mongoose.c:9694-9697 | If any receive gives the connection up, so does one receive of the whole stream |
| `Streams.CutIsAny` | sources/applications/restful_server/mongoose.c:9694-9697 | The cuts that the end-to-end results range over are all the ways to cut a stream into receives |
| `WebSocket.ParseFrameInverts` | sources/applications/restful_server/mongoose.c:9482-9519 | The header and payload parser undoes the sender: every frame with any opcode, mask and length form, followed by any bytes, is read back with its flags, unmasked payload and exact size |
| `Bytes.XorIff` | sources/applications/restful_server/mongoose.c:9514-9519 | A byte is the exclusive or of two others if and only if each of its eight bits is the sum of theirs modulo two |
| `Bytes.MaskedBits` | sources/applications/restful_server/mongoose.c:9514-9519 | Masking turns over the bits of a payload byte where the mask byte at its place modulo four has them |
| `Vectors.HelloMasked` | sources/applications/restful_server/mongoose.c:9464-9519 | The masked example of section 5.7 of RFC 6455, sent and read |
| `Vectors.HelloInTwo` | sources/applications/restful_server/mongoose.c:9464-9541 | Its fragmented example, received as one message |
| `WebSocket.DecoderIsStream` | sources/applications/restful_server/mongoose.c:9464-9556 | The deframing and reassembling decoder makes progress on every frame it takes and never changes its verdict when more bytes arrive |
| `WebSocket.DeliveryIgnoresSplits` | sources/applications/restful_server/mongoose.c:9464-9556 | For every byte stream, well-formed or not, the messages delivered, the reassembly state and the failure verdict depend on the bytes alone, not on how they were received |
| `WebSocket.StreamTheorem` | sources/applications/restful_server/mongoose.c:9464-9556 | Any messages, whole or in fragments, each frame masked or not, encoded by the sender and cut into receives anywhere, are delivered exactly once each, as the concatenation of their fragments, in order, and nothing is left over |
| `WebSocketConnection.ReadHeader` | sources/applications/restful_server/mongoose.c:9482-9496 | The three length forms are read as the frame parser specifies; all lengths are zero while the header is incomplete |
| `WebSocketConnection.Connection.Unmask` | sources/applications/restful_server/mongoose.c:9514-9519 | The payload in the receive buffer is replaced by its unmasked form and nothing else changes |
| `WebSocketConnection.Connection.Gather` | sources/applications/restful_server/mongoose.c:9521-9532 | A fragment is moved down over its header behind the payload collected so far; the buffer is then the marker byte, the whole payload and the bytes behind the frame |
| `WebSocketConnection.Connection.Reassemble` | sources/applications/restful_server/mongoose.c:9521-9541 | A fragment extends the open message; a final one delivers the concatenated payload and leaves exactly the bytes behind the frame |
| `WebSocketConnection.Connection.TakeWhole` | sources/applications/restful_server/mongoose.c:9542-9552 | An unfragmented frame is delivered and removed from the buffer |
| `WebSocketConnection.Connection.DeliverData` | sources/applications/restful_server/mongoose.c:9464-9556 | One call of the in-place code is one step of the decoder: it succeeds, waits or fails as the decoder does, delivers the same message, and leaves the state the decoder leaves |
| `WebSocketConnection.Connection.DeliverAll` | sources/applications/restful_server/mongoose.c:9694-9697 | The delivery loop terminates; its result is the decoder run to the end of the buffered bytes, and closing is asked for exactly when one of its steps does |
| `WebSocketConnection.Connection.OnReceive` | sources/applications/restful_server/mongoose.c:9694-9697 | A receive event refines the pure receive step, whatever was buffered before, and sets the close flag exactly when the loop over the buffered bytes does |
| `WebSocketConnection.SendHeader` | sources/applications/restful_server/mongoose.c:9591-9626 | The header bytes are those the parser undoes, with the mask behind them on client connections |
| `WebSocketConnection.SendFrame` | sources/applications/restful_server/mongoose.c:9636-9648 | Exactly one frame is appended, its payload masked where it lies in the send buffer |
| `WebSocketConnection.SendFramev` | sources/applications/restful_server/mongoose.c:9650-9670 | A payload given in pieces is appended as exactly one frame of their concatenation, masked in place |
| `WebSocketConnection.CloseFlagIff` | sources/applications/restful_server/mongoose.c:9542-9552 | The flag is read from the buffer after the frame was removed: over a whole receive of unfragmented frames it is set exactly when a frame behind the first is a close frame, or the bytes left start like one, or nothing is left and the last frame is one |
| `WebSocketConnection.CloseIsHonouredIff` | sources/applications/restful_server/mongoose.c:9542-9552 | Over a whole receive of unfragmented frames, closing is asked for just when a close frame was taken, if and only if a later frame is one, or the first frame is one just when the bytes left start like one or, if none are left, it is alone |
| `WebSocketConnection.CloseCanBeMissed` | sources/applications/restful_server/mongoose.c:9542-9552 | A concrete receive, a close frame with a text frame behind it, after which the close flag is still unset |
| `WebSocketConnection.CloseCanBeEarly` | sources/applications/restful_server/mongoose.c:9542-9552 | A concrete receive that sets the flag before the close frame has arrived |
| `WebSocketConnection.ReceiveChunks` | sources/applications/restful_server/mongoose.c:9694-9697 | Over any run of receives the object delivers what the receive steps deliver, and asks for closing exactly when one of them does |
| `WebSocketClose.RunClosesIff` | sources/applications/restful_server/mongoose.c:9542-9552 | Over every run of receives, from any state, with fragments and open messages: closing is asked for if and only if some frame handed over by itself is a close frame that ends with a receive, or is followed in its receive by a byte like that of a close frame |
| `WebSocketClose.CutsAgreeIff` | sources/applications/restful_server/mongoose.c:9542-9552 | Over every stream: whether closing is asked for does not depend on the cut if and only if, of the frames handed over by themselves, none is a close frame or followed by a byte like that of one, or some is both, the end of the stream counting as such a byte behind a close frame |
| `WebSocketClose.CutsCanDisagree` | sources/applications/restful_server/mongoose.c:9542-9552 | A concrete stream, a close and a text frame, that asks for closing in two receives and not in one |
| `WebSocketConnection.Exchange` | sources/applications/restful_server/mongoose.c:9464-9697 | End to end: messages sent through the send buffer, cut after any numbers of bytes and received event by event, are delivered exactly once each, whole and in order |
| `Hashing.CountAdds` | sources/applications/restful_server/mongoose.c:1247-1249 | The two-word bit counter with its carry equals the exact bit count modulo 2^64 after every addition |
| `Hashing.PadTwoBlocks` | sources/applications/restful_server/mongoose.c:1035-1063 | Padding that does not fit behind the pending bytes spills into a second block, and the two blocks are the end of the padded message |
| `Sha1.Context.Update` | sources/applications/restful_server/mongoose.c:1243-1261 | Whatever was fed before, the state is the fold of the compression function over all whole blocks of everything fed, and the buffer holds the rest |
| `Sha1.Context.Final` | sources/applications/restful_server/mongoose.c:1263-1285 | The digest is the fold over the standard-padded message with its 64-bit length, for everything fed in any pieces |
| `Sha1.HashV` | sources/applications/restful_server/mongoose.c:9717-9726 | Hashing a vector of pieces is hashing their concatenation |
| `Sha1.Hmac` | sources/applications/restful_server/mongoose.c:1287-1320 | H(K^opad, H(K^ipad, data)) for keys of any length, keys over a block hashed first |
| `Sha1.XorAllBits` | sources/applications/restful_server/mongoose.c:1306-1309 | Each byte of the block key is combined bit by bit with the pad |
| `Vectors.KeyedBlocks` | sources/applications/restful_server/mongoose.c:1287-1320 | The two keyed blocks for a key of twenty bytes 0x0b |
| `Vectors.InitialSha1` | sources/applications/restful_server/mongoose.c:1234-1241 | The initial state, as the digest writes it |
| `Md5.Context.Update` | sources/applications/restful_server/mongoose.c:1000-1033 | As for SHA-1, with the block-filling order of MD5 |
| `Md5.Context.Final` | sources/applications/restful_server/mongoose.c:1035-1063 | The digest is the fold over the padded message with the little-endian bit count, for everything fed in any pieces |
| `Md5.HashV` | sources/applications/restful_server/mongoose.c:7184-7193 | Hashing a vector of pieces is hashing their concatenation |
| `Vectors.InitialMd5` | sources/applications/restful_server/mongoose.c:908-916 | The initial state, as the digest writes it |
| `Chunked.ParseChunkInverts` | sources/applications/restful_server/mongoose.c:6022-6053 | The chunk parser undoes the sender for data of every length that fits in memory, whatever follows |
| `Chunked.DigitTable` | sources/applications/restful_server/mongoose.c:6028-6033 | The digits read are the twenty-two of the standard, each with its value; capitals are written |
| `Chunked.CaseKeepsValue` | sources/applications/restful_server/mongoose.c:6028-6033 | Capital and small letters in a size mean the same |
| `Chunked.ParsePiece` | sources/applications/restful_server/mongoose.c:6022-6053 | A chunk is read whatever way its size is written, in capital or small letters, with or without leading zeros |
| `Chunked.ParseAgreesIff` | sources/applications/restful_server/mongoose.c:6022-6053 | On a machine whose sizes wrap around, the parser finds what the standard has if and only if no announced length wraps around to a line end |
| `Chunked.WildChunk` | sources/applications/restful_server/mongoose.c:6022-6053 | Ten bytes that are no chunk and are taken for one of 2^32 - 2 bytes where sizes have 32 bits |
| `Chunked.BodyIgnoresSplits` | sources/applications/restful_server/mongoose.c:6022-6110 | For every byte stream, well-formed or not, and every width of sizes, the decoded body, the undecoded rest, the end of the body and a chunk longer than memory depend on the bytes alone |
| `Chunked.DecodesAlikeIff` | sources/applications/restful_server/mongoose.c:6022-6110 | A stream in memory is decoded as the standard has it if and only if no length met in it wraps around to a line end |
| `Chunked.BodyTheorem` | sources/applications/restful_server/mongoose.c:6022-6110 | Any non-empty chunks that fit in memory and the empty one, cut into receives anywhere and followed by anything, decode to the concatenation of the chunks, and decoding stops behind the empty chunk |
| `Chunked.AnyBodyTheorem` | sources/applications/restful_server/mongoose.c:6022-6110 | The same for every sender that follows the standard, however it writes its sizes |
| `ChunkedConnection.ReadChunk` | sources/applications/restful_server/mongoose.c:6022-6053 | The scanning loop, with sums that wrap around, finds exactly the chunk of the parser at that width, or none, or one that no memory holds |
| `ChunkedConnection.Receiver.Collapse` | sources/applications/restful_server/mongoose.c:6065-6079 | Moving each chunk down over its header in the receive buffer leaves the headers, the body so far, the decoded data, a gap, and the undecoded rest; it reports a chunk longer than memory exactly when the decoder meets one |
| `ChunkedConnection.Receiver.DeleteBody` | sources/applications/restful_server/mongoose.c:6093-6100 | Deleting hands over exactly the collected body and closes the gap |
| `ChunkedConnection.Receiver.HandleChunked` | sources/applications/restful_server/mongoose.c:6055-6110 | Unless a chunk is longer than memory, bodies deleted on request + body held + decoding of the rest is invariant, and the length of the message is known exactly after the empty chunk |
| `ChunkedConnection.Receiver.OnReceive` | sources/applications/restful_server/mongoose.c:6055-6110 | A receive event refines the pure receive step of the decoder at the width of sizes, with or without deletion |
| `ChunkedConnection.SendChunk` | sources/applications/restful_server/mongoose.c:7039-7047 | Sending appends exactly one chunk |
| `ChunkedConnection.Exchange` | sources/applications/restful_server/mongoose.c:6055-6110 | End to end: a body sent in chunks, cut after any numbers of bytes and received event by event, is the body received, deleted on arrival or not |
| `Mqtt.ReadLengthInverts` | sources/applications/restful_server/mongoose.c:10238-10247 | The variable-length field is read back for every length below 2^28, whatever follows |
| `Mqtt.PrefixWaits` | sources/applications/restful_server/mongoose.c:10234-10252 | No proper prefix of a packet is acted upon |
| `Mqtt.ConnectRoundTrip` | sources/applications/restful_server/mongoose.c:10258-10284 | A CONNECT body is read back in the fields of the caller: the will topic and message if both were given and else neither, user name, password and client as given, the keep-alive or 60 for 0, and each flag bit set that was given or whose string was |
| `Mqtt.PublishRoundTrip` | sources/applications/restful_server/mongoose.c:10308-10319 | A PUBLISH body is read back, with its identifier exactly when the quality of service carries one |
| `Mqtt.TopicsRoundTrip` | sources/applications/restful_server/mongoose.c:10556-10569 | Iterating over a SUBSCRIBE payload returns the topics and their quality of service in order and ends at the payload end |
| `Mqtt.PacketsIgnoreSplits` | sources/applications/restful_server/mongoose.c:10352-10366 | For every byte stream, every cut and whatever stands in memory behind the buffer, the bytes left and the verdict depend on the stream alone, and so do the packets, but for the identifiers of acknowledgements without room for one |
| `Mqtt.HandledAlikeIff` | sources/applications/restful_server/mongoose.c:10301-10307 | A stream is handled alike for every cut and every memory behind the buffer if and only if each acknowledgement in it has at least two bytes |
| `Mqtt.IdentifierIff` | sources/applications/restful_server/mongoose.c:10301-10307 | The identifier of an acknowledgement ignores what follows the packet if and only if its body has at least two bytes |
| `Mqtt.IdentifierFromBehind` | sources/applications/restful_server/mongoose.c:10301-10307 | A concrete PUBACK without a body, whose identifier is stale memory in one receive and the next packet in another |
| `Mqtt.StreamTheorem` | sources/applications/restful_server/mongoose.c:10227-10366 | Any sequence of packets whose acknowledgements have identifiers, cut into receives anywhere, is handled exactly once each, in order, whatever stands behind the buffer, and nothing is left over |
| `Mqtt.SubscribeRoundTrip` | sources/applications/restful_server/mongoose.c:10320-10330 | A SUBSCRIBE body is read back with its identifier, and iterating over its payload gives the topics |
| `Mqtt.MessagesArrive` | sources/applications/restful_server/mongoose.c:10227-10366 | Any CONNECT, PUBLISH and SUBSCRIBE messages arrive exactly once each and in order, every field as the caller gave it, and the connection is never given up |
| `MqttConnection.Connection.Parse` | sources/applications/restful_server/mongoose.c:10227-10338 | The parser on the receive buffer answers as the decoder does, packet, not yet whole, or malformed, and sees the identifier the source reads |
| `MqttConnection.WalkConnect` | sources/applications/restful_server/mongoose.c:10258-10284 | The walk over the strings of a CONNECT, which reads behind the packet and notices most overruns only by where it ends, accepts exactly the well-formed bodies |
| `MqttConnection.WalkContent` | sources/applications/restful_server/mongoose.c:10257-10334 | The content by packet type, with the identifier of an acknowledgement read from whatever stands behind the length |
| `MqttConnection.Connection.OnReceive` | sources/applications/restful_server/mongoose.c:10352-10366 | A receive event refines the pure receive step of the decoder, for whatever stands in memory behind the buffer |
| `MqttConnection.NextSubscribeTopic` | sources/applications/restful_server/mongoose.c:10556-10569 | The next topic and position as specified, -1 at the end or when the payload is cut short |
| `MqttConnection.PrependHeader` | sources/applications/restful_server/mongoose.c:10417-10440 | Inserting the header in the middle of the send buffer makes the body behind it one whole packet; what stood before is unchanged |
| `MqttConnection.SendConnect` | sources/applications/restful_server/mongoose.c:10447-10515 | Sending appends exactly one CONNECT packet |
| `MqttConnection.Flags` | sources/applications/restful_server/mongoose.c:10454-10463 | The flags given with the bits of the strings that are there |
| `Vectors.WillIsSent` | sources/applications/restful_server/mongoose.c:10447-10515 | A concrete request with a will, byte by byte |
| `Vectors.PublishedAndSubscribed` | sources/applications/restful_server/mongoose.c:10517-10569 | A concrete PUBLISH, SUBSCRIBE and length field, byte by byte |
| `MqttConnection.SendPublish` | sources/applications/restful_server/mongoose.c:10517-10534 | Sending appends exactly one PUBLISH packet |
| `MqttConnection.SendSubscribe` | sources/applications/restful_server/mongoose.c:10536-10554 | Sending appends exactly one SUBSCRIBE packet |
| `MqttConnection.Exchange` | sources/applications/restful_server/mongoose.c:10227-10569 | End to end: messages sent through the send buffer, cut after any numbers of bytes and received event by event, are handled exactly once each, as they were sent |
| `Coap.InsertAllIsStableSort` | sources/applications/restful_server/mongoose.c:11631-11677 | Whatever options are added in whatever order, the list is sorted by number and options of one number keep the order in which they were added |
| `Coap.StableSortIsUnique` | sources/applications/restful_server/mongoose.c:11631-11677 | Being sorted and agreeing number by number determines the list, so the insertion is the stable sort |
| `Coap.OptionsSize` | sources/applications/restful_server/mongoose.c:12000-12047 | The sizing arithmetic gives exactly the number of bytes the options take on the wire |
| `Coap.ParseOptionsInverts` | sources/applications/restful_server/mongoose.c:11815-11897 | Encoded options are read back in order up to the payload marker or the end; no option byte is taken for the marker |
| `Coap.RoundTrip` | sources/applications/restful_server/mongoose.c:11684-11924 | Every composable message with option numbers and lengths below 2^16 is read back: type, code, id, token, options in order and payload |
| `Coap.RoundTripIff` | sources/applications/restful_server/mongoose.c:11948-12118 | Among all messages the composer accepts, exactly those without a wider option number or value survive the wire |
| `Coap.RefusedIff` | sources/applications/restful_server/mongoose.c:11999-12046 | A message is composed if and only if its header fields fit their bits, its token has up to eight bytes, and its options are in order with lengths and distances up to 65804 |
| `Vectors.GetTemperature` | sources/applications/restful_server/mongoose.c:12059-12118 | The request of appendix A of RFC 7252, byte by byte |
| `Coap.WideOptionIsLost` | sources/applications/restful_server/mongoose.c:11948-12118 | A concrete message that is composed without complaint and read back differently |
| `CoapCodec.OptionList.Add` | sources/applications/restful_server/mongoose.c:11631-11677 | The linked list with its tail pointer, kept on the last node, holds the stable insertion of the new option |
| `CoapCodec.OptionList.Free` | sources/applications/restful_server/mongoose.c:11623-11629 | The list is empty again |
| `CoapCodec.PacketSize` | sources/applications/restful_server/mongoose.c:12000-12047 | The sizing pass refuses exactly what the composer cannot write, and otherwise returns exactly the number of bytes composed |
| `CoapCodec.WriteOptions` | sources/applications/restful_server/mongoose.c:12085-12109 | The writing pass fills exactly the room of the options, each number as a distance from the last |
| `CoapCodec.Compose` | sources/applications/restful_server/mongoose.c:12049-12118 | The packet is appended whole or the buffer is unchanged; refusals are those of the sizing pass |
| `CoapCodec.ReadOptions` | sources/applications/restful_server/mongoose.c:11815-11897 | Options are collected in the list as specified, and a fault is the fault specified |
| `CoapCodec.ParsePacket` | sources/applications/restful_server/mongoose.c:11899-11924 | Every packet, malformed or not, gets the verdict and the message specified; after a fault no option is kept |
| `CoapCodec.Exchange` | sources/applications/restful_server/mongoose.c:11899-12118 | End to end: a message the composer accepts is read back from its packet, options in the linked list, if and only if its option numbers and lengths fit in sixteen bits |
| `LineEditor.Controller.RemoveChars` | sources/applications/ser2net-2.10.0/controller.c:454-465 | The bytes are removed in place and what follows moves down unchanged |
| `LineEditor.Controller.HandleRead` | sources/applications/ser2net-2.10.0/controller.c:468-556 | A read event, editing in place while scanning, leaves the pending line, the dispatched commands and the echo of the specified read step |
| `LineEditor.ReadsAreTheAutomaton` | sources/applications/ser2net-2.10.0/controller.c:468-556 | However the input is cut into reads, the commands dispatched and the echo sent are those of a byte-at-a-time automaton on the whole input, with backspaces across reads, several commands in a read and the overflow reset |
| `LineEditor.CutsDoNotMatter` | sources/applications/ser2net-2.10.0/controller.c:468-556 | Two cuts of the same input cannot be told apart |
| `LineEditor.ReturnCarriesOut` | sources/applications/ser2net-2.10.0/controller.c:516-555 | Text is echoed byte by byte and, at a return, carried out as one command |
| `LineEditor.RuboutTakesBack` | sources/applications/ser2net-2.10.0/controller.c:516-555 | Backspace and delete undo the byte typed before them, on the line and on the screen; zero bytes and newlines do nothing |
| `LineEditor.FullLine` | sources/applications/ser2net-2.10.0/controller.c:476-481 | A line of 255 bytes, and no shorter one, is thrown away with a message before the next byte |
| `LineEditor.HandleReads` | sources/applications/ser2net-2.10.0/controller.c:468-556 | The object run over any reads carries out the commands and sends the echo of the automaton on the whole input |
| `ControllerOutput.Controller.Output` | sources/applications/ser2net-2.10.0/controller.c:157-224 | Text joins what waits, shifted or in a block of the next multiple of 1024 bytes; without memory for that it is dropped and nothing else changes |
| `ControllerOutput.Controller.HandleWrite` | sources/applications/ser2net-2.10.0/controller.c:586-613 | What the connection took leaves the front of what waits; the block is released and reading resumed exactly when all is written |
| `ControllerOutput.NothingIsLost` | sources/applications/ser2net-2.10.0/controller.c:157-224 | Over every run of outputs and partial writes, with or without memory, what waited + what was taken = what was written + what waits |
| `ControllerOutput.OutputIsConserved` | sources/applications/ser2net-2.10.0/controller.c:586-613 | With memory at hand, everything output since the connection was idle is written or waits, in order |
| `RingBuffer.PutAppends` | sources/applications/ser2net-2.10.0/buffer.c:98-120 | Bytes stored around the end of the block join the end of the queue |
| `RingBuffer.FlushTakes` | sources/applications/ser2net-2.10.0/buffer.c:26-84 | A flush whose first part is written whole or not at all takes bytes off the front of the queue, in order |
| `RingBuffer.PartialFirstPartBreaks` | sources/applications/ser2net-2.10.0/buffer.c:56-64 | A partial write of the first part of a wrapped flush breaks the queue, for every place, size and answer of that kind |
| `RingBuffer.FlushIffFirstPartWhole` | sources/applications/ser2net-2.10.0/buffer.c:26-84 | A flush keeps the queue for all contents if and only if the first part of a wrapped flush is written whole or not at all |
| `RingBuffer.RunIsFifo` | sources/applications/ser2net-2.10.0/buffer.c:26-136 | Over every such run, bytes held before + bytes accepted = bytes written + bytes held, and place and size stay within the block |
| `RingBuffer.EndIsReachable` | sources/applications/ser2net-2.10.0/buffer.c:26-120 | The place of the oldest byte can be the end of the block |
| `RingBuffer.Sbuf.constructor` | sources/applications/ser2net-2.10.0/buffer.c:138-145 | A new buffer over a block holds nothing |
| `RingBuffer.Sbuf.Output` | sources/applications/ser2net-2.10.0/buffer.c:98-120 | All of the data joins the queue or, without room, nothing changes |
| `RingBuffer.Sbuf.OutChar` | sources/applications/ser2net-2.10.0/buffer.c:122-136 | The byte joins the queue or, without room, nothing changes |
| `RingBuffer.Sbuf.Write` | sources/applications/ser2net-2.10.0/buffer.c:26-84 | The state, the bytes written and the error after a flush with any two answers of the system; the queue is kept when the first part is whole |
| `Glob.Reach` | sources/applications/restful_server/mongoose.c:2041-2046 | Exchange: if a pattern matches from an earlier place to a later end than from a later place, it also matches from the later place to the later end, which is why the first success of the backtracking is the longest |
| `Glob.CaseKeepsMatches` | sources/applications/restful_server/mongoose.c:2025-2053 | Changing the case of letters, in the pattern or in the string, changes no match |
| `Glob.ByteRule` | sources/applications/restful_server/mongoose.c:2025-2053 | What one byte of a pattern matches: any byte for ?, any but a slash for *, the end for $, and otherwise itself in either case |
| `Glob.AlternativesRule` | sources/applications/restful_server/mongoose.c:2012-2022 | A pattern is cut at its first bar, or if it has none at its first comma |
| `Glob.MatchPlain` | sources/applications/restful_server/mongoose.c:2022-2053 | For patterns without alternatives and any byte behind the string: the comparison runs past the end exactly when a part of the pattern matches all of the string and the next byte equals the one behind it; otherwise the result is the length of the longest prefix matched under the declarative rules, -1 exactly when none matches |
| `Glob.OverrunShows` | sources/applications/restful_server/mongoose.c:2041-2046 | Trying the longest run of a star first meets every overrun before any match |
| `Glob.StaysInside` | sources/applications/restful_server/mongoose.c:2047-2050 | A pattern without a byte that equals the one behind the string, in either case, stays inside |
| `Glob.ZeroStopsAll` | sources/applications/restful_server/mongoose.c:2056-2061 | So does every pattern without zero bytes on a string with its zero byte behind it |
| `Glob.QueryMarkMatches` | sources/applications/restful_server/mongoose.c:2047-2052 | A concrete pattern, `/a?` on the path `/a` of a request for `/a?x`, that no prefix matches and that runs past the end at its last byte, so that the answer is 3 |
| `Glob.MatchPrefix` | sources/applications/restful_server/mongoose.c:2007-2061 | With alternatives: unless one that is tried runs past the end, the longest match of the first alternative that matches at least one byte, else what the last one gives |
| `Glob.PositiveVerdict` | sources/applications/restful_server/mongoose.c:2012-2021 | A positive answer means that some alternative matches at least one byte, and conversely |
| `Glob.AnswerIff` | sources/applications/restful_server/mongoose.c:2012-2021 | A match is found exactly when some alternative matches at least one byte or the last one matches at all |
| `Glob.EmptyMatchIsForgotten` | sources/applications/restful_server/mongoose.c:2012-2021 | A concrete pattern that fails although its first alternative matches the empty prefix |
| `PathNormalizer.WalkIsNormalized` | sources/applications/restful_server/mongoose.c:5445-5477 | The component loop computes remove_dot_segments of section 5.2.4 of RFC 3986 on every absolute path |
| `PathNormalizer.NormalizedIsClean` | sources/applications/restful_server/mongoose.c:5445-5477 | The result starts with a slash, has no dot segment, is no longer than the path, and does not change when normalised again |
| `PathNormalizer.CleanIsNormal` | sources/applications/restful_server/mongoose.c:5445-5477 | A path without dot segments is its own normal form |
| `Vectors.DotSegments` | sources/applications/restful_server/mongoose.c:5449-5477 | Concrete paths with one and two dots |
| `PathNormalizer.Component` | sources/applications/restful_server/mongoose.c:5301-5313 | The component at a place and the start of the next one |
| `PathNormalizer.TakeComponent` | sources/applications/restful_server/mongoose.c:5456-5470 | One turn of the loop writes what the specified step writes and leaves the unread input unchanged, also when input and output are the same block |
| `PathNormalizer.Normalize` | sources/applications/restful_server/mongoose.c:5445-5477 | The output is the normal form of the input, in place or not, and never longer; a relative or empty path is refused |
| `Dns.LabelsIffName` | sources/applications/restful_server/mongoose.c:11138-11192 | Reading labels and pointers finds exactly the names of section 4.1.4 of RFC 1035 with at most the allowed number of pointers, and each name once |
| `Dns.PointerJoins` | sources/applications/restful_server/mongoose.c:11155-11166 | Labels in front of a pointer are read as labels in front of the name pointed to |
| `Dns.PointerIff` | sources/applications/restful_server/mongoose.c:11155-11156 | Two octets are a pointer if and only if the first is at least 192 |
| `Dns.PointerFollows` | sources/applications/restful_server/mongoose.c:11155-11166 | The octets 192 + offset / 256 and offset % 256 are read as the name at the offset, with one hop fewer |
| `Dns.FifteenHops` | sources/applications/restful_server/mongoose.c:11160-11163 | A chain of pointers to a name is expanded if and only if there are at most fifteen of them |
| `Dns.CompressedRoundTrip` | sources/applications/restful_server/mongoose.c:11138-11192 | A name written once, and later labels with a pointer to it, expand to the labels with the name behind them |
| `Dns.MoreHops` | sources/applications/restful_server/mongoose.c:11160-11165 | Allowing more pointers loses no name and changes none |
| `Dns.CyclesAreRefused` | sources/applications/restful_server/mongoose.c:11160-11165 | Labels that lead back to where they started are refused, however many hops are allowed |
| `Dns.ExpandIsName` | sources/applications/restful_server/mongoose.c:11138-11192 | Where there is a name, its dotted text is delivered, cut off only where the room ends |
| `Dns.NoNameNoText` | sources/applications/restful_server/mongoose.c:11138-11192 | Where there is none, the expansion fails unless the room was full before that showed |
| `Dns.ExpandIffName` | sources/applications/restful_server/mongoose.c:11138-11192 | With enough room the expansion succeeds if and only if there is a name |
| `Dns.Uncompress` | sources/applications/restful_server/mongoose.c:11138-11192 | The loop ends on every packet, reads only inside it, writes only the first dst_len bytes and delivers the specified text |
| `Dns.RoundTripIff` | sources/applications/restful_server/mongoose.c:10941-10968 | Expanding an encoded name, anywhere in a packet and into any room that is enough, gives the name back if and only if it is empty or all its labels have 1 to 63 bytes |
| `Dns.EncodeName` | sources/applications/restful_server/mongoose.c:10941-10968 | The encoded name is appended and its length returned; a label over 127 bytes gives -1 and leaves the labels before it appended |
| `Uri.ParseUri` | sources/applications/restful_server/mongoose.c:5315-5442 | The state loop ends on every text, in spite of its step back from user information, and is the parser that follows the grammar |
| `Uri.ParseComponent` | sources/applications/restful_server/mongoose.c:5301-5313 | A component up to the first separator, and the place behind it |
| `Uri.ParseInvertsAssemble` | sources/applications/restful_server/mongoose.c:5315-5442 | Every well-formed tuple, with or without scheme, user information, bracketed host, port, path, query and fragment, is read back from its assembled text |
| `Uri.ParseInvertsIff` | sources/applications/restful_server/mongoose.c:5315-5547 | Of all tuples, exactly the well-formed ones are read back: delimiters inside a part, a path without its slash before a query, user information without a scheme, an @ before the first bracket of a URI without user information, or a port of more than 32 bits always spoil it |
| `Uri.ParseSound` | sources/applications/restful_server/mongoose.c:5315-5442 | Whatever the text, the parts found keep their delimiters out, and user information comes only from behind a :// |
| `Uri.NumberDigits` | sources/applications/restful_server/mongoose.c:5411-5421 | Every 32-bit port printed in decimal is read back without wrapping |
| `Uri.AssembleUri` | sources/applications/restful_server/mongoose.c:5479-5547 | The parts in order with their marks; with normalisation the path in normal form, a slash if empty, and a refusal if it is relative |
| `Vectors.AllParts` | sources/applications/restful_server/mongoose.c:5479-5547 | A URI of all parts, with its marks |
| `Vectors.PortOf` | sources/applications/restful_server/mongoose.c:5411-5421 | Ports with digits, letters and bytes over 127 |
| `Base64.EncodedConcat` | sources/applications/restful_server/mongoose.c:447-457 | Whole groups of three bytes can be encoded apart from what follows |
| `Base64.CodeIs` | sources/applications/restful_server/mongoose.c:410-422 | Six bits are written as the letter of the standard |
| `Base64.FromCodeIff` | sources/applications/restful_server/mongoose.c:530-567 | A character is read as six bits if and only if, without its top bit, it is their letter, and as padding if and only if it is an equals sign |
| `Base64.RoundTrip` | sources/applications/restful_server/mongoose.c:569-588 | Decoding the text of any bytes gives the bytes back and uses all of the text |
| `Base64.Encoder.Update` | sources/applications/restful_server/mongoose.c:447-457 | After any pieces, the text emitted is that of the whole groups fed and the chunk holds the rest |
| `Base64.Encoder.Finish` | sources/applications/restful_server/mongoose.c:459-469 | The text emitted is the encoding of everything fed |
| `Base64.EncodePieces` | sources/applications/restful_server/mongoose.c:440-469 | However the input is cut, the pieces give the text of the whole |
| `Base64.Encode` | sources/applications/restful_server/mongoose.c:471-507 | The one-shot loop writes the same text, padded and ended by a zero byte |
| `Base64.Decode` | sources/applications/restful_server/mongoose.c:569-588 | Any text, with foreign characters or misplaced padding, is decoded up to the place and with the count specified |
| `ConfigStore.ReadLine` | sources/applications/restful_server/wiscam-config.c:69-98 | The next line with its end, or its first 256 bytes, a carriage return read as a line end, and a zero byte behind it; -1 at the end of the file. The zero goes behind the buffer exactly when the line has 256 bytes or more |
| `ConfigStore.SplitJoin` | sources/applications/restful_server/wiscam-config.c:69-98 | Lines and pieces of 256 bytes written one behind the other are read back as the same lines and pieces |
| `ConfigStore.WrittenLines` | sources/applications/restful_server/wiscam-config.c:146-190 | For every text file and value, long lines and line ends in the value included: the lines that start with the name become the lines of the entry, and all others are kept in order |
| `ConfigStore.OneLineIff` | sources/applications/restful_server/wiscam-config.c:69-98 | An entry is read as one line if and only if its value has no line end and it has at most 256 bytes |
| `ConfigStore.WrittenInPlace` | sources/applications/restful_server/wiscam-config.c:146-190 | An entry of one line takes the places of the lines that start with the name; every other line is verbatim where it was |
| `ConfigStore.WriteThenReadIff` | sources/applications/restful_server/wiscam-config.c:100-190 | Over all text files and values: a value is read back if and only if it is empty, or the name was in the file, the value ends within the 256 bytes of the line and has no blanks or, for a quoted one, no quote, carriage return or line end but at its very end; a missing name is not added |
| `ConfigStore.OtherReads` | sources/applications/restful_server/wiscam-config.c:100-190 | Over all text files and values: a name that is no prefix of the written one, nor it of the other, reads as before, unless the entry is written ahead of it and has a further line that starts with it; then it reads what is there |
| `ConfigStore.ReadsOthersAsBefore` | sources/applications/restful_server/wiscam-config.c:100-190 | An entry of one line changes what no other name reads, names that are prefixes of each other excepted |
| `ConfigStore.LongValueIsCut` | sources/applications/restful_server/wiscam-config.c:83-95 | A concrete value of A, 254 bytes and then Bz, that is read back without its tail while B reads z |
| `ConfigStore.LastWriteCountsIff` | sources/applications/restful_server/wiscam-config.c:146-190 | Over all text files and values: of two writes to a name the last one decides the whole file if and only if the name is not in the file or the first entry was one line |
| `ConfigStore.WritesCommuteIff` | sources/applications/restful_server/wiscam-config.c:146-190 | Over all values: two writes to names that are not prefixes of each other can be exchanged in every text file if and only if each leaves the entry of the other as it is |
| `ConfigStore.OneLineKeeps` | sources/applications/restful_server/wiscam-config.c:146-190 | Entries of one line meet that condition |
| `ConfigStore.AbsentNameChangesNothing` | sources/applications/restful_server/wiscam-config.c:146-190 | Writing a name that starts no line or piece of the file changes nothing but carriage returns |
| `ConfigStore.WriteFitsIff` | sources/applications/restful_server/wiscam-config.c:146-190 | The line buffer has room for a rewritten file if and only if it has for the lines kept and, if the name is there, for those of the entry |
| `ConfigStore.Store.ReadParam` | sources/applications/restful_server/wiscam-config.c:100-144 | The value of the first line that starts with the name, filled up with zeros; a missing name reads as nothing, with success. The byte behind the line buffer is written exactly when a line that fills it comes no later than that line |
| `ConfigStore.Store.WriteParam` | sources/applications/restful_server/wiscam-config.c:146-190 | The file becomes the rewritten file, or stays when it cannot be opened; the byte behind the line buffer is written exactly when some line fills it |
| `ConfigStore.Exchange` | sources/applications/restful_server/wiscam-config.c:100-190 | End to end: after setting and reading a value the caller has it, filled up with zeros, under exactly the condition above |
| `ConfigStore.ScannedRule` | sources/applications/restful_server/wiscam-config.c:130-136 | What is read from a line behind the name: blanks are skipped, then a word, or what stands between quotes |
| `ConfigStore.ContainsIff` | sources/applications/restful_server/wiscam-config.c:133-133 | Names are quoted if and only if SSID stands anywhere in them |
| `Vectors.Entries` | sources/applications/restful_server/wiscam-config.c:173-178 | The two forms of an entry, byte by byte |

## Left out

- Sockets, the event loop, TLS and timers: their effects are parameters or inputs of the methods.
- Failing allocations while a packet is put together (`mbuf_append` in the middle of a send): the send and receive paths take memory for granted; the buffer itself is modelled with the failure.
- `mbuf_resize`, `mbuf_trim` and the test for wrapping sizes in `mbuf_insert`: they do not change what a buffer holds.
- Sha1.Context.Update: pieces are at most 2^32 - 64 bytes, because the 32-bit index of the source's loop wraps above that.
- Md5.Context.Update: pieces are below 2^32 bytes, because the length added to the bit counter has 32 bits.
- The rounds of SHA-1 and MD5: the compression function is a parameter, and everything holds for any function in its place.
- WebSocket.StreamTheorem: the opcode of a reassembled message (the code clears it) and control frames inside a fragmented message (the code notes them as open) are not promised; the handshake and the ping timer are not modelled.
- ChunkedConnection.Receiver.OnReceive: one chunked message per connection, because the stored body length is not reset; after a chunk longer than memory nothing is promised, because the source then moves bytes outside its buffer; chunk extensions, trailers and the zeroing of freed bytes are not modelled.
- Mqtt.StreamTheorem: the fields defined by each packet type; what a reused message structure still holds from the packet before, and length fields of more than four bytes, are not modelled. The two bytes behind the buffered ones are a parameter.
- CoAP sending, acknowledging and the deduplication of messages, and giving back the memory of list nodes.
- LineEditor.Controller.HandleRead: carrying out a command is an event; `exit` and `quit`, which end the connection in the middle of a read, and the telnet filter in front of the editor are not modelled.
- ControllerOutput.Controller.HandleWrite: the telnet commands that are flushed before the text are not modelled; sizes do not wrap an `int`.
- Glob.MatchPrefix: what the source answers after it has run past the end of the string, unless the pattern ends there, depends on memory that is not modelled.
- Dns.EncodeName: names without zero bytes, as C strings are; headers, questions and records of a message are not modelled.
- RingBuffer.RunIsFifo: runs in which the first part of a wrapped flush is written whole or not at all, which is the exact condition; `buffer_reset`, which discards what is held, is not part of a run.
- Base64: the variant that prints to a file, which shares its body with the one modelled.
- ConfigStore.ReadLine: the byte behind the line buffer is part of the model and reported when it is written; what the source keeps in that byte is not.
- ConfigStore.WrittenLines: files, names and values without zero bytes, as text files and C strings are, and names without line ends; the methods and the specification cover the others, the laws about two operations do not.
- ConfigStore.Store.ReadParam: values fit the buffer of the caller, because `sscanf` does not check; null arguments are not modelled.
- The other parts of the server: HTTP parsing and file serving, multipart bodies, dates, cookies, digest authentication, CGI, SNTP, the resolver, and the REST dispatch of the camera.
