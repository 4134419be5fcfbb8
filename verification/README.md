# A verified model of the Taquin client's codecs and state machines

The Taquin client talks Socket.IO over WebSocket++ and writes its messages with RapidJSON. This project
models the code underneath the game and proves what it is for. Everything is proved for all inputs, all
runs or all interleavings; `dafny verify dfyconfig.toml` checks the whole project.

| modules | what they model |
|---|---|
| `JsonGrammar`, `JsonEvents` | what the recursive JSON reader does with a text, as functions of the text, the position and the events reported so far; a handler is any function of the events it has received |
| `JsonSyntax`, `JsonDerives` | the texts section 2 of RFC 4627 derives, as trees of lexemes; the reader accepts exactly those |
| `JsonErrors`, `JsonLiterals` | what the error of a refused text tells, and the texts of JSON in their own characters |
| `JsonMachine`, `JsonReader` | the table-driven reader, its equivalence with the recursive one, and both as methods over one cursor, one shared stack and one parse result |
| `JsonInsitu`, `JsonAlike` | parsing in place, over one buffer with a read and a write cursor: strings, and whole documents |
| `JsonDom`, `JsonText`, `JsonRoundTrip`, `JsonTrees`, `JsonMinusZero` | values, the document's handler stack, the text of a value, and printing and parsing there and back |
| `JsonWriter`, `JsonHandlers`, `JsonStrip`, `JsonVisitor` | `Writer` and `PrettyWriter`, their level stack, pretty text with its white space deleted, and `Accept` for any handler |
| `SioMessage`, `SioPacket`, `SioManager`, `SioCodec` | Socket.IO messages with numbered attachments, packet headers, reassembly, and the packet and packet manager objects |
| `SioText`, `SioFromJson`, `SioMalformed` | messages and packets in the characters that go over the wire, and what becomes of documents and payloads that no sender makes |
| `SocketRace`, `SocketHazards`, `SocketSerial` | a socket's threads interleaved at every shared access, what its lock does not prevent, and what each call does when nothing comes between |
| `SioSocket`, `SioSocketCalls`, `SioSocketAcks`, `SioSocketObject` | a socket's serialised runs, what its calls ask for, and the object |
| `SioClient`, `SioReconnect` | the connection state, and when, how often and after what delay it reconnects |
| `Utf8`, `Utf8Validator` | RapidJSON's UTF-8 codec and WebSocket++'s table-driven validator |
| `FrameMask`, `FrameMaskLoops`, `FrameHeader`, `FrameWire` | WebSocket masking by bytes and by machine words, and frame headers with their bits on the wire |
| `Md5`, `Base64`, `Base64Table`, `PoolAllocator`, `PoolObject` | the streaming digest, base64 and its table, and the pool allocator over a flat address space |
| `Bytes`, `Words`, `Options` | bytes, numbers as bytes, and values that may be missing |

Code that changes things step by step is a class or a method with loops, proved equal to a function of the
old state; the functions' properties are proved as lemmas. Members below are grouped by the file they model.

## Where the code does less than it is meant to

Each of these is a lemma, with the exact condition where there is one.

- An object with a `_placeholder` key whose value is not `false` does not survive the trip through
  `accept_message` and `from_json` (`SioMessage.Rebuilds`, an if-and-only-if, with `SioMessage.MarkedObjectLost`).
- A packet whose message is a number, a bool or null arrives without it, since `parse` looks for a brace, a
  bracket or a quote; and a packet with an id but no message arrives without its id
  (`SioManager.PacketReturns`, an if-and-only-if, with `SioManager.NumberLost`).
- `RAPIDJSON_ALIGN` masks with a 32-bit constant, so that requests above 2^32 - 4 bytes are cut down and
  blocks overlap (`PoolAllocator.AlignCovers` and `PoolAllocator.SoundExactly`, if-and-only-ifs, with
  `PoolAllocator.LargeBlocksOverlap`).
- A sender that sees the socket unconnected may queue its packet after the queue was drained for good. It can
  happen exactly when a sender stands between its branch and the lock while `on_connected` sets the flag
  (`SocketHazards.NoneLeftBehind` and `SocketHazards.StrandedExactly`, an if-and-only-if, with
  `SocketHazards.PacketStranded`).
- A thread past its null check may meet a null client pointer when `on_close` runs in between; a second
  `on_close` may be that thread. It can happen exactly when `on_close` clears the pointer while another thread
  has a use of it to come (`SocketHazards.NullNeverMet` and `SocketHazards.NullMetExactly`, an
  if-and-only-if, with `SocketHazards.NullClientReached`).
- After a `close()` the client may still reconnect: `close_impl` cancels a timer that is waiting, but a connection
  attempt that fails later, or a connection that drops before it is closed, is retried. It can happen exactly when
  there is a connection, or one in the making, and attempts are allowed (`SioReconnect.CloseStopsExactly`, an
  if-and-only-if).
- The literal `-0` is reported as the signed integer 0 and written back as `0`, which is reported as the
  unsigned one. Which texts change their events that way is `JsonMinusZero.RewrittenAlikeExactly`, an
  if-and-only-if, with `JsonTrees.MinusZeroRewritten`.

## Model

| member | source | states |
|---|---|---|
| `JsonMachine.IterativeAgrees` | taquin-client-cpp/libs/lib/rapidjson/include/rapidjson/reader.h:1039-1424 | On every text, from any position, for every handler and with or without stop-when-done, the table-driven parser and the recursive one give the same verdict and report the same events, counts included. |
| `JsonMachine.RunAgrees` | taquin-client-cpp/libs/lib/rapidjson/include/rapidjson/reader.h:1394-1424 | From any configuration whose stack mirrors the open containers, running the table to its end reports what the recursive parser would report from there. |
| `JsonMachine.TransitAgrees` | taquin-client-cpp/libs/lib/rapidjson/include/rapidjson/reader.h:1233-1372 | One transition is a step of the recursive parser seen from the frames: what is left to parse is unchanged, or both refuse. |
| `JsonMachine.Transit` | taquin-client-cpp/libs/lib/rapidjson/include/rapidjson/reader.h:1233-1372 | Unless it ends in the error state, a transition keeps the stack a mirror of the open containers and moves the cursor forward. |
| `JsonDerives.AcceptsExactly` | taquin-client-cpp/libs/lib/rapidjson/include/rapidjson/reader.h:399-975 | A text is accepted if and only if the grammar of section 2 of RFC 4627, with any value at the root and an escaped high surrogate followed by a low one, derives it with no number too big for a double; the events are those of the derivation. |
| `JsonDerives.TreeReads` | taquin-client-cpp/libs/lib/rapidjson/include/rapidjson/reader.h:473-555 | Every derived value, with its own white space, is read whole and reported, whatever follows. |
| `JsonDerives.TreeFound` | taquin-client-cpp/libs/lib/rapidjson/include/rapidjson/reader.h:473-555 | Every value the reader accepts has a derivation of exactly the bytes it took. |
| `JsonSyntax.CharsRead` | taquin-client-cpp/libs/lib/rapidjson/include/rapidjson/reader.h:672-728 | The chars of a string, escaped or not, are decoded to their bytes, up to the closing quote. |
| `JsonSyntax.CharsFound` | taquin-client-cpp/libs/lib/rapidjson/include/rapidjson/reader.h:672-728 | Whatever the string scanner accepts is such a list of chars. |
| `JsonSyntax.NumberRead` | taquin-client-cpp/libs/lib/rapidjson/include/rapidjson/reader.h:776-975 | A number with any fraction and exponent is read whole; it is refused exactly when its integer part or a positive exponent is too big. |
| `JsonErrors.ErrorTells` | taquin-client-cpp/libs/lib/rapidjson/include/rapidjson/reader.h:399-989 | Whatever text is refused, from any position: the byte at the offset of the error, or next to it, is not what its code says was expected there; and the code is Termination exactly when the handler refused the last event. |
| `JsonErrors.IterativeErrorTells` | taquin-client-cpp/libs/lib/rapidjson/include/rapidjson/reader.h:1375-1424 | The same for the table-driven reader, whose offset between tokens is the offending byte itself. |
| `JsonErrors.BlankRefused` | taquin-client-cpp/libs/lib/rapidjson/include/rapidjson/reader.h:399-428 | Both readers call a text without a value empty, at its end. |
| `JsonLiterals.Characters` | taquin-client-cpp/libs/lib/rapidjson/include/rapidjson/reader.h:473-594 | Brackets, comma, colon, quote, signs, words, white space and digits are those of section 2 of RFC 4627. |
| `JsonLiterals.HexMeans` | taquin-client-cpp/libs/lib/rapidjson/include/rapidjson/reader.h:598-616 | A hexadecimal digit of either case has its value. |
| `JsonLiterals.ShortMeans` | taquin-client-cpp/libs/lib/rapidjson/include/rapidjson/reader.h:675-694 | The eight short escapes and the bytes they stand for. |
| `JsonLiterals.PairMeans` | taquin-client-cpp/libs/lib/rapidjson/include/rapidjson/reader.h:700-706 | Two escaped surrogates give the character that UTF-16 (section 2.1 of RFC 2781) writes as that pair. |
| `JsonLiterals.CharMeans` | taquin-client-cpp/libs/lib/rapidjson/include/rapidjson/reader.h:672-728 | What each char of a string, raw, escaped, or an escaped pair, stands for. |
| `JsonLiterals.CharAllowed` | taquin-client-cpp/libs/lib/rapidjson/include/rapidjson/reader.h:672-728 | Which raw bytes, escapes and pairs of code units a string may have. |
| `JsonLiterals.NumberMeans` | taquin-client-cpp/libs/lib/rapidjson/include/rapidjson/reader.h:776-957 | A number has no leading zeros, and digits in each of its parts. |
| `JsonLiterals.NumberLimit` | taquin-client-cpp/libs/lib/rapidjson/include/rapidjson/reader.h:846-945 | It is refused as too big exactly from an integer part of 1.7976931348623157e308, or a positive exponent above 308. |
| `JsonReader.Reader.IterativeParse` | taquin-client-cpp/libs/lib/rapidjson/include/rapidjson/reader.h:1394-1424 | The loop over states, with strings, return states and counts on one shared stack, agrees with the recursive parser from wherever the stream stands and leaves the stack empty. |
| `JsonReader.Reader.Transit` | taquin-client-cpp/libs/lib/rapidjson/include/rapidjson/reader.h:1233-1372 | The pushes and pops on the shared stack keep two cells per open container, under whatever strings come and go. |
| `JsonReader.Reader.HandleError` | taquin-client-cpp/libs/lib/rapidjson/include/rapidjson/reader.h:1375-1391 | The error code chosen for each state, at the cursor, without overwriting an error already set. |
| `JsonReader.Reader.Parse` | taquin-client-cpp/libs/lib/rapidjson/include/rapidjson/reader.h:399-428 | The recursive parser's verdict, events and cursor are those of the grammar functions, for any handler and from wherever the stream stands. |
| `JsonReader.Reader.ParseValue` | taquin-client-cpp/libs/lib/rapidjson/include/rapidjson/reader.h:979-989 | The value at the cursor, as the grammar has it; the stack ends as it began. |
| `JsonReader.Reader.ParseObject` | taquin-client-cpp/libs/lib/rapidjson/include/rapidjson/reader.h:473-519 | Members up to the brace, the count reported in EndObject, every way to fail and a handler that stops. |
| `JsonReader.Reader.ParseArray` | taquin-client-cpp/libs/lib/rapidjson/include/rapidjson/reader.h:523-555 | Elements up to the bracket, the count reported in EndArray, every way to fail and a handler that stops. |
| `JsonReader.Reader.ParseString` | taquin-client-cpp/libs/lib/rapidjson/include/rapidjson/reader.h:643-667 | The copying parser reports the decoded string and leaves the stack as it found it. |
| `JsonReader.Reader.ParseStringToStream` | taquin-client-cpp/libs/lib/rapidjson/include/rapidjson/reader.h:672-728 | The scanner loop puts exactly the decoded bytes and a terminator on the stack, or stops at the right error. |
| `JsonReader.Reader.ParseHex4` | taquin-client-cpp/libs/lib/rapidjson/include/rapidjson/reader.h:598-616 | Four hexadecimal digits, or the offset of the first byte that is none. |
| `JsonReader.Reader.ParseTrail` | taquin-client-cpp/libs/lib/rapidjson/include/rapidjson/reader.h:688-702 | The second half of a surrogate pair and the code point of the pair, or the error where it is missing. |
| `JsonReader.Reader.ParseNull` | taquin-client-cpp/libs/lib/rapidjson/include/rapidjson/reader.h:558-567 | The word null and its event, or an error at the byte that differs. |
| `JsonReader.Reader.ParseTrue` | taquin-client-cpp/libs/lib/rapidjson/include/rapidjson/reader.h:570-579 | The word true and its event, or an error at the byte that differs. |
| `JsonReader.Reader.ParseFalse` | taquin-client-cpp/libs/lib/rapidjson/include/rapidjson/reader.h:582-594 | The word false and its event, or an error at the byte that differs. |
| `JsonReader.Reader.ParseNumber` | taquin-client-cpp/libs/lib/rapidjson/include/rapidjson/reader.h:776-975 | With 32- and 64-bit accumulators that may not wrap, the scanner reports the event the grammar has for the literal, or its error. |
| `JsonReader.Reader.Digits32` | taquin-client-cpp/libs/lib/rapidjson/include/rapidjson/reader.h:790-818 | The 32-bit accumulation stops before it would wrap, with the value exact so far. |
| `JsonReader.Reader.Digits64` | taquin-client-cpp/libs/lib/rapidjson/include/rapidjson/reader.h:822-844 | The 64-bit accumulation stops before it would wrap, with the value exact so far. |
| `JsonRoundTrip.IntegerLiteral` | taquin-client-cpp/libs/lib/rapidjson/include/rapidjson/reader.h:776-862 | An integer literal in the 64-bit range is reported exactly, as the narrowest event. |
| `JsonRoundTrip.AnyIntegerLiteral` | taquin-client-cpp/libs/lib/rapidjson/include/rapidjson/reader.h:776-972 | Every integer literal: its exact value in the narrowest event inside the 64-bit range; outside, a double below ten times the limit, and refused as too big from there on. |
| `JsonDom.ConstructorsAgree` | taquin-client-cpp/libs/lib/rapidjson/include/rapidjson/document.h:499-535 | Whichever constructor builds a number its flags depend on the value alone, each set exactly when its type holds the value. |
| `JsonDom.NumberSent` | taquin-client-cpp/libs/lib/rapidjson/include/rapidjson/document.h:1463-1468 | Accept sends an integer as Int, Uint, Int64 or Uint64, the first that holds it; the reader reports one without a sign as Uint or Uint64, and one with a sign as Int or Int64. |
| `JsonDom.Builds` | taquin-client-cpp/libs/lib/rapidjson/include/rapidjson/document.h:1872-1904 | The events of a value, from a deep copy or from the reader, put exactly that value on the document's stack, whatever lies below. |
| `JsonDom.PairsAreMembers` | taquin-client-cpp/libs/lib/rapidjson/include/rapidjson/document.h:1892-1896 | The names and values EndObject pops are the object's members, in order. |
| `JsonTrees.OneRoot` | taquin-client-cpp/libs/lib/rapidjson/include/rapidjson/document.h:1736-1746 | Every accepted text leaves one value on the document's stack, the one whose events were reported. |
| `JsonTrees.RewriteKeepsMeaning` | taquin-client-cpp/libs/lib/rapidjson/include/rapidjson/document.h:1736-1746 | Parsing, writing and parsing again gives the same document, and the same events but for the sign of -0. |
| `JsonTrees.PlainExactly` | taquin-client-cpp/libs/lib/rapidjson/include/rapidjson/reader.h:959-972 | A document's events are those of its rewritten text if and only if no signed 0 is among them. |
| `JsonMinusZero.RewrittenAlikeExactly` | taquin-client-cpp/libs/lib/rapidjson/include/rapidjson/reader.h:959-972 | Writing a document back and parsing it again gives the events of the first text if and only if that text, as section 2 of RFC 4627 derives it, has no number -0. |
| `JsonMinusZero.TreeHears` | taquin-client-cpp/libs/lib/rapidjson/include/rapidjson/reader.h:959-972 | A text's derivation reports a signed 0 if and only if it has a number -0. |
| `JsonTrees.MinusZeroRewritten` | taquin-client-cpp/libs/lib/rapidjson/include/rapidjson/reader.h:959-972 | The text -0 reports Int(0), and its rewritten text Uint(0). |
| `JsonRoundTrip.EscapeUndone` | taquin-client-cpp/libs/lib/rapidjson/include/rapidjson/writer.h:250-316 | The reader undoes the writer's escape of every byte. |
| `JsonRoundTrip.StringReadsBack` | taquin-client-cpp/libs/lib/rapidjson/include/rapidjson/reader.h:643-728 | A quoted string reads back to its bytes, as a string or as a key. |
| `JsonRoundTrip.ReadsBack` | taquin-client-cpp/libs/lib/rapidjson/include/rapidjson/reader.h:399-728 | The text of a value, in any layout and before any following text, reads back to the value's events and ends where it should. |
| `JsonRoundTrip.DocumentReadsBack` | taquin-client-cpp/libs/lib/rapidjson/include/rapidjson/reader.h:399-428 | A whole text reads back to its value's events, for every handler that does not stop. |
| `JsonRoundTrip.RootReadsBack` | taquin-client-cpp/libs/lib/rapidjson/include/rapidjson/reader.h:399-428 | With stop-when-done a root in the middle of a stream is read, and the cursor left behind it. |
| `JsonRoundTrip.ParseInvertsText` | taquin-client-cpp/libs/lib/rapidjson/include/rapidjson/document.h:1736-1746 | Writing a tree of null, bool, 64-bit integers, byte strings, arrays and objects and parsing the text leaves exactly that tree. |
| `JsonRoundTrip.TextInjective` | taquin-client-cpp/libs/lib/rapidjson/include/rapidjson/document.h:1433-1473 | Different trees have different texts. |
| `JsonWriter.ValueWritten` | taquin-client-cpp/libs/lib/rapidjson/include/rapidjson/writer.h:114-341 | From any page on which a value may stand, a value's events extend the output by exactly its text and count one value on the level. |
| `JsonWriter.DocumentWritten` | taquin-client-cpp/libs/lib/rapidjson/include/rapidjson/writer.h:114-174 | On a fresh writer, compact or pretty, a value's events give exactly its text, with the level stack empty and the root written. |
| `JsonLiterals.TextIs` | taquin-client-cpp/libs/lib/rapidjson/include/rapidjson/prettywriter.h:71-194 | The text of every value at every depth, character by character: words, decimal numerals, escapes, brackets, commas and colons, and for PrettyWriter line breaks, indents and the space after a colon. |
| `JsonLiterals.DocumentIs` | taquin-client-cpp/libs/lib/rapidjson/include/rapidjson/writer.h:114-341 | So for the whole text of a document. |
| `JsonHandlers.Writer.Handle` | taquin-client-cpp/libs/lib/rapidjson/include/rapidjson/writer.h:114-174 | Each event appends, pushes, pops and counts as the writer's page semantics has it. |
| `JsonHandlers.Writer.WriteString` | taquin-client-cpp/libs/lib/rapidjson/include/rapidjson/writer.h:250-316 | The loop appends the quoted and escaped string. |
| `JsonHandlers.Writer.Prefix` | taquin-client-cpp/libs/lib/rapidjson/include/rapidjson/writer.h:323-341 | Comma or colon by the parity of the level's count, and the count is raised; a second root is not reached. |
| `JsonHandlers.PrettyWriter.Handle` | taquin-client-cpp/libs/lib/rapidjson/include/rapidjson/prettywriter.h:71-140 | Each event on the same level stack, with line breaks and indents. |
| `JsonHandlers.PrettyWriter.PrettyPrefix` | taquin-client-cpp/libs/lib/rapidjson/include/rapidjson/prettywriter.h:150-189 | What stands before a value: comma, line break and indent, or colon and space. |
| `JsonHandlers.PrettyWriter.WriteIndent` | taquin-client-cpp/libs/lib/rapidjson/include/rapidjson/prettywriter.h:191-194 | As many indent characters as the level stack is deep, times the indent count. |
| `JsonHandlers.PrettyWriter.SetIndent` | taquin-client-cpp/libs/lib/rapidjson/include/rapidjson/prettywriter.h:59-64 | The indent character, which must be white space, and its count. |
| `JsonHandlers.Accept` | taquin-client-cpp/libs/lib/rapidjson/include/rapidjson/document.h:1433-1473 | The recursion over a value hands either writer exactly the value's events. |
| `JsonVisitor.Visit` | taquin-client-cpp/libs/lib/rapidjson/include/rapidjson/document.h:1433-1473 | For any handler, the recursion sends the value's events up to the first one the handler refuses. |
| `JsonVisitor.FeedStops` | taquin-client-cpp/libs/lib/rapidjson/include/rapidjson/document.h:1433-1473 | What is sent is a prefix of the events: all of them, or those up to and including the first refused. |
| `JsonHandlers.Write` | taquin-client-cpp/libs/lib/rapidjson/include/rapidjson/document.h:1433-1473 | Accept into a fresh Writer gives the value's compact text. |
| `JsonHandlers.WritePretty` | taquin-client-cpp/libs/lib/rapidjson/include/rapidjson/document.h:1433-1473 | Accept into a fresh PrettyWriter with any indent gives the value's text in that layout. |
| `JsonStrip.StripPretty` | taquin-client-cpp/libs/lib/rapidjson/include/rapidjson/prettywriter.h:71-194 | Deleting the white space outside string literals from PrettyWriter's text gives Writer's text, byte for byte. |
| `JsonStrip.PrettyReadsAlike` | taquin-client-cpp/libs/lib/rapidjson/include/rapidjson/prettywriter.h:71-194 | Both texts are accepted and parse to the same events. |
| `JsonInsitu.InsituReader.ParseString` | taquin-client-cpp/libs/lib/rapidjson/include/rapidjson/reader.h:643-667 | In-place parsing reports what copying does; the string stays, terminated, where its quote was; the writer stays behind the reader and no byte from it on, or before the string, changes. |
| `JsonInsitu.InsituReader.ParseStringToStream` | taquin-client-cpp/libs/lib/rapidjson/include/rapidjson/reader.h:672-728 | The scanner loop over one buffer: decoded bytes overwrite the text strictly behind the read cursor. |
| `JsonInsitu.InsituReader.ParseEscape` | taquin-client-cpp/libs/lib/rapidjson/include/rapidjson/reader.h:682-708 | An escape, even a surrogate pair, writes no further than it has read. |
| `JsonInsitu.InsituReader.Put` | taquin-client-cpp/libs/lib/rapidjson/include/rapidjson/rapidjson.h:591 | One byte at the write cursor, no other changed. |
| `JsonInsitu.InsituReader.ParseInsitu` | taquin-client-cpp/libs/lib/rapidjson/include/rapidjson/reader.h:399-428 | From wherever the stream stands and whatever strings earlier parses left in the buffer, in-place parsing gives the verdict and the events of copying, and every string ever reported stands in the buffer at the end, terminated. |
| `JsonInsitu.InsituReader.ParseText` | taquin-client-cpp/libs/lib/rapidjson/include/rapidjson/reader.h:643-667 | A string decoded in place leaves every string reported before it as it stands. |
| `JsonAlike.ScalarAlike` | taquin-client-cpp/libs/lib/rapidjson/include/rapidjson/rapidjson.h:580-603 | The scanners depend on nothing behind the read cursor. |
| `SioMessage.AcceptMessage` | taquin-client-cpp/libs/src/internal/sio_packet.cpp:88-136 | A message becomes its DOM with numbered placeholders; its binary values are appended, framed, to the buffers. |
| `SioMessage.AcceptArray` | taquin-client-cpp/libs/src/internal/sio_packet.cpp:66-74 | Elements in order, each numbered from where the one before left off. |
| `SioMessage.AcceptObject` | taquin-client-cpp/libs/src/internal/sio_packet.cpp:76-86 | Entries in the map's order, each numbered from where the one before left off. |
| `SioMessage.PutUpdates` | taquin-client-cpp/libs/src/sio_message.h:354-357 | The model of a std::map insert: an update of one key that keeps the entries in key order. |
| `SioMessage.Rebuilds` | taquin-client-cpp/libs/src/internal/sio_packet.cpp:138-195 | from_json on the DOM and attachments of a message gives the message back if and only if none of its objects has a _placeholder key with a value other than false. |
| `SioMessage.MarkedObjectLost` | taquin-client-cpp/libs/src/internal/sio_packet.cpp:138-195 | An object whose only entry is a true _placeholder does not come back. |
| `SioMessage.Numbered` | taquin-client-cpp/libs/src/internal/sio_packet.cpp:48-64 | Placeholder numbers are consecutive in traversal order, from the buffers already there. |
| `SioFromJson.ObjectRead` | taquin-client-cpp/libs/src/internal/sio_packet.cpp:166-186 | An object without a true placeholder mark becomes the map of its members, where the last of a name counts; it fails exactly when one of its members does. |
| `SioFromJson.ArrayRead` | taquin-client-cpp/libs/src/internal/sio_packet.cpp:155-162 | An array becomes the list of its elements; it fails exactly when one of them does. |
| `SioFromJson.NumberRead` | taquin-client-cpp/libs/src/internal/sio_packet.cpp:138-148 | An integer is one if it fits 64 signed bits; a larger one becomes a null pointer. |
| `SioFromJson.MarkRead` | taquin-client-cpp/libs/src/internal/sio_packet.cpp:163-176 | A marked object becomes the buffer its number names, or a null pointer when there is none; without a number that fits an int, or with a mark that is no bool, an assertion fails. |
| `SioFromJson.FindsFirst` | taquin-client-cpp/libs/lib/rapidjson/include/rapidjson/document.h:914-925 | FindMember finds the first member of a name. |
| `SioText.DomText` | taquin-client-cpp/libs/src/internal/sio_packet.cpp:22-136 | The JSON text of every message, character by character, placeholders and their numbers included. |
| `SioPacket.HeaderParsed` | taquin-client-cpp/libs/src/internal/sio_packet.cpp:273-346 | What parse makes of every encoded packet: frame, type, namespace, id, number of attachments, and the message, the JSON text or nothing. |
| `SioPacket.KindParsed` | taquin-client-cpp/libs/src/internal/sio_packet.cpp:273-293 | The type and the count of attachments are taken off the front, whatever follows. |
| `SioPacket.NspParsed` | taquin-client-cpp/libs/src/internal/sio_packet.cpp:295-334 | Namespace, id and JSON text are told apart, with and without a comma. |
| `SioPacket.IdParsed` | taquin-client-cpp/libs/src/internal/sio_packet.cpp:330-334 | The search for the JSON text passes over the id, and the id reads back. |
| `SioPacket.DomPrintable` | taquin-client-cpp/libs/src/internal/sio_packet.cpp:88-136 | The DOM of a message without doubles is one the writer and the reader take there and back. |
| `SioText.HeaderIs` | taquin-client-cpp/libs/src/internal/sio_packet.cpp:348-399 | The first payload of every packet, character by character: 4, the digit of the type, the count and a dash, the namespace and a comma, the id, and the JSON text. |
| `SioText.PayloadsAre` | taquin-client-cpp/libs/src/internal/sio_packet.cpp:443-473 | That text, and each binary value behind a byte 4. |
| `SioManager.PacketReturns` | taquin-client-cpp/libs/src/internal/sio_packet.cpp:475-516 | An encoded packet is delivered whole if and only if its message is a string, binary, array or object without a placeholder look-alike, or it has neither message nor id. |
| `SioManager.ReturnsAmid` | taquin-client-cpp/libs/src/internal/sio_packet.cpp:475-516 | Such a packet is delivered whatever other is awaited; one with attachments takes the place of that other. |
| `SioManager.UnframedArrives` | taquin-client-cpp/libs/src/internal/sio_packet.cpp:273-346 | A packet whose message is a number, a bool or null, or that has none, arrives without message and without id. |
| `SioManager.NumberLost` | taquin-client-cpp/libs/src/internal/sio_packet.cpp:273-346 | So does an event packet that carries a number. |
| `SioManager.FrameReturns` | taquin-client-cpp/libs/src/internal/sio_packet.cpp:348-354 | A packet of another frame, such as a ping, is one byte and arrives as that frame at once, whatever is awaited. |
| `SioManager.OtherFrameDelivered` | taquin-client-cpp/libs/src/internal/sio_packet.cpp:273-346 | A payload of any other frame that carries a message, such as the handshake, is delivered at once with that message and the namespace "/", whatever is awaited. |
| `SioManager.OtherFrameParsed` | taquin-client-cpp/libs/src/internal/sio_packet.cpp:273-346 | So is any JSON text behind such a frame, with what from_json makes of it. |
| `SioMalformed.UnknownKindDelivered` | taquin-client-cpp/libs/src/internal/sio_packet.cpp:283-287 | A message of an unknown type is delivered with that type and nothing else. |
| `SioMalformed.CountRefused` | taquin-client-cpp/libs/src/internal/sio_packet.cpp:289-292 | A count of attachments that is no number ends in an exception, with a dash behind it or none. |
| `SioMalformed.IdRefused` | taquin-client-cpp/libs/src/internal/sio_packet.cpp:330-333 | So does an id that is no number. |
| `SioMalformed.IdTaken` | taquin-client-cpp/libs/src/internal/sio_packet.cpp:330-345 | Any run of digits, after a plus, a minus or no sign, is the id if it fits an int, and ends in an exception if it does not. |
| `SioMalformed.EventParsed` | taquin-client-cpp/libs/src/internal/sio_packet.cpp:339-345 | An event whose text is no JSON arrives with a null message; any other with what from_json makes of its document. |
| `SioMalformed.StrayAttachment` | taquin-client-cpp/libs/src/internal/sio_packet.cpp:489-499 | An attachment that no header has announced is passed over. |
| `SioManager.PacketsDelivered` | taquin-client-cpp/libs/src/internal/sio_packet.cpp:443-516 | The payloads of any list of such packets, with any frames in between that neither are nor announce attachments, deliver exactly those packets, in order. |
| `SioManager.Reassembled` | taquin-client-cpp/libs/src/internal/sio_packet.cpp:253-271 | A header given its attachments is delivered with its message rebuilt from them. |
| `SioManager.BystanderAlone` | taquin-client-cpp/libs/src/internal/sio_packet.cpp:475-516 | A heartbeat or other such payload leaves the partial packet alone and is handled as if there were none. |
| `SioManager.HeldAndPending` | taquin-client-cpp/libs/src/internal/sio_packet.cpp:253-271 | From a header on, through any attachments and bystanders, buffers held plus buffers pending stays one more than the announced count. |
| `SioCodec.Packet.Accept` | taquin-client-cpp/libs/src/internal/sio_packet.cpp:348-399 | One byte for a frame other than message; else the header text and the attachment frames, assembled piece by piece, the type settling on its binary form exactly when there are attachments. |
| `SioCodec.Packet.Parse` | taquin-client-cpp/libs/src/internal/sio_packet.cpp:273-346 | Every way parse ends, fields and all, malformed payloads included. |
| `SioCodec.Packet.ParseBuffer` | taquin-client-cpp/libs/src/internal/sio_packet.cpp:253-271 | An attachment is stored without its frame byte; the last one completes the packet. |
| `SioCodec.Packet.Message` | taquin-client-cpp/libs/src/internal/sio_packet.cpp:197-207 | An event or ack packet, its type still to be settled. |
| `SioCodec.PacketManager.PutPayload` | taquin-client-cpp/libs/src/internal/sio_packet.cpp:475-516 | Text, attachment or other: the partial packet and the delivery are those of the run semantics, and held plus pending stays one above the announced count. |
| `SioCodec.PacketManager.Encode` | taquin-client-cpp/libs/src/internal/sio_packet.cpp:443-473 | For a packet of any frame, the header goes out first and marked as text, then every attachment marked as binary. |
| `SioCodec.PacketManager.Reset` | taquin-client-cpp/libs/src/internal/sio_packet.cpp:438-441 | The partial packet is dropped. |
| `SocketRace.NothingLost` | taquin-client-cpp/libs/src/sio_socket.cpp:300-372 | In every interleaving of any number of send_packet, on_connected, on_disconnect and on_close calls, every packet accepted is sent, in flight, queued, cleared or with its caller, as often as it was accepted. |
| `SocketRace.NoneSentTwice` | taquin-client-cpp/libs/src/sio_socket.cpp:491-515 | So a packet accepted once reaches the client at most once, and never both the client and a clearing loop. |
| `SocketRace.LockServes` | taquin-client-cpp/libs/src/sio_socket.cpp:491-515 | At most one thread is between lock and unlock, and packets leave the queue in the order they entered it. |
| `SocketHazards.NoneLeftBehind` | taquin-client-cpp/libs/src/sio_socket.cpp:300-325 | In every interleaving where no sender stands between its unconnected branch and the lock when a thread sets the connected flag, no packet is left queued on a connected socket with every call returned. |
| `SocketHazards.StrandedExactly` | taquin-client-cpp/libs/src/sio_socket.cpp:491-515 | With the flag about to be set and everyone else returned or about to queue a packet, the threads at work can leave one behind if and only if somebody is about to queue one. |
| `SocketHazards.LeftBehind` | taquin-client-cpp/libs/src/sio_socket.cpp:491-515 | Whatever is queued and whoever else is under way, the two threads alone can end with the sender's packet alone in the queue of a connected socket. |
| `SocketHazards.PacketStranded` | taquin-client-cpp/libs/src/sio_socket.cpp:491-515 | Such a state is reached from the start. |
| `SocketHazards.NullNeverMet` | taquin-client-cpp/libs/src/sio_socket.cpp:327-347 | In every interleaving where on_close clears the client pointer only while no other thread has a use of it to come, no thread ever meets a null pointer. |
| `SocketHazards.NullMetExactly` | taquin-client-cpp/libs/src/sio_socket.cpp:327-347 | With on_close about to clear the pointer, another thread can come to meet it null if and only if its null check is still ahead or passed with a use to come. |
| `SocketHazards.StuckExactly` | taquin-client-cpp/libs/src/sio_socket.cpp:300-347 | A thread that cannot move has returned, waits for the lock, or would use a null pointer. |
| `SocketHazards.NullClientReached` | taquin-client-cpp/libs/src/sio_socket.cpp:327-347 | A sender past its null check does come to stand before its send with the pointer null. |
| `SocketSerial.SendAlone` | taquin-client-cpp/libs/src/sio_socket.cpp:491-515 | A thread in send_packet that nothing comes between does nothing on a closed socket, sends the queue and then its packet on a connected one, and queues its packet on any other. |
| `SocketSerial.OpenAlone` | taquin-client-cpp/libs/src/sio_socket.cpp:300-325 | on_connected by itself connects and sends the queue, unless the socket is closed or connected. |
| `SocketSerial.DropAlone` | taquin-client-cpp/libs/src/sio_socket.cpp:354-365 | on_disconnect by itself clears the queue of a connected socket and leaves any other alone. |
| `SocketSerial.CloseAlone` | taquin-client-cpp/libs/src/sio_socket.cpp:327-347 | on_close by itself takes the pointer, disconnects and clears the queue. |
| `SioSocket.EmittedInOrder` | taquin-client-cpp/libs/src/sio_socket.cpp:248-365 | In every run of serialised calls packets go out in the order emitted, a connected socket holds none back, and none is lost unless the socket was closed. |
| `SioSocketCalls.CallsObeyed` | taquin-client-cpp/libs/src/sio_socket.cpp:248-515 | Read off the calls alone, in every run: the socket is open until a disconnect packet or a time-out, and connected from a connect packet until the connection is lost; the client was handed exactly the packets the calls ask for up to when it was last connected, names, arguments, namespaces and ids written out, with a connect packet for each opening; the rest is queued in order, and dropped only by a close. |
| `SioSocketCalls.NothingForgotten` | taquin-client-cpp/libs/src/sio_socket.cpp:491-515 | What is on the wire, queued and dropped is, in order, exactly what the calls ask for while the socket is open: every emit, nested emit, reply and disconnect. |
| `SioSocketAcks.AcksObeyed` | taquin-client-cpp/libs/src/sio_socket.cpp:248-471 | While the ids do not wrap, exactly the callbacks the calls ask for are called, in order: each emission leaves its own, and the ack packet that carries its id calls it, once. |
| `SioSocket.ConnectOrderly` | taquin-client-cpp/libs/src/sio_socket.cpp:300-325 | On connecting, the queue goes out before anything the open listener emits. |
| `SioSocket.ClosedStaysInert` | taquin-client-cpp/libs/src/sio_socket.cpp:327-347 | Once on_close has run no call changes or sends anything. |
| `SioSocket.EachAckOnce` | taquin-client-cpp/libs/src/sio_socket.cpp:248-265 | While the id counter does not wrap, each ack callback that fires was registered under the id it fires for, and no id fires twice. |
| `SioSocket.FiresForItsId` | taquin-client-cpp/libs/src/sio_socket.cpp:458-471 | Only an ack packet for an open socket of its namespace fires a callback: the one registered under its id. |
| `SioSocketObject.EventIds.Draw` | taquin-client-cpp/libs/src/sio_socket.cpp:246-255 | The global counter hands out its value and wraps at 32 bits. |
| `SioSocketObject.Socket.constructor` | taquin-client-cpp/libs/src/sio_socket.cpp:229-239 | A new socket asks to be connected at once if the client is open and the namespace is not the root. |
| `SioSocketObject.Socket.Emit` | taquin-client-cpp/libs/src/sio_socket.cpp:248-265 | Id, ack registration and packet, or nothing on a closed socket. |
| `SioSocketObject.Socket.SendPacket` | taquin-client-cpp/libs/src/sio_socket.cpp:491-515 | Drain, then send; or queue. |
| `SioSocketObject.Socket.OnConnected` | taquin-client-cpp/libs/src/sio_socket.cpp:300-325 | Connected, then the listener's emits, then the drain. |
| `SioSocketObject.Socket.OnClose` | taquin-client-cpp/libs/src/sio_socket.cpp:327-347 | Client and connection gone, the queue cleared into the lost. |
| `SioSocketObject.Socket.OnDisconnect` | taquin-client-cpp/libs/src/sio_socket.cpp:354-365 | Clears only when connected, so what was queued before connecting survives. |
| `SioSocketObject.Socket.OnOpen` | taquin-client-cpp/libs/src/sio_socket.cpp:267-280 | A connect packet straight to the client, except for the root namespace. |
| `SioSocketObject.Socket.Close` | taquin-client-cpp/libs/src/sio_socket.cpp:282-298 | A disconnect packet if connected. |
| `SioSocketObject.Socket.OnAck` | taquin-client-cpp/libs/src/sio_socket.cpp:458-471 | The callback is taken out of the map before it is called. |
| `SioSocketObject.Socket.OnPacket` | taquin-client-cpp/libs/src/sio_socket.cpp:367-450 | Dispatch by type for the socket's own namespace, with what listeners emit on the way and the reply to an event that asks for one. |
| `SioClient.BackoffBounded` | taquin-client-cpp/libs/src/internal/sio_client_impl.cpp:312-439 | In every run with fixed settings, close and sync_close at any time included, with waits that end before they can be cancelled, attempts never exceed the allowed number, and the delays announced since the last open or accepted connect never shrink and never pass the maximum. |
| `SioClient.DelayMonotone` | taquin-client-cpp/libs/src/internal/sio_client_impl.cpp:329-334 | More attempts never make the delay shorter. |
| `SioClient.SettersAgree` | taquin-client-cpp/libs/src/internal/sio_client_impl.h:113-117 | The setters in any order keep the delay at or below its maximum. |
| `SioClient.StepBounded` | taquin-client-cpp/libs/src/internal/sio_client_impl.cpp:362-439 | Every event that can come keeps the attempts and the announced delays bounded, and at most one wait under way or ended. |
| `SioClient.NextDelay` | taquin-client-cpp/libs/src/internal/sio_client_impl.cpp:329-334 | The next delay is between the first one and the maximum. |
| `SioReconnect.DelayIs` | taquin-client-cpp/libs/src/internal/sio_client_impl.cpp:329-334 | In whole milliseconds: the first delay times 3^n over 2^n, n being the attempts made and at most 32, rounded down and cut at the maximum. |
| `SioReconnect.RetriesExactly` | taquin-client-cpp/libs/src/internal/sio_client_impl.cpp:362-433 | In every reachable state: after a failure or an abnormal close the listener is told once, with the attempts made and that delay, and the timer runs, if and only if attempts are left; after a normal close neither. |
| `SioReconnect.RoundsTry` | taquin-client-cpp/libs/src/internal/sio_client_impl.cpp:312-433 | Loss after loss, as many attempts are made as there are losses, up to the number allowed; one loss more and the client has given up. |
| `SioReconnect.AttemptsMade` | taquin-client-cpp/libs/src/internal/sio_client_impl.cpp:312-433 | From an accepted connect, or a connection that opened, the attempts are counted afresh. |
| `SioReconnect.CloseStopsExactly` | taquin-client-cpp/libs/src/internal/sio_client_impl.cpp:138-143 | A close by the user rules out further attempts if and only if no connection is there or in the making, or none are allowed. |
| `SioReconnect.ConnectLeavesAlone` | taquin-client-cpp/libs/src/internal/sio_client_impl.cpp:66-86 | connect on a connection that is open or in the making changes nothing. |
| `SioReconnect.SyncCloseJoins` | taquin-client-cpp/libs/src/internal/sio_client_impl.cpp:145-155 | sync_close waits for the network thread if there is one, lets no connect in until then, and leaves none. |
| `SioReconnect.LastSetterWins` | taquin-client-cpp/libs/src/internal/sio_client_impl.h:113-117 | The last setter of a kind has its way, and the other delay moves only as far as it must. |
| `SioClient.ClientImpl.constructor` | taquin-client-cpp/libs/src/internal/sio_client_impl.cpp:27-36 | The default settings, which are consistent. |
| `SioClient.ClientImpl.SetReconnectDelay` | taquin-client-cpp/libs/src/internal/sio_client_impl.h:115 | The delay asked for, the maximum raised if it must be. |
| `SioClient.ClientImpl.SetReconnectDelayMax` | taquin-client-cpp/libs/src/internal/sio_client_impl.h:117 | The maximum asked for, the delay lowered if it must be. |
| `SioClient.ClientImpl.Connect` | taquin-client-cpp/libs/src/internal/sio_client_impl.cpp:66-86 | Up to the join: accepted, ignored or waiting by the state of the connection; the timer is cancelled either way. |
| `SioClient.ClientImpl.ConnectJoined` | taquin-client-cpp/libs/src/internal/sio_client_impl.cpp:87-106 | The rest of connect once the network thread has ended. |
| `SioClient.ClientImpl.SyncClose` | taquin-client-cpp/libs/src/internal/sio_client_impl.cpp:145-150 | Up to the join: closing, and waiting for the network thread if there is one. |
| `SioClient.ClientImpl.CloseJoined` | taquin-client-cpp/libs/src/internal/sio_client_impl.cpp:150-154 | The rest of sync_close: the network thread is gone, and nothing else has changed. |
| `SioClient.ClientImpl.OnFail` | taquin-client-cpp/libs/src/internal/sio_client_impl.cpp:362-382 | Closed, and another attempt scheduled if any are left. |
| `SioClient.ClientImpl.OnOpen` | taquin-client-cpp/libs/src/internal/sio_client_impl.cpp:384-393 | Open, with the attempts counted afresh. |
| `SioClient.ClientImpl.OnClose` | taquin-client-cpp/libs/src/internal/sio_client_impl.cpp:395-439 | Closed; after an abnormal close another attempt if any are left. |
| `SioClient.ClientImpl.TimeoutReconnect` | taquin-client-cpp/libs/src/internal/sio_client_impl.cpp:312-327 | One more attempt, unless the wait was cancelled or the client is no longer closed. |
| `Utf8.EncodeCarries` | taquin-client-cpp/libs/lib/rapidjson/include/rapidjson/encodings.h:107-127 | The table of section 3 of RFC 3629: the bits of the code point in order, in the shortest of the four forms. |
| `Utf8.Decode` | taquin-client-cpp/libs/lib/rapidjson/include/rapidjson/encodings.h:129-156 | Accepts exactly where the encoding of a Unicode scalar value starts, with its code point and length. |
| `Utf8.Validate` | taquin-client-cpp/libs/lib/rapidjson/include/rapidjson/encodings.h:158-183 | Its own switch, which copies bytes and keeps only a verdict, decides as Decode does; what it copied are the bytes it read, the encoding when it accepts. |
| `Utf8Validator.AcceptsExactly` | taquin-client-cpp/libs/lib/websocketpp/websocketpp/utf8_validator.hpp:45-78 | The table machine accepts exactly the concatenations of encodings of scalar values. |
| `Utf8Validator.EncodingRuns` | taquin-client-cpp/libs/lib/websocketpp/websocketpp/utf8_validator.hpp:69-78 | The code point of a character stands in the machine at its last byte, with neither accept nor reject on the way. |
| `Utf8Validator.EncodeAllRuns` | taquin-client-cpp/libs/lib/websocketpp/websocketpp/utf8_validator.hpp:69-78 | After any text of encodings the machine accepts and holds the last code point. |
| `Utf8Validator.RejectStays` | taquin-client-cpp/libs/lib/websocketpp/websocketpp/utf8_validator.hpp:45-60 | The reject state is never left. |
| `Utf8Validator.DecodersAgree` | taquin-client-cpp/libs/lib/rapidjson/include/rapidjson/encodings.h:129-183 | UTF8::Decode accepts at a position exactly if the machine started there comes to accept, and then where it first does, with the same code point. |
| `Utf8Validator.Validator.Consume` | taquin-client-cpp/libs/lib/websocketpp/websocketpp/utf8_validator.hpp:91-96 | One byte more; false exactly in the reject state. |
| `Utf8Validator.Validator.Decode` | taquin-client-cpp/libs/lib/websocketpp/websocketpp/utf8_validator.hpp:105-118 | A chunk, left at the first reject, counts as wholly seen. |
| `Utf8Validator.Validator.Complete` | taquin-client-cpp/libs/lib/websocketpp/websocketpp/utf8_validator.hpp:124-126 | True exactly when everything seen is well formed. |
| `Utf8Validator.ValidateChunks` | taquin-client-cpp/libs/lib/websocketpp/websocketpp/utf8_validator.hpp:105-149 | The chunking does not matter: valid exactly when the concatenation is well formed. |
| `FrameMask.MaskedTwice` | taquin-client-cpp/libs/lib/websocketpp/websocketpp/frame.hpp:641-652 | Masking twice is the identity. |
| `FrameMask.MaskedConcat` | taquin-client-cpp/libs/lib/websocketpp/websocketpp/frame.hpp:641-652 | Masking in two pieces, the second with the rotated key, is masking the whole. |
| `FrameMask.MaskedBits` | taquin-client-cpp/libs/lib/websocketpp/websocketpp/frame.hpp:641-652 | Section 5.3 of RFC 6455 bit by bit: each bit of byte i is flipped exactly if the same bit of key byte i modulo 4 is set. |
| `FrameMask.XorStored` | taquin-client-cpp/libs/lib/websocketpp/websocketpp/frame.hpp:707-709 | Xor of machine words is xor of their bytes in memory, for both sizes and both byte orders. |
| `FrameMask.PrepareStores` | taquin-client-cpp/libs/lib/websocketpp/websocketpp/frame.hpp:595-605 | A prepared key repeats the four key bytes in memory, for both sizes and both byte orders. |
| `FrameMask.CircRotates` | taquin-client-cpp/libs/lib/websocketpp/websocketpp/frame.hpp:612-620 | The shift rotates the key in memory by the offset, the identity at 0, and the result is again a prepared key. |
| `FrameMaskLoops.ByteMask` | taquin-client-cpp/libs/lib/websocketpp/websocketpp/frame.hpp:641-652 | The byte loop with its running key index xors byte i with key byte offset plus i modulo 4. |
| `FrameMaskLoops.WordMaskExact` | taquin-client-cpp/libs/lib/websocketpp/websocketpp/frame.hpp:699-714 | Words and the bytes left over together equal one byte mask, in place or not. |
| `FrameMaskLoops.WordMaskCirc` | taquin-client-cpp/libs/lib/websocketpp/websocketpp/frame.hpp:765-787 | A chunk equals its byte mask, and the key returned is the key rotated by the chunk's length. |
| `FrameMaskLoops.ByteMaskCirc` | taquin-client-cpp/libs/lib/websocketpp/websocketpp/frame.hpp:827-838 | The same for the byte loop on the low half of the prepared key. |
| `FrameMaskLoops.MaskChunks` | taquin-client-cpp/libs/lib/websocketpp/websocketpp/frame.hpp:765-838 | A payload cut into any chunks, masked by any mix of the two with the key passed along, equals one byte mask of the whole. |
| `FrameHeader.HeaderReadsBack` | taquin-client-cpp/libs/lib/websocketpp/websocketpp/frame.hpp:489-585 | Every header reads back from the wire to the fields it was built from, in get_header_len bytes and at most 14. |
| `FrameHeader.ShortestForm` | taquin-client-cpp/libs/lib/websocketpp/websocketpp/frame.hpp:214-227 | The size takes the shortest of the three forms that can hold it. |
| `FrameHeader.KeepsSize` | taquin-client-cpp/libs/lib/websocketpp/websocketpp/frame.hpp:235-275 | The extended header holds the size in network order and the key behind it, whatever follows. |
| `FrameHeader.FirstByte` | taquin-client-cpp/libs/lib/websocketpp/websocketpp/frame.hpp:194-213 | The flags and the opcode stand apart in the first byte. |
| `FrameWire.HeaderOnTheWire` | taquin-client-cpp/libs/lib/websocketpp/websocketpp/frame.hpp:177-275 | Section 5.2 of RFC 6455 in arithmetic: every flag, the opcode, the mask bit and the size code by their weights, the extended size in falling powers of 256, and the key behind it. |
| `FrameWire.HeaderFromTheWire` | taquin-client-cpp/libs/lib/websocketpp/websocketpp/frame.hpp:330-585 | The same for any header received, a size that is not in its shortest form included. |
| `FrameHeader.BasicHeader.constructor` | taquin-client-cpp/libs/lib/websocketpp/websocketpp/frame.hpp:194-228 | The bits set one after the other are the header of the fields. |
| `FrameHeader.BasicHeader.SetFlag` | taquin-client-cpp/libs/lib/websocketpp/websocketpp/frame.hpp:330-386 | Setting or clearing one flag changes no other and not the opcode. |
| `FrameHeader.BasicHeader.SetMasked` | taquin-client-cpp/libs/lib/websocketpp/websocketpp/frame.hpp:411-413 | Setting or clearing the mask flag does not change the size. |
| `Md5.Md5State.constructor` | taquin-client-cpp/libs/lib/websocketpp/websocketpp/common/md5.hpp:349-355 | The initial digest buffer of RFC 1321 and nothing seen. |
| `Md5.Md5State.Append` | taquin-client-cpp/libs/lib/websocketpp/websocketpp/common/md5.hpp:357-391 | Whatever is appended, the digest holds the whole blocks of everything seen, the buffer the rest, and the two words its bit length modulo 2^64. |
| `Md5.Md5State.Count` | taquin-client-cpp/libs/lib/websocketpp/websocketpp/common/md5.hpp:366-370 | The two 32-bit words, with carry, count the bits modulo 2^64. |
| `Md5.Md5State.Finish` | taquin-client-cpp/libs/lib/websocketpp/websocketpp/common/md5.hpp:393-412 | The digest is the fold of the block function over the padded message of sections 3.1 and 3.2 of RFC 1321. |
| `Md5.HashPieces` | taquin-client-cpp/libs/lib/websocketpp/websocketpp/common/md5.hpp:357-429 | Only the concatenation of the pieces matters. |
| `Md5.CountsAdd` | taquin-client-cpp/libs/lib/websocketpp/websocketpp/common/md5.hpp:366-370 | Adding a length in 32-bit words with carry adds it modulo 2^64. |
| `Md5.OffsetIs` | taquin-client-cpp/libs/lib/websocketpp/websocketpp/common/md5.hpp:360 | The low count word gives the place in the buffer and the length of the padding. |
| `Md5.InitialBytes` | taquin-client-cpp/libs/lib/websocketpp/websocketpp/common/md5.hpp:349-355 | The initial buffer is 01 23 45 67 up to 32 10, low-order bytes first, as section 3.3 of RFC 1321 has it. |
| `Md5.PaddedIs` | taquin-client-cpp/libs/lib/websocketpp/websocketpp/common/md5.hpp:393-412 | The padding byte by byte: 128, zeros, and the length in bits in the last eight bytes, in no more blocks than that takes. |
| `Base64.DecodeInvertsEncode` | taquin-client-cpp/libs/lib/websocketpp/websocketpp/base64/base64.hpp:66-174 | Decoding undoes encoding, for every byte string. |
| `Base64.EncodeShape` | taquin-client-cpp/libs/lib/websocketpp/websocketpp/base64/base64.hpp:66-112 | Length four thirds rounded up to groups; the alphabet but for the padding, one = for each byte missing from the last group. |
| `Base64Table.EncodedIs` | taquin-client-cpp/libs/lib/websocketpp/websocketpp/base64/base64.hpp:43-112 | Every character of every encoding, from the 64-character table of section 4 of RFC 4648 and the group as one number of 24 bits. |
| `Base64Table.DigitsAddUp` | taquin-client-cpp/libs/lib/websocketpp/websocketpp/base64/base64.hpp:76-82 | The four values of a group, weighed by powers of 64, are its three bytes weighed by powers of 256. |
| `Base64Table.DecodedIs` | taquin-client-cpp/libs/lib/websocketpp/websocketpp/base64/base64.hpp:131-174 | Every byte of every decoding, from any run of the table's characters and whatever ends it. |
| `Base64Table.AlphabetIs` | taquin-client-cpp/libs/lib/websocketpp/websocketpp/base64/base64.hpp:53-58 | The characters read are exactly the 64 of the table. |
| `Base64.Base64Encode` | taquin-client-cpp/libs/lib/websocketpp/websocketpp/base64/base64.hpp:66-112 | The loop over three bytes at a time computes the encoding. |
| `Base64.Base64Decode` | taquin-client-cpp/libs/lib/websocketpp/websocketpp/base64/base64.hpp:131-174 | The loop reads up to the first = or foreign character and decodes what it read. |
| `PoolAllocator.AlignCovers` | taquin-client-cpp/libs/lib/rapidjson/include/rapidjson/rapidjson.h:219 | The rounded size covers the requested one if and only if the request is at most 2^32 - 4: the mask is 32 bits wide. |
| `PoolAllocator.SoundExactly` | taquin-client-cpp/libs/lib/rapidjson/include/rapidjson/allocators.h:168-201 | A truthful Malloc or Realloc keeps live blocks disjoint, inside one chunk and past its header if and only if the size it rounds is at most 2^32 - 4. |
| `PoolAllocator.RunSound` | taquin-client-cpp/libs/lib/rapidjson/include/rapidjson/allocators.h:168-201 | So every run of truthful calls with such sizes keeps them so, and every chunk's size at most its capacity. |
| `PoolAllocator.LargeBlocksOverlap` | taquin-client-cpp/libs/lib/rapidjson/include/rapidjson/allocators.h:168-176 | A request of 2^32 - 3 bytes and the next one get the same address. |
| `PoolAllocator.OnlyLastGrows` | taquin-client-cpp/libs/lib/rapidjson/include/rapidjson/allocators.h:188-195 | In-place growth happens only to the last block of the head chunk. |
| `PoolAllocator.StaysExactly` | taquin-client-cpp/libs/lib/rapidjson/include/rapidjson/allocators.h:179-201 | Realloc leaves a block where it is if and only if it gets no larger, or ends at the head chunk's top and the head has room. |
| `PoolAllocator.ChunkMade` | taquin-client-cpp/libs/lib/rapidjson/include/rapidjson/allocators.h:168-176 | A new chunk has the allocator's chunk capacity, or just what the request needs if that is more. |
| `PoolAllocator.ContentsKept` | taquin-client-cpp/libs/lib/rapidjson/include/rapidjson/allocators.h:179-201 | Every live block keeps its bytes through every call, moved or not; a write changes its own byte only. |
| `PoolObject.MemoryPoolAllocator.Malloc` | taquin-client-cpp/libs/lib/rapidjson/include/rapidjson/allocators.h:168-176 | On the linked headers: a new head chunk when the old one has no room, then the next free bytes of the head. |
| `PoolObject.MemoryPoolAllocator.Realloc` | taquin-client-cpp/libs/lib/rapidjson/include/rapidjson/allocators.h:179-201 | A null pointer, a smaller size, growth in place, or a copy into a new block. |
| `PoolObject.MemoryPoolAllocator.Expand` | taquin-client-cpp/libs/lib/rapidjson/include/rapidjson/allocators.h:188-195 | Grows exactly when the block ends at the head's top and the head has room. |
| `PoolObject.MemoryPoolAllocator.AddChunk` | taquin-client-cpp/libs/lib/rapidjson/include/rapidjson/allocators.h:215-223 | An empty chunk in front of the list. |
| `PoolObject.MemoryPoolAllocator.Size` | taquin-client-cpp/libs/lib/rapidjson/include/rapidjson/allocators.h:160-165 | The walk over the list adds up the bytes used. |
| `PoolObject.MemoryPoolAllocator.Capacity` | taquin-client-cpp/libs/lib/rapidjson/include/rapidjson/allocators.h:150-155 | The walk over the list adds up the capacities. |
| `PoolObject.UsedFits` | taquin-client-cpp/libs/lib/rapidjson/include/rapidjson/allocators.h:150-165 | What is used is never more than the capacity. |
| `PoolObject.MallocCounts` | taquin-client-cpp/libs/lib/rapidjson/include/rapidjson/allocators.h:150-176 | A Malloc adds its rounded size to what is used, and what can be used grows only by a new chunk's capacity. |

## Left out

- Floating-point text: `WriteDouble`, the conversion of a fraction or an exponent to binary and the double an
  overlong integer is accumulated in. A double is kept as its literal, with exact integer arithmetic for the
  "number too big" test, and the digits of an exponent are counted without the wrap of an `int`.
- JsonSyntax.NumberRead: the double's value is its literal, and "too big" is decided on exact integers where the
  source compares a rounded double.
- JsonRoundTrip.AnyIntegerLiteral: likewise, for an integer beyond 64 bits.
- JsonReader.Reader.ParseNumber: the double it computes for a fraction, an exponent or an overlong integer is not
  modelled beyond its literal.
- JsonInsitu.InsituReader.ParseInsitu: words and numbers, which are only read, are scanned by the grammar functions;
  their loops are those of `JsonReader.Reader`.
- SioMessage.Rebuilds: string lengths are not cut to 32 bits, and fewer than 2^31 attachments are held, so that
  the cast of their number to `int` is exact.
- SioManager.PacketsDelivered: packets without doubles, since their text is not modelled; the namespace is empty
  or starts with a slash and has no comma, and binary values occur in events and acks only.
- Exceptions of `lexical_cast` and failed assertions of the DOM end a call with the outcome `Failed`; what the
  process does after a failed assertion is not part of this model.
- The helper files for integer and double conversion (`itoa`, `dtoa`, `strtod`) are not part of this model:
  integers are printed as plain decimal.
- A failure of `ParseHex4` inside a string ends the scan at once; the string is rejected either way.
- `kParseValidateEncodingFlag`, transcoding between encodings, encoded and file streams, and SIMD white-space
  skipping. `kParseStopWhenDoneFlag` and `kParseIterativeFlag` are modelled.
- Sizes and counts kept in a 32-bit `SizeType` are unbounded here.
- The inheritance of `PrettyWriter` from `Writer` is modelled by composition, and the handlers' constant `true`
  results are dropped; `Flush` does nothing.
- `GenericValue` member functions other than the constructors, `Accept`, `FindMember` and the document handler;
  reference counting, move semantics and the allocator a value was made with.
- SocketRace.NothingLost: a step that would use a null client pointer is undefined behaviour and is modelled as
  a thread that goes no further; listeners that emit are other threads; `send_connect` and the socket's timers
  also use the pointer and are not among the interleaved threads.
- SioSocket.EachAckOnce: ids are taken not to wrap; after 2^32 ids an entry of the ack map can be overwritten.
- SioSocketAcks.AcksObeyed: likewise.
- SioSocketCalls.CallsObeyed: what a listener or a callback emits is part of the call that reaches it, and the order of the
  calls is given; that the calls of several threads can interleave is the matter of `SocketRace` and `SocketHazards`.
- Event bindings and the event mutex, the socket's own 20 s and 3 s timers (their effect is a call of `on_close`),
  and a null message in an event or ack packet, which the code dereferences.
- Whether the transport accepts a packet handed to the client: `send_impl` drops what is sent while the
  connection is not open.
- SioClient.BackoffBounded: each connection attempt ends in one failure, or opens and closes once, as WebSocket++
  reports it; delays are computed over the reals and rounded down.
- SioClient.NextDelay: doubles and the rounding of `pow` are not modelled.
- Pings, handshakes, close codes other than normal and not normal, listeners and threads of `client_impl`.
- PoolAllocator.SoundExactly: the base allocator always has memory; addresses and sizes do not wrap at 64 bits;
  the user-supplied first buffer and `Clear` are not modelled, and headers are kept beside the memory they stand in.
- FrameMaskLoops.MaskChunks: alignment of word accesses is not modelled, and words are numbers with their bytes
  read off by division; a shift by the whole word gives 0.
- The 64 rounds of `md5_process` are an uninterpreted block function; hexadecimal output is left out.
- Frame processors, the WebSocket handshake, URIs, close codes and error tables: short tables that would add only
  easy members.
- The game itself, its examples, and everything that only declares, configures or logs.
