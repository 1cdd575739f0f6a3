# Verification of the dcserver message layer

This project models the message layer of `dcserver`, a server that speaks the FTD/FTDC trading protocol, and
proves properties of that model with Dafny 4.11. `dafny verify dfyconfig.toml` checks all of it.

What is modelled, from the wire upwards:

- `Bytes.dfy`, `Ftd.dfy`: C characters, little-endian integers, field layout and protocol constants.
- `FtdcBuffer.dfy`: the 4096-byte packet buffer. The class works in place on an array; its methods are tied to
  functions on the raw bytes, and those are proved to refine an abstract packet (a header and a list of fields).
- `SessionMachine.dfy`, `FtdSession.dfy`: one connection as a step machine over its input and output bytes, and the
  session class that carries the steps out in place. A step completes the pending socket operation and runs its
  handler.
- `SessionRuns.dfy`, `SessionOutcomes.dfy`, `ChainClient.dfy`: whole runs of a session, what becomes of it on any
  input, and the peer that cuts the output into frames and groups them by their chain bytes.
- `Decimal.dfy`, `ItemValue.dfy`, `TextScan.dfy`: decimal text in and out, the typed item values with their wire and
  text forms, and when further characters no longer change the value being read.
- `Records.dfy`, `FtdcPath.dfy`, `FtdProtocol.dfy`, `PackageLists.dfy`: the regular-expression searches over the
  protocol's lists, paths to items, item types and field sizes, and the package lists as the table builder writes them.
- `FtdcVariable.dfy`, `DbRows.dfy`, `CallText.dfy`: the variable (a map of vectors of maps), the loop that loads
  database rows into it, and the text of the CALL statement made from it.
- `Packing.dfy`, `FtdcContent.dfy`, `LoadedFields.dfy`, `Responses.dfy`: serialising a variable into buffers, with what
  database rows put into it, and what that means for the session.
- `ItemOffsets.dfy`, `ItemProbes.dfy`, `FtdcParse.dfy`, `RoundTrips.dfy`: parsing a buffer into a variable, which
  fields are accepted, which items are read right, and what a variable keeps on its way out and back.

## Where the code does not do what it is for

The model keeps the code as it is. Where a promise fails, a lemma says exactly when it holds.

- **The session never answers.** `handle_read_ftdc` stores the handler's result and stops
  (dcserver/ftdsession.cpp:173), so `AsWrittenIsSilent` proves that no run ever sends a byte. Three more steps of the
  answering side are missing: `response()` starts no write for a single buffer (lines 196-198), the packet write
  completes into `handle_write_ftd_extendheader` instead of `handle_write_ftdc` (line 232), and the header's length is
  refreshed only in a comment (line 180). `SessionMachine.Wiring` has one flag for each; `AS_WRITTEN` has none,
  `AS_MEANT` all four. `ReadsAgainIff` and `RightBytesIff` say, for any accepted request and any buffers in answer,
  which combinations work; `ShortRequestCutsReply` is a reply cut short. The whole-run results are about `AS_MEANT`.
- **A peer cannot always tell the answers apart.** `PeerRecoversBuffers`: the chain bytes give the grouping exactly when
  every buffer's `size()` reaches past its chain byte; `WrappedBufferLosesLabel` is a buffer whose size wraps to 0.
- **The serialiser drops its last buffer.** `serialize_ftdc_content` pushes a buffer only when the next field does not
  fit and returns without pushing the one being filled (dcserver/ftdc_content.cpp:126-134 and 189).
  `SerializeReturnsAllIff`: everything is returned exactly when there is nothing to return, and nothing at all exactly
  when one buffer would have held it. `SourceReadsAgainIff` draws the consequence for the session, and
  `WholeAnswerArrives` shows that returning the last buffer too is all that is missing.
- **The parser reads every item of a field from its first byte**, and checks every enumeration there: `item_pos` is
  never advanced (dcserver/ftdc_content.cpp:45-61). `FieldWritesIff`: a field is accepted exactly when every enumerated
  item's list has the text at the field's start. `ParsedAsLaidOutIff`: an item is read right in all accepted fields
  exactly when it is in a finite list of them, three for each text of one enumeration. `ParsedBehindEnumerationsIff`:
  where the enumerations look no further than the item's place, only items that start their field or are made from no
  bytes are, unless nothing is accepted. In make_protocal/FTD_protocal.xml every enumerated text is one character, so
  that covers every item there but floats; the lists of `TradeInsertSingleField` share no text, so it is always
  rejected, and those of `OrderInsertField`, which starts with a date, share only `1`.
- **An element with a bound that is no number is lost.** The table builder copies the bounds' texts as they are
  (make_protocal/make_protocal.cpp:253-255), the reader asks for digits. `PackageListRoundTripIff`: a list is read as
  meant exactly when every element is a name and two numbers in range; `ReadBackSurvivors` says what is read of any
  other. Of the 101 elements of FTD_protocal.xml, 20 have the Chinese for "any number" as their maximum;
  `UnboundedElementVanishes` is the response of the package RspQryUserLogin, which loses its only data field.
- **The arguments of a CALL cannot always be told apart.** A string is put between quotes as it is
  (dcserver/ftd_item_value.hpp:188-192), a character bare. `ArgumentsReadBackIff`: the list splits back into the texts
  it was made of exactly when no string holds a quote and no character is a quote or a comma; `ApostropheMisread` is a
  name that fails.
- **A path index above 2^31-1 cannot be read back**: it is printed as an unsigned number and parsed as a signed one
  (`RoundTripIff`). The flag `invalid_` of a path is true when the path is valid; the model calls it `matched`.

## Assumptions

- MSVC packing and little-endian byte order, so a field's fixed part is six bytes. Plain `char` is signed, so an
  `extend_length` byte above 127 and an `ftdc_length` above 4096 or negative are out of range; a header that carries
  one makes the source leave its buffers, and the machine stops there (`SessionMachine.Enabled`).
- Field lengths are not negative. Reading and parsing a buffer require the walked fields to lie inside it.
- `get_field_item` is called on field names that are present. Serialising requires every item it gets to have a value
  and every field it assembles to fit the stack buffer. How a float is written is a parameter, `FloatForm`: any
  text cut at the float's length.
- Rows of the type table have non-negative lengths, and none is shorter than the memory its type is read from (a
  char's 1 byte, a word's 2, an int's 4). A row may name no known type: its value is the null pointer.
- What becomes of a serialised variable when it is parsed is stated for packages whose fields' ids lead back to their
  names; what a single cell shows, for packages that list no field twice.
- What was loaded from rows is serialised for item types whose values are exactly as long as they report.
- Database columns are not SQL NULL, and every row is as wide as the result.
- Streams read and write integers and words as ISO C++11 says (sections 22.4.2.1.2, 22.4.2.2.2 and 21.4.8.9, classic
  locale). A field out of range leaves the nearest bound; for an unsigned target that makes a negative field 0.
- `dcserver/ftdc_content.cpp`, `make_protocal/make_protocal.cpp` and `make_protocal/FTD_protocal.xml` are in a Chinese
  encoding. The table cites the declarations of `dcserver/ftdc_content.hpp`, or the reading side of a list, and names
  the lines of those files that hold the modelled code.
- The database, the protocol tables and the request handler are parameters: finite maps, rows of text, a function from
  a buffer to a list of buffers.

## Model

| member | source | states |
|---|---|---|
| FtdcBuffers.FtdcBuffer.constructor | dcserver/ftdc_buffer.hpp:9-11 | a new buffer is all zero |
| FtdcBuffers.FtdcBuffer.FromBytes | dcserver/ftdc_buffer.hpp:13-15 | a buffer made from 4096 bytes holds exactly those |
| FtdcBuffers.FtdcBuffer.Clear | dcserver/ftdc_buffer.hpp:17-19 | `reset` zeroes every byte |
| FtdcBuffers.FtdcBuffer.AddField | dcserver/ftdc_buffer.hpp:49-58 | refuses exactly when the content would exceed 4080 bytes, then changing nothing; otherwise the bytes become those of the raw append function |
| FtdcBuffers.FtdcBuffer.Assign | dcserver/ftdsession.cpp:197-200 | copying a buffer copies all its bytes |
| FtdcBuffers.FtdcBuffer.SetChain | dcserver/ftdsession.cpp:198-207 | writes the chain byte and nothing else |
| FtdcBuffers.FtdcBuffer.SetHeader | dcserver/ftdc_content.hpp:36-37 | writes version, transaction, chain, series and sequence number in front of the counters (body: ftdc_content.cpp, lines 82-85 and 129-132) |
| FtdcBuffers.AfterAddImage | dcserver/ftdc_buffer.hpp:49-58 | on a well-formed buffer that append yields the image of the packet with the field added, and it is possible exactly when that packet is valid |
| FtdcBuffers.FtdcBuffer.GetField | dcserver/ftdc_buffer.hpp:67-84 | both overloads: null at or past the count, else the offset reached by walking that many fields |
| FtdcBuffers.GetFieldMeaning | dcserver/ftdc_buffer.hpp:67-84 | in every well-formed buffer the walk to i ends at bytes that decode to the i-th field, and the walk past the last ends at `size()` |
| FtdcBuffers.FieldsFromWalk | dcserver/ftdc_buffer.hpp:67-84 | in any buffer whose counted fields lie inside it, `get_field(i)` shows the i-th of them |
| FtdcBuffers.ImageHeader | dcserver/ftdc_buffer.hpp:41-62 | the header counters equal the fields and bytes stored; 6 * count <= length <= 4080, so neither counter nor `size()` wraps |
| FtdcBuffers.ImageBytes | dcserver/ftd.hpp:46-56 | where each number, the content and the zeros of a packet lie in its 4096 bytes, low byte first |
| Ftd.FieldBytes | dcserver/ftd.hpp:70-77 | a field is four bytes of id, two of length and its data |
| FtdcBuffers.ReachableIsImage | dcserver/ftdc_buffer.hpp:9-62 | after any history of resets, appends and header writes the bytes are the image of the fields accepted since the last reset |
| FtdcBuffers.WirePrefixSuffices | dcserver/ftdc_buffer.hpp:17-62 | the first `size()` bytes, loaded into a reset buffer, rebuild it byte for byte |
| FtdcBuffers.WithChainImage | dcserver/ftdsession.cpp:197-207 | setting the chain byte of a copy changes no field, count or length |
| FtdcBuffers.FieldsOfImage | dcserver/ftdc_buffer.hpp:45-84 | reading a well-formed buffer field by field returns the fields put into it |
| SessionMachine.PollInv | dcserver/ftdsession.cpp:31-242 | every step of every run, under every wiring, keeps the session invariant; in particular no reply is indexed out of range |
| SessionMachine.HeaderBytes | dcserver/ftd.hpp:17-23 | a header is its type, the length of the tags and the length of the packet, low byte first |
| SessionMachine.AcceptanceArithmetic | dcserver/ftdsession.cpp:166-173 | for any bytes read into the zeroed buffer the length test passes exactly when at least 16 came and the content length is the rest |
| FtdSessions.FtdSession.constructor | dcserver/ftdsession.cpp:8-14 | a new session has no operation under way and nothing sent; its header and tags hold anything |
| FtdSessions.FtdSession.Start | dcserver/ftdsession.cpp:31-43 | whatever the session held, header, tags, buffer, replies and index are cleared and a header read begins |
| FtdSessions.FtdSession.HandleReadFtdc | dcserver/ftdsession.cpp:166-191 | closes on a length mismatch, else stores the handler's answer and, if wired, responds |
| FtdSessions.FtdSession.Response | dcserver/ftdsession.cpp:193-215 | sends the reply the index points at under its chain label and advances the index |
| FtdSessions.FtdSession.HandleWriteFtdc | dcserver/ftdsession.cpp:235-242 | starts over after `S` or `L`, else responds with the next buffer |
| FtdSessions.FtdSession.Poll | dcserver/ftdsession.cpp:31-242 | one completed operation and its handler, in place, is one step of the machine |
| FtdSessions.FtdSession.Run | dcserver/ftdsession.cpp:31-242 | any number of completions is that many steps of the machine |
| SessionRuns.ReadCycle | dcserver/ftdsession.cpp:31-81 | three completions consume a header and exactly the bytes it announces, and nothing behind them |
| SessionRuns.ReadCycleAccepts | dcserver/ftdsession.cpp:166-173 | the connection survives a request exactly when its length counts a whole header and the content behind it, for any bytes |
| SessionRuns.ReadFrame | dcserver/ftdsession.cpp:31-81 | the frame of a packet is accepted, read in three completions, and its header, tags and whole buffer are recovered |
| SessionRuns.WriteFrame | dcserver/ftdsession.cpp:217-233 | three write completions append header, tags and the announced bytes of the buffer to the output, and only then is the buffer finished |
| SessionRuns.PacketRepeats | dcserver/ftdsession.cpp:225-233 | completing into its own starter, as in the source, the packet write sends the packet again with every completion and never goes on |
| SessionRuns.WriteAnswer | dcserver/ftdsession.cpp:193-242 | whatever buffers the handler returned: from the k-th on the rest of the answer goes out, each buffer once and in order, in 3 completions each, and the session is back in its reset reading state |
| SessionRuns.ServeOne | dcserver/ftdsession.cpp:31-242 | any accepted request answered with n >= 1 buffers takes 3 + 3n completions |
| SessionRuns.ServeAll | dcserver/ftdsession.cpp:31-242 | any number of accepted requests back to back are all answered, in order, and what follows them stays unread |
| SessionRuns.UnwiredIsSilent | dcserver/ftdsession.cpp:166-191 | without the call to `response()` no run sends anything |
| SessionRuns.AsWrittenIsSilent | dcserver/ftdsession.cpp:166-191 | as written, a session never sends a byte, whatever arrives |
| SessionRuns.ReadsAgainIff | dcserver/ftdsession.cpp:166-242 | after any accepted request the session ever reads again exactly when it responds, the answer is not empty, the wiring carries an answer of that size to its end, and no refreshed header announces more than 4096 bytes |
| SessionRuns.RightBytesIff | dcserver/ftdsession.cpp:175-215 | for any request and buffers: without refreshing the header's length the right bytes go out exactly when every reply is as long as the request |
| SessionRuns.ShortRequestCutsReply | dcserver/ftdsession.cpp:175-215 | a concrete request whose answer is cut off behind its 16 header bytes |
| SessionOutcomes.EveryInputIsSettled | dcserver/ftdsession.cpp:31-242 | for any input bytes and any handler: every long enough run of the fully wired session has sent exactly the replies to the frames it could serve and rests waiting, at a header out of range, closed, without an answer, or before an unsendable buffer, as the input decides; every shorter run has sent a part of that |
| ChainClient.CutLabels | dcserver/ftdsession.cpp:196-207 | the chain bytes of any run of answers determine how many there were and how long each was |
| ChainClient.CutOnlyLabels | dcserver/ftdsession.cpp:196-207 | only the labels of a run of answers can be cut so |
| ChainClient.AnswerLetters | dcserver/ftd.hpp:58-61 | the chain bytes of an answer are S, or F, then C for every buffer between, then L |
| ChainClient.ParseFrame | dcserver/ftdsession.cpp:209-233 | the peer takes exactly one frame off its input and recovers its tags and the bytes it announces |
| ChainClient.ParseReplies | dcserver/ftdsession.cpp:193-242 | the bytes sent in any conversation are cut into exactly the frames sent |
| ChainClient.PeerRecoversBuffers | dcserver/ftdsession.cpp:31-242 | whatever buffers a handler returned, their used bytes are recovered from the output, and the grouping into answers exactly when every buffer's size reaches past its chain byte |
| ChainClient.WrappedBufferLosesLabel | dcserver/ftdc_buffer.hpp:60-62 | a buffer whose size wraps to 0 goes out as a header only, and its answer cannot be cut |
| ChainClient.PeerRecoversAnswers | dcserver/ftdsession.cpp:31-242 | end to end: where the buffers are well formed the peer recovers every field of every answer, in order and once |
| Decimal.ReadIntegerFits | dcserver/ftd_item_value.hpp:117-139 | what is read from len >= 1 characters, malformed or out of range, has a shortest signed form of at most len characters |
| Decimal.ReadPrinted | dcserver/ftd_item_value.hpp:131-139 | a number printed with zeros behind its sign, at any width, is read back as itself |
| Decimal.ReadOutOfRange | dcserver/ftd_item_value.hpp:131-139 | digits out of a type's range leave its nearest bound, digits in range their value |
| ItemValues.NumberRoundTripIff | dcserver/ftd_item_value.hpp:117-139 | a number survives `data()` and decoding exactly when its shortest form fits its width |
| ItemValues.StringRoundTripIff | dcserver/ftd_item_value.hpp:158-184 | a string survives padding and decoding exactly when it is no longer than its width and has no white space or NUL |
| ItemValues.RoundTripIff | dcserver/ftd_item_value.hpp:89-261 | for every type but float, decoding the wire form gives the value back exactly when the wire form can carry it |
| ItemValues.StringForm | dcserver/ftd_item_value.hpp:174-184 | byte by byte: a string is written from the left, blanks behind it, and cut at its width |
| ItemValues.NumberForm | dcserver/ftd_item_value.hpp:131-139 | byte by byte: a number is written sign first, digits last, zeros between, and cut at its width |
| ItemValues.RawForm | dcserver/ftd_item_value.hpp:28-213 | a char, int or word is written as its memory, the low byte first |
| ItemValues.StrForm | dcserver/ftd_item_value.hpp:188-192 | in a statement a string stands once between quotes, a char bare, a number in its shortest form |
| ItemValues.CharFromText | dcserver/ftd_item_value.hpp:263-280 | a char made from text is its first character, or NUL |
| ItemValues.StringFromText | dcserver/ftd_item_value.hpp:158-166 | a string made from text is its first word, as far as the item's length reaches |
| ItemValues.NumbersFromText | dcserver/ftd_item_value.hpp:263-280 | an int, word or number made from text is what its digits spell, white space before and anything behind them |
| ItemValues.FloatMade | dcserver/ftd_item_value.hpp:43-53 | a float keeps its length, its precision and the text up to the terminator |
| ItemValues.DecodeEncodeDecode | dcserver/ftd_item_value.hpp:244-261 | decode, encode, decode equals decode, for any bytes |
| ItemValues.TextEncodeDecode | dcserver/ftd_item_value.hpp:263-280 | values made from column text survive their wire form |
| ItemValues.StrRoundTrip | dcserver/ftd_item_value.hpp:105-219 | the statement text of an int, word or fitting number is read back as the same value |
| ItemValues.NumberIgnoresOverread | dcserver/ftd_item_value.hpp:117-124 | characters behind the terminator of a short column never reach the number |
| TextScan.ReadIsScanned | dcserver/ftd_item_value.hpp:117-124 | reading a number character by character shows what the stream extracts, for any bytes |
| TextScan.NumberSettles | dcserver/ftd_item_value.hpp:117-124 | a number read from a place in a text and one read from an earlier place and fewer bytes agree whatever bytes follow, if they do for zeros, for zeros ending in a one, and for terminators |
| TextScan.WordSettles | dcserver/ftd_item_value.hpp:158-184 | the same for extracted words |
| Records.MatchAtFinds | dcserver/ftd_protocalif.cpp:231-243 | the left-to-right match succeeds on every record, with the record's own groups |
| Records.ClassMembers | dcserver/ftd_protocalif.cpp:231 | `\d` and `\w` by their ASCII codes |
| Records.MatchAtOnly | dcserver/ftd_protocalif.cpp:231-243 | and on nothing else |
| Records.EndOfFinds | dcserver/ftd_protocalif.cpp:231-243 | a record with nothing of its first class before it is what a segment is found to end in |
| Records.EndOfOnly | dcserver/ftd_protocalif.cpp:231-243 | whatever a segment is found to end in is such a record |
| Records.IterateIsSegmentwise | dcserver/ftd_protocalif.cpp:135-137 | for every text the leftmost-match iterator yields, in order, one record per semicolon whose segment ends in one, with the longest first group |
| Records.IterateRender | dcserver/ftd_protocalif.cpp:234-241 | on a text that is nothing but records it yields exactly those |
| FtdProtocols.GetPackageFieldList | dcserver/ftd_protocalif.cpp:231-243 | the loop converts every match in order and throws on the first number out of range |
| FtdProtocols.PackageFieldsIff | dcserver/ftd_protocalif.cpp:235-241 | a list is read entry for entry exactly when both numbers of every entry are at most 2^32-1 |
| PackageLists.ReadBackSurvivors | dcserver/ftd_protocalif.cpp:231-243 | of any list the table builder writes (make_protocal.cpp, lines 241-260) from texts without separators, exactly the elements with digits for bounds are read, each under the end of its name, and the first number above 2^32-1 throws |
| PackageLists.PackageListRoundTripIff | dcserver/ftd_protocalif.cpp:231-243 | any list the table builder writes is read as it was meant exactly when every element is a name and two numbers in range |
| PackageLists.UnboundedElementVanishes | dcserver/ftd_protocalif.cpp:231-243 | an element of the shipped file (FTD_protocal.xml, line 113) whose maximum is no number is not read back |
| FtdProtocols.GetItemNames | dcserver/ftd_protocalif.cpp:134-139 | the loop collects the name of every match |
| FtdProtocols.ItemListRoundTripIff | dcserver/ftd_protocalif.cpp:126-139 | the list the table builder writes (make_protocal.cpp, lines 139-143) is read back as the field's items exactly when every name is letters, digits and underscores |
| FtdProtocols.TokensRoundTripIff | dcserver/ftd_protocalif.cpp:200-204 | the values of an enumeration are read back from their joined text exactly when none is empty or holds a semicolon |
| FtdProtocols.TokensCut | dcserver/ftd_protocalif.cpp:200-204 | an enumeration's text is cut at every semicolon and at its end, empty pieces dropped |
| FtdProtocols.BuiltInTypes | dcserver/ftd_item_value.hpp:226-242 | every parameterised spelling is classified as the type it spells |
| FtdProtocols.StringSpelling | dcserver/ftd_protocalif.cpp:162-166 | FTDStringType with a number in angle brackets reports that number as length and precision 0, or throws above 2^31-1 |
| FtdProtocols.NumberSpelling | dcserver/ftd_protocalif.cpp:182-186 | FTDNumberType with a number in angle brackets likewise |
| FtdProtocols.FloatSpelling | dcserver/ftd_protocalif.cpp:172-176 | FTDFloatType with two numbers reports the first as length and the second as precision |
| FtdProtocols.PlainSpelling | dcserver/ftd_protocalif.cpp:167-191 | the plain char, int and word types report lengths 1, 4 and 2 |
| FtdProtocols.RowSpelling | dcserver/ftd_protocalif.cpp:192-205 | any other spelling reports its row's base type, length, precision and enumeration; a missing row throws |
| FtdProtocols.ClassifiedAs | dcserver/ftd_item_value.hpp:226-242 | three types are told by the whole base type, three by a name anywhere in it, in the source's order |
| FtdProtocols.ContainsIff | dcserver/ftd_item_value.hpp:226-242 | a name is contained exactly where it stands somewhere in the text |
| FtdProtocols.OccupiesSize | dcserver/ftd_item_value.hpp:244-280 | a value made for an item is exactly as long as its type reports, from data or from text |
| FtdProtocols.GetFieldSize | dcserver/ftd_protocalif.cpp:210-219 | the summing loop computes the sum of the item lengths or the first lookup's exception |
| FtdcPaths.MatchLongIff | dcserver/ftdc_path.hpp:20-29 | the scanner accepts exactly the long grammar, in exactly one way |
| FtdcPaths.MatchShortIff | dcserver/ftdc_path.hpp:21-36 | the same for the short grammar |
| FtdcPaths.Unambiguous | dcserver/ftdc_path.hpp:20-36 | no text matches both grammars or one of them in two ways |
| FtdcPaths.ComposeParses | dcserver/ftdc_path.hpp:15-47 | a path of names is parsed back, or throws when its index exceeds a signed int |
| FtdcPaths.RoundTripIff | dcserver/ftdc_path.hpp:15-47 | printing and parsing return the same path exactly for word names and indices up to 2^31-1 |
| FtdcPaths.ParseForms | dcserver/ftdc_path.hpp:15-37 | every text is read with the parts of the grammar it follows; an index above 2^31-1 throws, and a text of neither grammar names nothing |
| FtdcPaths.ComposedText | dcserver/ftdc_path.hpp:40-47 | a path is printed as its field, its index in brackets without leading zeros, a dot and its item |
| FtdcPaths.ParsePrintParse | dcserver/ftdc_path.hpp:15-47 | parse, print, parse equals parse, and the short form means index 0 |
| FtdcVariables.FtdcVariable.SetFieldItem | dcserver/ftdc_variable.hpp:26-34 | grows the vector with empty maps as far as needed and stores the item, changing nothing else |
| FtdcVariables.FtdcVariable.GetFieldItem | dcserver/ftdc_variable.hpp:41-55 | the cell's value, or null past the end or for an absent item |
| FtdcVariables.FtdcVariable.FieldCount | dcserver/ftdc_variable.hpp:62-68 | the vector's size, 0 for an unknown field |
| FtdcVariables.FtdcVariable.Count | dcserver/ftdc_variable.hpp:70-73 | the number of field names |
| FtdcVariables.HistoryIsFlat | dcserver/ftdc_variable.hpp:26-73 | after any history each cell holds its last write, whatever gaps were filled, and the names are those written |
| FtdcVariables.CountIsLargest | dcserver/ftdc_variable.hpp:62-68 | a field's count is one more than the largest index written, or as before |
| DbRows.LoadRows | dcserver/dbconnpool.cpp:129-136 | the nested loops store exactly the table's cells, or throw at the first unresolvable column with the ones before it stored |
| DbRows.LoadedCells | dcserver/dbconnpool.cpp:129-136 | each named cell of a loaded row shows the last column mapping to it, all others are unchanged, and counts become the maximum of old count and rows |
| DbRows.ColumnSpelled | dcserver/dbconnpool.cpp:132-136 | a result item that can be resolved stores under exactly the field and item it spells, in either form |
| DbRows.LoadedBySpelling | dcserver/dbconnpool.cpp:129-136 | after a successful load a cell of a row shows that row's text of the last result item that spells it, read by the item's type; unspelled cells are as before |
| LoadedFields.ColumnsResolved | dcserver/dbconnpool.cpp:133-135 | every column reads its text by the type of the item its path names |
| LoadedFields.LoadedHolds | dcserver/dbconnpool.cpp:129-136 | after loading, an occurrence holds the values its row's texts make: each suits its item's type, and its wire form can carry it unless it is a float |
| LoadedFields.LoadedStorable | dcserver/ftdc_content.hpp:36-37 | a field whose items are all loaded can be serialised exactly when its size fits the stack buffer (body: ftdc_content.cpp, lines 106-122) |
| LoadedFields.LoadedReadBack | dcserver/ftdc_content.hpp:36-37 | every item of a loaded and serialised field that is no float is read back at its laid-out place as its column's text was read (body: ftdc_content.cpp, lines 107-122) |
| CallTexts.BuildCall | dcserver/dbconnpool.cpp:68-116 | the two loops give the procedure's name and, separated by commas, the inputs' texts and the outputs' names; the first path that cannot be parsed throws |
| CallTexts.SeparatedReadIff | dcserver/dbconnpool.cpp:70-114 | a list of texts joined by commas splits back into them exactly when each is bare or properly quoted |
| CallTexts.ArgumentsReadBackIff | dcserver/ftd_item_value.hpp:188-192 | for any values and outputs: the argument text splits back exactly when no string holds a quote, no character is a quote or comma, and no name holds either |
| CallTexts.CallSays | dcserver/dbconnpool.cpp:68-116 | end to end: between `CALL name(` and `);` the arguments read back are the inputs' own characters and numbers and then the outputs' names, in order |
| CallTexts.InputsAre | dcserver/dbconnpool.cpp:71-77 | the inputs are the cells their paths name, the short form meaning the first occurrence |
| CallTexts.ApostropheMisread | dcserver/ftd_item_value.hpp:188-192 | a name with an apostrophe whose text is no argument list |
| Packing.PackConserves | dcserver/ftdc_content.hpp:36-37 | every field is in exactly one buffer, in order, under the request's header, and no buffer is empty (body: ftdc_content.cpp, lines 126-134) |
| Packing.PackIsOptimal | dcserver/ftdc_content.hpp:36-37 | no way to cut the fields in order into pieces that fit needs fewer buffers (body: ftdc_content.cpp, lines 126-134) |
| Packing.ReturnedAllIff | dcserver/ftdc_content.hpp:36-37 | the finished buffers hold all fields exactly when there are none; they always hold a prefix (body: ftdc_content.cpp, lines 126-189) |
| Packing.OneBufferHoldsAll | dcserver/ftdc_content.hpp:36-37 | no buffer is returned exactly when one would have held everything (body: ftdc_content.cpp, lines 126-189) |
| Packing.LoneFieldIsLost | dcserver/ftdc_content.hpp:36-37 | a concrete field that is packed and never returned (body: ftdc_content.cpp, lines 126-189) |
| FtdcContents.FillField | dcserver/ftdc_content.hpp:36-37 | the item loop leaves the items' wire forms, floats included, one behind the other in a field of the protocol's size (body: ftdc_content.cpp, lines 107-122) |
| FtdcContents.PackField | dcserver/ftdc_content.hpp:36-37 | one field into the pending buffer, or the pending buffer finished and the field into a cleared one (body: ftdc_content.cpp, lines 126-134) |
| FtdcContents.PackOccurrences | dcserver/ftdc_content.hpp:36-37 | every occurrence of a field is assembled and packed, in index order (body: ftdc_content.cpp, lines 106-151) |
| FtdcContents.PackEntry | dcserver/ftdc_content.hpp:36-37 | occurrence bounds and lookups throw with the buffer as it was; else the entry's fields are packed (body: ftdc_content.cpp, lines 95-151) |
| FtdcContents.Serialize | dcserver/ftdc_content.hpp:36-37 | occurrence checks, lookups, assembly and packing: the first exception, or the finished buffers of the packing, each with the request's version, transaction, series and sequence number at their places (body: ftdc_content.cpp, lines 75-190) |
| FtdcContents.SerializeReturnsAllIff | dcserver/ftdc_content.hpp:36-37 | what is returned holds all fields exactly when there are none, and is empty exactly when they fit one buffer (body: ftdc_content.cpp, lines 75-190) |
| FtdcContents.ReturnedHeaders | dcserver/ftdc_content.hpp:36-37 | bytes 0 to 4 and 6 to 11 of every finished buffer are the request's, and its chain byte is 0 (body: ftdc_content.cpp, lines 82-85 and 129-132) |
| FtdcParsing.IsInPackageFields | dcserver/ftd_protocalif.cpp:269-281 | whether some entry of the package has the name |
| FtdcParsing.ParseItems | dcserver/ftdc_content.hpp:27 | the item loop stores every item as read from the start of the field, or throws on a text outside its enumeration (body: ftdc_content.cpp, lines 44-61) |
| FtdcParsing.ParseField | dcserver/ftdc_content.hpp:27 | unknown ids, fields foreign to the package and wrong lengths throw; else the items are stored under the field's number (body: ftdc_content.cpp, lines 27-63) |
| FtdcParsing.Parse | dcserver/ftdc_content.hpp:27 | the field loop: the first exception, or a new variable holding exactly the packet's writes (body: ftdc_content.cpp, lines 12-69) |
| FtdcParsing.ParsedCell | dcserver/ftdc_content.hpp:27 | every field, numbered among the fields of its id, shows every item of its own data and no other field's, each read from the data's start (body: ftdc_content.cpp, lines 36-63) |
| FtdcParsing.RowsDecideConsistency | dcserver/ftd_protocalif.cpp:142-208 | rows no shorter than their types are all the parser needs to stay inside a field |
| FtdcParsing.SizeIsTotal | dcserver/ftd_protocalif.cpp:210-219 | the reported field size is the total of the items' lengths |
| FtdcParsing.ItemWritesIff | dcserver/ftdc_content.hpp:27 | the item loop accepts a field exactly when every enumerated item's list has the text at the field's own start (body: ftdc_content.cpp, lines 44-61) |
| FtdcParsing.FieldWritesIff | dcserver/ftdc_content.hpp:27 | a field is accepted exactly when its id is known, its name in the package, its size the protocol's and its start in every enumeration (body: ftdc_content.cpp, lines 27-61) |
| FtdcParsing.ParsedAsLaidOutIff | dcserver/ftdc_content.hpp:27 | an item is parsed as laid out in every accepted field exactly when it is in a finite list of fields the tables give: the texts of the furthest-looking enumeration, each with three fillings behind it (body: ftdc_content.cpp, lines 44-61) |
| FtdcParsing.ParsedBehindEnumerationsIff | dcserver/ftdc_content.hpp:27 | where no enumeration looks past the item's place: exactly when it starts its field, is made from no bytes, or every field is rejected (body: ftdc_content.cpp, lines 44-61) |
| ItemProbes.FillingsDecide | dcserver/ftdc_content.hpp:27 | for every type but float and any fixed front: if zeros, zeros ending in a one and terminators behind it show the same value at the start as at the item's place, every filling does (body: ftdc_content.cpp, lines 45-53) |
| ItemProbes.SomeAcceptedIff | dcserver/ftdc_content.hpp:27 | some field is accepted exactly when a text of the furthest-looking enumeration begins with a text of every other (body: ftdc_content.cpp, lines 55-60) |
| ItemProbes.ReplacedComesBackIff | dcserver/ftdc_content.hpp:27 | behind the enumerations of an accepted field, every value an item can carry comes back exactly when the item starts the field or is made from no bytes (body: ftdc_content.cpp, lines 44-61) |
| ItemOffsets.DataOfLength | dcserver/ftdc_content.hpp:36-37 | the laid-out values of any item list are together as long as the reported lengths (body: ftdc_content.cpp, lines 111-122) |
| ItemOffsets.LaidOutRecoversIff | dcserver/ftdc_content.hpp:36-37 | read where it was laid out, a value comes back exactly when its wire form can carry it (body: ftdc_content.cpp, lines 111-122) |
| ItemOffsets.FloatReadAt | dcserver/ftdc_content.hpp:27 | a float item is made with its type's length and precision (body: ftdc_content.cpp, line 52) |
| RoundTrips.SerialisedFieldRecoversIff | dcserver/ftdc_content.hpp:36-37 | a serialised field has the protocol's size and gives back, at their own places, exactly the values their wire forms can carry (body: ftdc_content.cpp, lines 104-122) |
| RoundTrips.OccurrencePlace | dcserver/ftdc_content.hpp:36-37 | in a package without repeated fields every occurrence of every entry is among the fields, numbered by its index among the fields of its id (body: ftdc_content.cpp, lines 94-151) |
| RoundTrips.SerialisedParsesIff | dcserver/ftdc_content.hpp:27 | what the serialiser made of a variable is accepted by the parser exactly when the enumerations accept every field's start (body: ftdc_content.cpp, lines 12-69) |
| RoundTrips.OneBufferComesBack | dcserver/ftdc_content.hpp:27 | serialised into one buffer and parsed again, every cell shows what its field's first bytes show, and items that start their field come back exactly when representable (body: ftdc_content.cpp, lines 12-190) |
| RoundTrips.PairIsLost | dcserver/ftdc_content.hpp:36-37 | a concrete protocol and variable whose only field is not returned (body: ftdc_content.cpp, lines 75-190) |
| RoundTrips.SecondCharacterMisread | dcserver/ftdc_content.hpp:27 | the same field parsed: accepted, and its second character misread (body: ftdc_content.cpp, lines 12-69) |
| Responses.SourceReadsAgainIff | dcserver/ftdc_content.hpp:36-37 | with the serialiser as it is, after any accepted request a session reads again only after an answer too large for one buffer (body: ftdc_content.cpp, lines 126-189) |
| Responses.WholeAnswerArrives | dcserver/ftdsession.cpp:31-242 | with the last buffer returned too, the fully wired session delivers every field to its peer, in order and once |

## Left out

- Float values: rounding and formatting belong to the library. A float keeps the text it was made from, up to the end
  of its field; how it is written is a parameter, so which floats come back is not stated.
- CallTexts.ArgumentsReadBackIff: a quoted argument is taken to end at its next quote; doubled quotes and escapes that a
  database may know are not part of the reading. The SELECT after the CALL only joins names and is not modelled.
- The second result loop of `invoke` (dcserver/dbconnpool.cpp:209-217): it indexes `result_items` by a position in
  `outs`, so the code does not settle what it should do.
- Sockets, strands, error codes, the accept loop and the thread pool: an operation either completes in full or has not
  completed yet. A failed read ends the source's handler chain, a failed write is ignored by it; neither is a step here.
- Looking up the transaction name and the package list of a request: the list is a parameter. The source parses
  requests against the response list (dcserver/ftdc_content.cpp:21).
- Memory outside a buffer: over-long or negative lengths on the wire, fields that overrun the buffer, null values to be
  serialised and null columns are preconditions, or stop the machine.
- FtdProtocols.GetFieldSize: the sum is not reduced to 32 bits; item lengths that overflow an int are not of interest.
- ItemValues: the buffer `data()` caches its result in, and the owning pointers, are not modelled; a value is immutable.
- FtdSessions.FtdSession.Response: the extra assignments that the flags of `Wiring` switch on are not in the source;
  with the flags of `AS_WRITTEN` the method does what the source does.
- PackageLists.ReadBackSurvivors: attribute texts that hold a bar or a semicolon themselves are left to
  `Records.IterateIsSegmentwise`, which reads any text, and to `PackageListRoundTripIff`.
- The commented-out chain reassembly of requests, `functionif`, the table builders themselves and configuration files.
