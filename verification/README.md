# Models of protocol and data-format code in the nRF Connect SDK

This project models, in Dafny, the parts of the SDK whose correctness spans whole runs or a writer and its
reader, and proves what those parts are for:

- **Enhanced ShockBurst** (`EsbRing`, `EsbDevice`, `EsbDriver`, `EsbLink`, `EsbEffects`, `EsbRuns`): the stop-and-wait link layer. The
  driver is a class over two ring buffers; each of its methods is proved to act on the abstract device as the
  function of the same name. Two such devices and a lossy channel form a step system whose runs deliver every
  payload exactly once and in order, keep to the retry budget and drain the transmit FIFO.
- **cJSON**: `JsonLiteral` and `JsonText` describe the printed text and the recursive parser as functions, with an
  explicit outcome for what C leaves undefined; `JsonRoundTrip` relates the two. `JsonGrammar` describes JSON texts
  without a parser, as trees of tokens with gaps and comments between them; `JsonGrammarParse` proves that the parser
  takes every such text for its meaning, `JsonGrammarSound` (with `JsonUnicode` and `JsonLenient` for literals) that it
  accepts nothing else, and `JsonGrammarMinify` that minifying removes exactly the gaps. `JsonLayout` tells the printed
  layout line by line. The parser (`JsonLiteralParser`, `JsonParser`), the allocating printer (`JsonPieces`,
  `JsonPrinter`), the buffered printer (`JsonPower`, `JsonBuffer`) and the in-place minifier (`JsonMinify`) are methods
  over strings and character arrays, proved against those functions and chained in `JsonPipeline`; the sibling list
  (`JsonList`) is a linked heap structure proved against sequences.
- **SLIP over RTT** (`Slip`, `SlipPackets`, `EthRtt`): the framing and its decoder, the fragment-wise encoder, the decoder
  that unescapes in the buffer it reads into, and the exact condition under which cutting the stream into reads
  does no harm.
- **Profiler** (`ProfilerWire`, `ProfilerClock`, `ProfilerHost`, `ProfilerInfo`, `ProfilerTable`, `ProfilerSession`): binary event records and
  textual descriptions written by the device, read back by the host from arbitrary chunks, and the unwrapping of
  32-bit time stamps.
- **Event manager** (`EventManager`): all interleavings of submitters and the dispatching work item.
- **ST25R3911B** (`St25r`): the interrupt-mask shadow and the CRC_A routine.

`Common` and `Decimal` hold shared vocabulary.

## Surprises in the code

The code is modelled as it stands, also where it does not do what its interface suggests.

- `nrf_esb_pop_tx` moves `back` forward. The ring survives if and only if it has at most two slots
  (`EsbRing.Ring.PopBack`).
- `last_tx_attempts` is set to the right number and then reset when the next transaction starts in the same
  interrupt; it survives if and only if the FIFO becomes empty, the mode is manual, or the number is 1
  (`EsbLink.AttemptsCounted`). `EsbRuns.AttemptsCanBeLost` is a run in which two frames are reported as one.
- The receiver's acknowledgement takes the slot at `front` even if the removal just before emptied the queue
  (`EsbDevice.AckPayloadIsHead`). Once as many payloads were written as there are slots, that slot holds the one
  written that many writes ago (`EsbDriver.Esb.StaleSlotIsOld`); with one slot the payload just confirmed is sent
  again (`EsbDriver.ConfirmedPayloadGoesOutAgain`).
- When a new packet confirms an acknowledgement payload, the answer to it carries the next payload in the queue, even
  one written for another pipe (`EsbEffects.AckPayloadLifecycle`).
- `nrf_esb_flush_rx` forgets packet IDs and CRCs. The next frame of the head is then stored if and only if its packet
  ID and CRC are not both zero, which is right exactly when "stored before" and "both zero" agree
  (`EsbLink.FlushHarmlessIff`). Reachable states show either failure: a payload stored twice
  (`EsbRuns.FlushCanDuplicate`) and, for the fourth payload of a pipe with CRC 0, one that is acknowledged and lost
  (`EsbRuns.FlushCanLose`).
- `parse_string` allocates what its first pass counts, but its second pass may step over a quote inside a broken
  `\u` escape and write more. Texts in which every `\u` has four characters that are no quote, backslash or end of
  text behind it stay in bounds (`JsonLiteral.WholeEscapesStay`); `JsonLiteral.BrokenEscapeOverruns` gives texts that
  do not.
- The SLIP decoder takes its previous byte from decoded data at the start of a read. Chunked decoding equals
  decoding at once if and only if no cut separates an escaped ESC from ESC_END or ESC_ESC
  (`Slip.ChunkingHarmlessIff`, with an instance in `Slip.MisleadingCutExists`).
- The integer build of `parse_number` leaves `valuedouble` at zero, which `print_number` looks at first.
  Printing a parsed tree gives the text back if and only if all its numbers are zero
  (`JsonRoundTrip.ReprintIff`).
- `print_object` reuses its saved start index as a loop counter when formatting into a buffer, so the position it
  returns is the depth; only the outermost value's position is used (`JsonBuffer.PrintBuffer.PrintObject`).
- The formatted text of an empty object closes its brace one tab further left than that of a filled one
  (`JsonLayout.EmptyObjectLayout`).
- A profiler run that starts in the last tenth of the counter's range misses its first wrap. Unwrapping is exact
  if and only if the run starts earlier or ends before that wrap (`ProfilerClock.UnwrapExactIff`).
- The host leaves the newline of the terminating empty description line in its buffer
  (`ProfilerInfo.InfoReader.ReadAllDescriptions`).

## Model

| member | source | states |
|---|---|---|
| `EsbRing.Ring.Push` | subsys/enhanced_shockburst/nrf_esb.c:506-538 | storing at `back` appends to the queue for every capacity and keeps `back == (front + count) mod N` |
| `EsbRing.Ring.RemoveFront` | subsys/enhanced_shockburst/nrf_esb.c:478-491 | drops the oldest payload, does nothing when empty, keeps the ring relation |
| `EsbRing.Ring.Reset` | subsys/enhanced_shockburst/nrf_esb.c:451-460 | leaves a valid empty ring from any state |
| `EsbRing.Ring.constructor` | subsys/enhanced_shockburst/nrf_esb.c:462-476 | a valid empty ring of the given capacity |
| `EsbRing.Ring.PopBack` | subsys/enhanced_shockburst/nrf_esb.c:1307-1326 | the ring relation survives the call if and only if the capacity is at most two |
| `EsbDriver.Esb.StartTransaction` | subsys/enhanced_shockburst/nrf_esb.c:572-647 | on rings and fields acts as the abstract transaction start on the head payload |
| `EsbDriver.Esb.OnTxNoAck` | subsys/enhanced_shockburst/nrf_esb.c:649-661 | removes the head and starts the next or becomes idle, as the abstract device does |
| `EsbDriver.Esb.OnTx` | subsys/enhanced_shockburst/nrf_esb.c:663-695 | the end of a frame opens the acknowledgement window and installs its handler |
| `EsbDriver.Esb.OnTxWaitForAck` | subsys/enhanced_shockburst/nrf_esb.c:697-765 | success, failure and retransmission branches refine the abstract device |
| `EsbDriver.Esb.PushReceived` | subsys/enhanced_shockburst/nrf_esb.c:506-538 | stores a frame unless the FIFO is full or the length too big, leaving the transmit ring alone |
| `EsbDriver.Esb.PrepareAck` | subsys/enhanced_shockburst/nrf_esb.c:786-823 | acknowledgement payload and its retirement refine the abstract device, with the slot behind an emptied queue |
| `EsbDriver.Esb.OnRx` | subsys/enhanced_shockburst/nrf_esb.c:825-888 | reception with duplicate test, acknowledgement and storing refines the abstract device |
| `EsbDriver.Esb.OnRxAck` | subsys/enhanced_shockburst/nrf_esb.c:890-904 | the end of an acknowledgement returns to listening and installs its handler |
| `EsbDriver.Esb.OnRadioDisabled` | subsys/enhanced_shockburst/nrf_esb.c:918-947 | the interrupt runs the installed handler, refining the abstract device |
| `EsbDriver.Esb.WritePayload` | subsys/enhanced_shockburst/nrf_esb.c:1144-1188 | returns each error code in its case and otherwise appends with the pipe's next packet ID, starting an idle transmitter |
| `EsbDriver.Esb.ReadRxPayload` | subsys/enhanced_shockburst/nrf_esb.c:1190-1222 | hands out and removes the oldest received payload |
| `EsbDriver.Esb.StartTx` | subsys/enhanced_shockburst/nrf_esb.c:1224-1237 | busy, no-data and start cases |
| `EsbDriver.Esb.StartRx` | subsys/enhanced_shockburst/nrf_esb.c:1239-1268 | listening starts only from idle |
| `EsbDriver.Esb.StopRx` | subsys/enhanced_shockburst/nrf_esb.c:1270-1288 | stops only a receiver |
| `EsbDriver.Esb.FlushTx` | subsys/enhanced_shockburst/nrf_esb.c:1290-1305 | empties the transmit queue |
| `EsbDriver.Esb.FlushRx` | subsys/enhanced_shockburst/nrf_esb.c:1328-1345 | empties the receive queue and forgets every pipe's packet ID and CRC |
| `EsbDevice.HandlerMatchesThroughout` | subsys/enhanced_shockburst/nrf_esb.c:572-904 | in every state of every run of calls and interrupts the queues respect their capacity and the installed radio handler matches the state |
| `EsbDevice.AckPayloadIsHead` | subsys/enhanced_shockburst/nrf_esb.c:794-815 | the acknowledgement carries the head of the queue if and only if the removal just before left one |
| `EsbDriver.Esb.StaleSlotIsOld` | subsys/enhanced_shockburst/nrf_esb.c:794-815 | the slot behind an emptied ring holds the payload written a whole capacity of writes ago |
| `EsbDriver.ConfirmedPayloadGoesOutAgain` | subsys/enhanced_shockburst/nrf_esb.c:786-888 | a receiver run with one acknowledgement slot in which the payload just reported as sent goes out a second time |
| `EsbEffects.FrameLayout` | subsys/enhanced_shockburst/nrf_esb.c:601-606 | packet ID in front of the acknowledgement bit in the header, then the data |
| `EsbEffects.StartTxStarts` | subsys/enhanced_shockburst/nrf_esb.c:1224-1237 | an idle device with a queued head puts the head's frame on air with a full retry budget and the handler for its kind; a busy or empty one is unchanged |
| `EsbEffects.RestartDelivers` | subsys/enhanced_shockburst/nrf_esb.c:572-888 | from every invariant idle state with a queued head and a listening receiver with room, start, an intact frame and a heard acknowledgement put the head among the stored and the removed payloads |
| `EsbEffects.WriteStartsIff` | subsys/enhanced_shockburst/nrf_esb.c:1180-1185 | a write starts a transaction if and only if the device is an idle transmitter in automatic mode |
| `EsbEffects.FlushedTakesCapacity` | subsys/enhanced_shockburst/nrf_esb.c:1144-1305 | a flushed queue takes exactly as many payloads as it has slots, of every length allowed, and refuses the next |
| `EsbEffects.Refused` | subsys/enhanced_shockburst/nrf_esb.c:1144-1163 | missing, empty, oversized, misaddressed payloads and those for a full queue change nothing |
| `EsbEffects.ManualStops` | subsys/enhanced_shockburst/nrf_esb.c:728-735 | with more queued, the transmitter is idle behind an acknowledgement if and only if the mode is manual |
| `EsbEffects.DamagedAckIsNone` | subsys/enhanced_shockburst/nrf_esb.c:697-765 | an acknowledgement with a wrong CRC has the effect of none |
| `EsbEffects.NoAckSentOnce` | subsys/enhanced_shockburst/nrf_esb.c:604-661 | with selective acknowledgement a noack payload goes out once and the next follows |
| `EsbEffects.NoAckStoredSilently` | subsys/enhanced_shockburst/nrf_esb.c:825-888 | the receiver stores such a payload and sends nothing |
| `EsbEffects.AckPayloadReceived` | subsys/enhanced_shockburst/nrf_esb.c:716-726 | a payload that comes with an acknowledgement is received on the acknowledged payload's pipe |
| `EsbEffects.AckPayloadLifecycle` | subsys/enhanced_shockburst/nrf_esb.c:786-823 | an acknowledgement payload answers a packet and its repetitions until a new packet confirms it, then the next in the queue follows |
| `EsbEffects.EmptyAnswer` | subsys/enhanced_shockburst/nrf_esb.c:814-822 | without a payload for its pipe a packet is answered empty |
| `EsbEffects.StoppedIsDeaf` | subsys/enhanced_shockburst/nrf_esb.c:1239-1288 | a stopped receiver hears no frame, and starting it listens again with everything kept |
| `EsbLink.StepKeepsLink` | subsys/enhanced_shockburst/nrf_esb.c:572-900 | every step of transmitter, receiver, channel and applications keeps the link invariant |
| `EsbLink.RunKeepsLink` | subsys/enhanced_shockburst/nrf_esb.c:572-900 | the link invariant holds in every state of every run |
| `EsbLink.RetransmitIffStored` | subsys/enhanced_shockburst/nrf_esb.c:825-868 | in invariant states the (PID, CRC) test calls the head's frame a retransmission if and only if it is stored already, for any CRC function |
| `EsbLink.ExactlyOnceInOrder` | subsys/enhanced_shockburst/nrf_esb.c:697-888 | over every run: stored payloads are those removed from the transmit FIFO, or those and its head; reads are a prefix of them; nothing accepted is missing |
| `EsbLink.PidsCountModFour` | subsys/enhanced_shockburst/nrf_esb.c:1165-1178 | the k-th payload ever accepted for a pipe carries packet ID k mod 4 |
| `EsbLink.FlushHarmlessIff` | subsys/enhanced_shockburst/nrf_esb.c:1328-1345 | in every invariant state with a queued head and a listening receiver: what a flushed receiver does with the head's frame, and that it is right if and only if "stored before" and "packet ID and CRC both zero" agree |
| `EsbRuns.FlushCanDuplicate` | subsys/enhanced_shockburst/nrf_esb.c:1328-1345 | a run to a state in which a flush makes the receiver store a payload twice |
| `EsbRuns.FlushCanLose` | subsys/enhanced_shockburst/nrf_esb.c:1328-1345 | a run to a state in which a flush makes the receiver acknowledge a new payload without storing it |
| `EsbLink.AttemptsCounted` | subsys/enhanced_shockburst/nrf_esb.c:707-735 | in every reachable acknowledgement wait the frames sent are between 1 and the budget, that number is stored, and when it survives the interrupt |
| `EsbRuns.AttemptsCanBeLost` | subsys/enhanced_shockburst/nrf_esb.c:707-735 | a run with two queued payloads and one lost frame after which the stored number of attempts is 1 instead of 2 |
| `EsbLink.FailureKeepsHead` | subsys/enhanced_shockburst/nrf_esb.c:736-765 | a transaction fails exactly after `retransmit_count + 1` frames and leaves queue and packet IDs in place |
| `EsbLink.DrainStepSpendsPotential` | subsys/enhanced_shockburst/nrf_esb.c:663-765 | every step of a draining run keeps a transaction going and every frame spends one unit of the remaining budget |
| `EsbLink.DrainsWithinBudget` | subsys/enhanced_shockburst/nrf_esb.c:663-765 | a draining run sends at most `count * (retransmit_count + 1)` frames, is active until the FIFO is empty, and having sent that many it is empty or awaits its last acknowledgement |
| `JsonRoundTrip.DecodeEscaped` | ext/cjson/cJSON.c:320-524 | every NUL-free string comes back from its escaped form, whatever follows the closing quote |
| `JsonRoundTrip.ParsePrintedNumber` | ext/cjson/cJSON.c:160-178 | every `int` comes back from its decimal form when no digit follows |
| `JsonRoundTrip.RoundTripItems` | ext/cjson/cJSON.c:700-739 | printed items parse back in order up to the closing bracket |
| `JsonRoundTrip.RoundTripMembers` | ext/cjson/cJSON.c:853-911 | printed members parse back in order with their names up to the closing brace |
| `JsonRoundTrip.RoundTrip` | ext/cjson/cJSON.c:598-911 | every tree, in both formats and at every depth, followed by anything but a digit, parses back to itself and consumes exactly the printed text |
| `JsonRoundTrip.DocumentRoundTrip` | ext/cjson/cJSON.c:548-581 | the same for whole documents, with and without the end-of-text requirement |
| `JsonRoundTrip.ParsedPrintsAsZeroed` | ext/cjson/cJSON.c:233-271 | a parsed tree prints like the tree with all numbers zero, and equals it only if they are |
| `JsonRoundTrip.ReprintIff` | ext/cjson/cJSON.c:160-271 | printing a parsed tree reproduces the text if and only if every number is zero |
| `JsonGrammarParse.ParseDoc` | ext/cjson/cJSON.c:598-911 | every text of the grammar, with white space around every token and literals in any spelling, parses to what it stands for and is consumed whole |
| `JsonGrammarParse.ParseWholeText` | ext/cjson/cJSON.c:548-581 | the same for documents with white space at both ends |
| `JsonGrammarParse.RefuseTrailingText` | ext/cjson/cJSON.c:559-571 | anything else behind a document is refused on request and returned otherwise |
| `JsonGrammarSound.SoundValue` | ext/cjson/cJSON.c:598-911 | whatever is accepted is a text of the grammar, with lenient literals, and is taken for its meaning |
| `JsonLenient.LiteralParts` | ext/cjson/cJSON.c:320-424 | whatever is accepted as a literal consists of well-formed pieces, other escapes that stand for their character, and unit escapes that stand for nothing |
| `JsonLayout.ArrayLayout` | ext/cjson/cJSON.c:741-850 | items on one line between brackets, separated by a comma and, when formatting, a space |
| `JsonLayout.FormattedObject` | ext/cjson/cJSON.c:914-1089 | one line per member, indented one tab deeper than the object, the closing brace indented as deep as the object |
| `JsonLayout.UnformattedObject` | ext/cjson/cJSON.c:914-1089 | members without any gap |
| `JsonLayout.EmptyObjectLayout` | ext/cjson/cJSON.c:925-943 | the text of an empty object in both formats |
| `JsonLayout.EscapedIsClean` | ext/cjson/cJSON.c:428-524 | a printed literal holds no control character, and a string without anything to escape stands for itself |
| `JsonUnicode.DecodePieces` | ext/cjson/cJSON.c:320-424 | every literal of plain characters, short escapes, unit escapes and surrogate pairs decodes to the bytes of its pieces |
| `JsonUnicode.EscapesBecomeUtf8` | ext/cjson/cJSON.c:349-418 | every sequence of scalar values spelled as escapes, in any hexadecimal case, becomes text that a strict UTF-8 reader decodes to those values |
| `JsonUnicode.CountSuffices` | ext/cjson/cJSON.c:330-344 | every well-formed literal is parsed inside its bounds, and the counting pass never undercounts the bytes written |
| `JsonUnicode.SpellingExists` | ext/cjson/cJSON.c:365-390 | every scalar value can be spelled as one unit escape or a surrogate pair |
| `JsonUnicode.SpellsHex4` | ext/cjson/cJSON.c:273-315 | four hexadecimal digits in either case, given by position in the two digit alphabets, are read as the unit they spell |
| `JsonLiteral.WholeEscapesStay` | ext/cjson/cJSON.c:320-424 | texts with whole escapes, well-formed or not, are read and written inside their bounds |
| `JsonLiteral.BrokenEscapeOverruns` | ext/cjson/cJSON.c:332-418 | with a quote inside a unit escape the counting pass yields 1 and the decoding pass writes everything that follows |
| `JsonParser.ParseNumberAt` | ext/cjson/cJSON.c:160-178 | the digit loop computes the specified value and stops at the specified position |
| `JsonParser.SkipSpace` | ext/cjson/cJSON.c:540-545 | stops at the first character that is NUL or above the space |
| `JsonLiteralParser.Hex4At` | ext/cjson/cJSON.c:273-315 | four hexadecimal digits give their value, anything else zero |
| `JsonLiteralParser.CodePointAt` | ext/cjson/cJSON.c:365-390 | unit escapes and surrogate pairs give their code point and length, invalid ones nothing |
| `JsonLiteralParser.StoreUtf8` | ext/cjson/cJSON.c:392-414 | the bytes stored last to first are the transcoding of the code point |
| `JsonLiteralParser.CountPass` | ext/cjson/cJSON.c:332-334 | the count, unless the pass steps over the end of the text |
| `JsonLiteralParser.DecodePass` | ext/cjson/cJSON.c:342-418 | the decoded bytes in the block, unless text or block do not suffice |
| `JsonLiteralParser.ParseStringAt` | ext/cjson/cJSON.c:320-424 | on every text: count, allocation of that size and decoding into it give the specified bytes and end, or the overrun the specification predicts |
| `JsonParser.ParseValueAt` | ext/cjson/cJSON.c:598-631 | on every text the position-advancing parser has the specified outcome: a tree and its end, a failure, or an overrun of a string's block |
| `JsonParser.ParseArrayAt` | ext/cjson/cJSON.c:700-739 | empty and filled arrays as specified, failures included |
| `JsonParser.ParseObjectAt` | ext/cjson/cJSON.c:853-911 | empty and filled objects as specified, failures included |
| `JsonParser.ParseNameAt` | ext/cjson/cJSON.c:869-878 | a name and its colon with the white space around them, failures included |
| `JsonParser.ParseItemsAt` | ext/cjson/cJSON.c:700-739 | the loop over items builds the specified sequence or fails with it |
| `JsonParser.ParseMembersAt` | ext/cjson/cJSON.c:853-911 | the loop over members builds the specified sequence or fails with it |
| `JsonParser.ParseDocumentAt` | ext/cjson/cJSON.c:548-581 | tree and end position as specified, trailing text refused on request |
| `JsonPieces.JoinedFits` | ext/cjson/cJSON.c:796-815 | the length added up for an array's children covers the joined text |
| `JsonPieces.JoinedMembersFit` | ext/cjson/cJSON.c:1017-1035 | the length added up for an object's members covers the joined text |
| `JsonPrinter.EscapedLength` | ext/cjson/cJSON.c:466-475 | the counting pass gives the exact length of the escaped text |
| `JsonPrinter.WriteQuoted` | ext/cjson/cJSON.c:470-523 | the third pass writes exactly the escaped text inside the space the second pass counted |
| `JsonPrinter.PrintString` | ext/cjson/cJSON.c:428-524 | allocates enough for, and leaves, the quoted text |
| `JsonPrinter.PrintNumber` | ext/cjson/cJSON.c:233-271 | the 21 characters reserved hold every `int` and its terminator |
| `JsonPrinter.PrintArray` | ext/cjson/cJSON.c:741-850 | joins the children's blocks into the array's text inside the precomputed space |
| `JsonPrinter.PrintObject` | ext/cjson/cJSON.c:914-1089 | joins names and values into the object's text inside the precomputed space |
| `JsonPrinter.PrintValue` | ext/cjson/cJSON.c:633-697 | every tree is printed as its text, at every depth and in both formats |
| `JsonPower.Pow2Gt` | ext/cjson/cJSON.c:181-190 | a power of two not below the argument and below its double |
| `JsonPower.SmearedIsPow2Gt` | ext/cjson/cJSON.c:181-190 | the five smearing steps compute that power for every positive `int` |
| `JsonBuffer.PrintBuffer.Ensure` | ext/cjson/cJSON.c:198-221 | afterwards the requested room exists and everything written is kept |
| `JsonBuffer.PrintBuffer.Update` | ext/cjson/cJSON.c:223-230 | the write position moves to the end of the text printed last |
| `JsonBuffer.PrintBuffer.PrintString` | ext/cjson/cJSON.c:428-524 | the quoted text ends up behind what was written, inside ensured room |
| `JsonBuffer.PrintBuffer.PrintNumber` | ext/cjson/cJSON.c:233-271 | the number's text ends up behind what was written, inside ensured room |
| `JsonBuffer.PrintBuffer.PrintArray` | ext/cjson/cJSON.c:741-794 | the buffered array printer leaves the array's text behind what was written |
| `JsonBuffer.PrintBuffer.PrintObject` | ext/cjson/cJSON.c:914-1003 | the buffered object printer leaves the object's text behind what was written, and which position it returns |
| `JsonBuffer.PrintBuffer.PrintValue` | ext/cjson/cJSON.c:633-697 | every store falls inside ensured room and the text of every tree results |
| `JsonBuffer.PrintBuffered` | ext/cjson/cJSON.c:587-594 | for every `prebuffer` of at least 1 the returned pointer designates the printed text |
| `JsonBuffer.PrintersAgree` | ext/cjson/cJSON.c:584-594 | both printers yield the same text for every tree, first block size and format |
| `JsonMinify.FormattedShrinks` | ext/cjson/cJSON.c:1441-1475 | formatted text of any tree, in front of any rest, minifies to its unformatted text |
| `JsonMinify.MinifyUndoesFormatting` | ext/cjson/cJSON.c:1441-1475 | minifying the formatted document gives exactly the unformatted one |
| `JsonGrammarMinify.LineVanishes` | ext/cjson/cJSON.c:1453-1456 | a line comment is removed up to and with its end of line |
| `JsonGrammarMinify.BlockVanishes` | ext/cjson/cJSON.c:1457-1461 | a block comment is removed with its end |
| `JsonGrammarMinify.MinifyRemovesGaps` | ext/cjson/cJSON.c:1441-1475 | a text with spaces and comments anywhere between its tokens minifies to the bare tokens |
| `JsonGrammarMinify.MinifiedTextParses` | ext/cjson/cJSON.c:1441-1475 | what is left parses to what the text stood for |
| `JsonMinify.SkipLine` | ext/cjson/cJSON.c:1453-1456 | a line comment is skipped up to its end of line |
| `JsonMinify.SkipBlock` | ext/cjson/cJSON.c:1457-1461 | a closed block comment is skipped with its end |
| `JsonMinify.CopyLiteral` | ext/cjson/cJSON.c:1462-1470 | a string literal is copied unchanged, escapes in pairs, without overtaking the read position |
| `JsonMinify.MinifyInPlace` | ext/cjson/cJSON.c:1441-1475 | in place, with the write position never passing the read position, the array ends up holding the minified text and its terminator |
| `JsonPipeline.PrintMinifyParse` | ext/cjson/cJSON.c:548-594 | a tree printed into the growing buffer with formatting, minified in place and parsed comes back, by way of exactly its unformatted text |
| `JsonList.Walk` | ext/cjson/cJSON.c:1100-1106 | the item at a position, the first for negative positions, none past the end |
| `JsonList.ArraySize` | ext/cjson/cJSON.c:1092-1099 | the length of the child sequence |
| `JsonList.AddItem` | ext/cjson/cJSON.c:1116-1147 | appends to the child sequence, keeping the chain; a null item changes nothing |
| `JsonList.DetachItem` | ext/cjson/cJSON.c:1177-1195 | removes at the position and clears the item's links; past the end nothing changes |
| `JsonList.InsertItem` | ext/cjson/cJSON.c:1216-1232 | inserts in front of the position, appends past the end |
| `JsonList.ReplaceItem` | ext/cjson/cJSON.c:1233-1250 | updates at the position and clears the old item's links; past the end nothing changes |
| `JsonList.InsertThenDetach` | ext/cjson/cJSON.c:1177-1232 | inserting anywhere and detaching from there restores the chain and returns the item |
| `Slip.DecodeWire` | drivers/net/eth_rtt.c:170-279 | from any decoder state a sent packet closes the pending data, then yields exactly the frame and its CRC |
| `Slip.StreamRoundTrip` | drivers/net/eth_rtt.c:170-311 | every stream of packets decodes to its non-empty packets in order, whatever the checksum function |
| `Slip.StuffedBytes` | drivers/net/eth_rtt.c:185-230 | the byte values of RFC 1055 |
| `Slip.WrongTrailerRefused` | drivers/net/eth_rtt.c:289-311 | a frame whose last two bytes, the greater weight first, are not its checksum is not delivered |
| `Slip.PollIsDecode` | drivers/net/eth_rtt.c:415-438 | without an overflow discard the poll handler is the plain chunked decoder |
| `Slip.ChunksTrack` | drivers/net/eth_rtt.c:375-407 | chunked decoding stays in step while cuts are clean and is behind for good after the first misleading one |
| `Slip.ChunkingHarmlessIff` | drivers/net/eth_rtt.c:375-407 | frames and leftover equal those of decoding at once if and only if no cut is misleading |
| `Slip.PacketsSurviveChunking` | drivers/net/eth_rtt.c:289-438 | packets cut into any reads without a misleading cut are delivered unchanged |
| `Slip.MisleadingCutExists` | drivers/net/eth_rtt.c:382-382 | a concrete cut that changes what is decoded |
| `EthRtt.Context.SendFragment` | drivers/net/eth_rtt.c:185-230 | runs of plain bytes and escapes add up to the encoded fragment, and the checksum runs over it |
| `EthRtt.Context.EthSend` | drivers/net/eth_rtt.c:248-287 | a packet goes out as one wire frame, independent of its fragmentation |
| `EthRtt.Context.SendEnd` | drivers/net/eth_rtt.c:232-245 | the checksum goes out encoded, most significant byte first, and closes the frame |
| `EthRtt.Context.RecvFrame` | drivers/net/eth_rtt.c:289-311 | a frame is delivered without its trailer if and only if it is longer than the trailer and the trailer matches |
| `EthRtt.Context.DecodeByte` | drivers/net/eth_rtt.c:384-401 | one byte, decoded in place, acts as the byte-wise decoder and leaves unread bytes alone with `start <= dst <= src` |
| `EthRtt.Context.DecodeNewData` | drivers/net/eth_rtt.c:375-407 | in-place decoding of a read refines the byte-wise decoder |
| `EthRtt.Context.PollRead` | drivers/net/eth_rtt.c:422-437 | one read, with the discard of a full buffer, refines the chunked decoder |
| `EthRtt.Context.PollWork` | drivers/net/eth_rtt.c:415-438 | the poll loop consumes the whole channel; its outcome is the chunked decoder's on its reads and the last, empty one, before which a full buffer is discarded |
| `SlipPackets.PollDelivers` | drivers/net/eth_rtt.c:415-438 | if every packet with its trailer is shorter than the buffer and the cuts are clean, nothing is discarded and exactly the non-empty packets are delivered |
| `SlipPackets.TraplessCutsClean` | drivers/net/eth_rtt.c:382-400 | packets without ESC in front of ESC_END or ESC_ESC may be cut anywhere |
| `EthRtt.SendAndReceive` | drivers/net/eth_rtt.c:170-438 | what one driver sends another delivers, under those conditions on packets and cuts |
| `EventManager.NotifyListeners` | subsys/event_manager/event_manager.c:246-265 | the nested loops notify exactly the listeners in priority order up to and including the first consumer |
| `EventManager.CompletedIsNotified` | subsys/event_manager/event_manager.c:246-265 | the calls made step by step for a finished event are those of the nested loops |
| `EventManager.StepKeepsInv` | subsys/event_manager/event_manager.c:210-286 | every step of any submitter or the handler keeps order, call and wakeup invariants |
| `EventManager.RunKeepsInv` | subsys/event_manager/event_manager.c:210-286 | the invariants hold in every state of every interleaving |
| `EventManager.SafeAndAwake` | subsys/event_manager/event_manager.c:210-286 | over every interleaving: freed, local and queued events are the appended ones in order, none is freed twice, each freed one was fully notified, and a waiting event has a wakeup on its way |
| `EventManager.QuiescentMeansDone` | subsys/event_manager/event_manager.c:210-286 | when only a new submission is possible, every event has been dispatched and freed |
| `EventManager.DispatchTerminates` | subsys/event_manager/event_manager.c:210-286 | without new submissions every run is bounded by the work in its first state |
| `ProfilerWire.Le32RoundTrip` | subsys/profiler/profiler_nordic.c:228-234 | a word is read back from its four bytes |
| `ProfilerWire.Le32` | subsys/profiler/profiler_nordic.c:228-234 | the byte of least weight first |
| `ProfilerWire.WordRoundTrip` | scripts/profiler/rtt_nordic_profiler_host.py:243-249 | for each type name a device can register, every unsigned or signed 32-bit number, as the name has it, is read back from its word |
| `ProfilerWire.LogBuffer.EncodeU32` | subsys/profiler/profiler_nordic.c:228-234 | appends the word's four bytes and advances the position |
| `ProfilerWire.LogBuffer.LogEvent` | subsys/profiler/profiler_nordic.c:220-259 | filling the buffer by advancing the position sends exactly the event's record |
| `ProfilerClock.UnwrapExact` | scripts/profiler/rtt_nordic_profiler_host.py:166-240 | for ordered events less than a fifth of the range apart, the computed tick is the true one, or one range short in exactly the stated case, over any number of wraps |
| `ProfilerClock.UnwrapExactIff` | scripts/profiler/rtt_nordic_profiler_host.py:166-240 | a whole run is exact if and only if it starts below 0.9 of the range or ends before the first wrap |
| `ProfilerClock.Thresholds` | scripts/profiler/rtt_nordic_profiler_host.py:231-238 | the counter values at which an overflow is counted and the flag is set |
| `ProfilerHost.TicksRecovered` | scripts/profiler/rtt_nordic_profiler_host.py:217-250 | the host stores every event with its identifier, true tick and values |
| `ProfilerHost.Host.GetBufferedData` | scripts/profiler/rtt_nordic_profiler_host.py:113-125 | takes the requested bytes off the front, `bcnt` staying the number of bytes buffered |
| `ProfilerHost.Host.ReadBytes` | scripts/profiler/rtt_nordic_profiler_host.py:127-164 | returns the next bytes of the stream whatever the chunks and the timing |
| `ProfilerHost.Host.ReadValues` | scripts/profiler/rtt_nordic_profiler_host.py:242-249 | the data words come back as the values written, signed or unsigned by type |
| `ProfilerHost.Host.UnwrapStamp` | scripts/profiler/rtt_nordic_profiler_host.py:231-238 | the overflow counter and flag follow the clock model |
| `ProfilerHost.Host.ReadSingleEvent` | scripts/profiler/rtt_nordic_profiler_host.py:217-250 | consumes one record and stores the event it encodes |
| `ProfilerHost.Host.ReadRemainingEvents` | scripts/profiler/rtt_nordic_profiler_host.py:252-262 | the drain loop terminates with nothing buffered, having stored exactly the remaining events |
| `ProfilerHost.Host.Disconnect` | scripts/profiler/rtt_nordic_profiler_host.py:85-101 | however the last reads divide it, whatever the device has sent ends up buffered |
| `ProfilerHost.Host.ReadLiveEvents` | scripts/profiler/rtt_nordic_profiler_host.py:264-274 | live reading, with reads that may find nothing, stores the events read and leaves the rest of the stream |
| `ProfilerHost.Host.ReadEvents` | scripts/profiler/rtt_nordic_profiler_host.py:78-278 | a whole session, live reading then disconnect and drain, stores exactly the logged events |
| `ProfilerTable.EventTable.RegisterEventType` | subsys/profiler/profiler_nordic.c:174-218 | the next table entry ends up holding the description's line, in bounds, under the next identifier |
| `ProfilerTable.EventTable.SendSystemDescription` | subsys/profiler/profiler_nordic.c:59-88 | every entry up to its terminator goes out as a line, then the empty line: the text of all registered descriptions |
| `ProfilerInfo.SplitJoin` | scripts/profiler/rtt_nordic_profiler_host.py:190-190 | splitting at commas undoes joining fields without commas |
| `ProfilerInfo.LineRoundTrip` | scripts/profiler/rtt_nordic_profiler_host.py:170-200 | every well-formed description is recovered from its line |
| `ProfilerInfo.LineInOrder` | subsys/profiler/profiler_nordic.c:174-218 | a line reads name, decimal identifier, all types, all labels, with commas between |
| `ProfilerInfo.TextInLines` | subsys/profiler/profiler_nordic.c:59-88 | the text is one line per description and an empty line |
| `ProfilerInfo.RegisterAllKeepsEach` | scripts/profiler/rtt_nordic_profiler_host.py:202-207 | with identifiers in registration order no description replaces another |
| `ProfilerInfo.InfoReader.ReadSingleDescription` | scripts/profiler/rtt_nordic_profiler_host.py:170-200 | one line is consumed and parsed however it was cut; the empty line is left in place |
| `ProfilerInfo.InfoReader.ReadAllDescriptions` | scripts/profiler/rtt_nordic_profiler_host.py:202-207 | registers exactly the descriptions sent and stops at the empty line |
| `ProfilerSession.Session` | scripts/profiler/rtt_nordic_profiler_host.py:202-278 | the host decodes with the types it read from the device's table and stores exactly the events logged with them |
| `St25r.SetWins` | drivers/st25r3911b/st25r3911b_interrupt.c:115-128 | a bit both set and cleared ends up set; untouched bits are kept |
| `St25r.UntouchedByte` | drivers/st25r3911b/st25r3911b_interrupt.c:124-140 | a byte without a touched bit is unchanged, so its register may be skipped |
| `St25r.IrqMask.Modify` | drivers/st25r3911b/st25r3911b_interrupt.c:115-151 | the registers follow the shadow although only touched bytes are written, and what a bus error leaves behind |
| `St25r.ModifyAll` | drivers/st25r3911b/st25r3911b_interrupt.c:115-161 | after any sequence of calls the registers equal the low bytes of the shadow |
| `St25r.Enable` | drivers/st25r3911b/st25r3911b_interrupt.c:153-156 | enabling clears exactly the given mask bits |
| `St25r.Disable` | drivers/st25r3911b/st25r3911b_interrupt.c:158-161 | disabling sets exactly the given mask bits |
| `St25r.ByteStepIsSerial` | drivers/st25r3911b/st25r3911b_nfca.c:1232-1242 | the shift-and-xor byte step is eight steps of the reflected CRC with polynomial 0x8408 |
| `St25r.CrcConcat` | drivers/st25r3911b/st25r3911b_nfca.c:1223-1247 | the CRC composes over concatenation |
| `St25r.KnownCrcs` | drivers/st25r3911b/st25r3911b_nfca.c:1223-1247 | the two check values of annex B of ISO/IEC 14443-3 |
| `St25r.CrcCalculate` | drivers/st25r3911b/st25r3911b_nfca.c:1223-1247 | the loop computes the bit-serial CRC_A below 2^16 and refuses an empty buffer |

## Modelling decisions

- ESB: a frame or acknowledgement is heard when its transmission ends or never, so these are steps of both
  devices. A corrupt frame counts as not received, as the CRC status of the radio reports it; the CRC value
  itself is an arbitrary function of pipe and frame. Each call and each interrupt is one step; the start that follows a
  write in automatic mode, which the code does after unlocking interrupts, belongs to the write.
- cJSON: a character is a byte of a C string. `int` arithmetic is two's complement; only `INT_MIN` depends on it.
  Shifts and masks of the transcoder are written as division and remainder, and `|` of `pow2gt` by its bits. An access
  behind the end of the text or of a block ends a parse with the outcome `Overrun`. The trees of the round trip hold
  the same `int` in both number fields.
- SLIP and profiler: a channel is the sequence of byte chunks its reads return. `crc16_ccitt` is a fold of an
  arbitrary step function.
- Profiler host: thresholds 0.2, 0.6 and 0.9 are compared over integers after scaling by ten; no 32-bit value lies
  on one of them, so the comparisons are the same.
- Event manager: the work queue clears the pending flag and then runs the handler.
- ST25R3911B: a 32-bit mask is its four bytes.

## Left out

- ESB legacy fixed-length mode, address and radio setup, timers, PPI and errata workarounds; `nrf_esb_init`,
  `nrf_esb_suspend`, `nrf_esb_disable` and the checks for an uninitialised driver.
- ESB delivery of acknowledgement payloads to the transmitter and of noack traffic: the code promises neither.
- EsbLink.ExactlyOnceInOrder: runs contain no `nrf_esb_pop_tx`, `nrf_esb_reuse_pid`, transmitter `nrf_esb_flush_tx`
  or receiver `nrf_esb_flush_rx`, which break the packet ID chain; for the last one `EsbLink.FlushHarmlessIff`
  says exactly how. Selective auto-acknowledgement is off.
- EsbLink.DrainsWithinBudget: supposes that no transaction exhausts its budget and nothing is written meanwhile.
- cJSON floating-point numbers and their printing, allocation failure, hooks, references, duplication, lookup by
  name, and freeing of replaced items.
- JsonPrinter.PrintValue: numbers whose floating-point field is neither zero nor the integer field are not modelled.
- JsonMinify.MinifyInPlace: texts with an unclosed string or block comment are excluded, since the code steps over
  their ends without looking for the end of the text.
- JsonPower.Pow2Gt: for more than 2^30 characters the source's `int` overflows; block sizes are unbounded here.
- JsonPrinter and JsonBuffer print trees held as values; the linked items of `JsonList` are a separate model.
- Slip.PacketsSurviveChunking: covers reads without the overflow discard; `SlipPackets.PollDelivers` states when that is.
- Packet allocation, the network stack, RTT transport, polling periods, logging and debugging dumps.
- Profiler threads, commands, J-Link access, file output, plotting, conversion of ticks to milliseconds, UTF-8
  decoding of the description channel, and exceptions on malformed input.
- ProfilerTable.EventTable.RegisterEventType: supposes that the line fits the table entry, which the code only asserts.
- ProfilerHost.Host.Disconnect: supposes that after STOP reads find data until nothing is left, as its loop does.
- Event tracing and logging of the event manager; allocation of events.
- The rest of the NFC-A and ST25R3911B drivers: register and FIFO transfers over SPI, timers and the field state.
- Bluetooth services and pools, NFC tag libraries, cellular modem control, AT command parsing, sensors, boards and
  applications.
