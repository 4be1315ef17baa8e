# EMV contact-less terminal core, modelled in Dafny

The terminal talks to a PN532-style card reader over a serial line and decodes the card's answers. The core has three layers, and this project models all three.

- **TLV decoding** (`tlv.c`): `tlvParseData` decodes a BER-TLV buffer into a tree of tagged objects. `tlvObjectLookForTag` finds the first object with a given tag.
  - Module `Tlv` holds:
    - the specification functions `Parse`, `ParseChildren` and `ParseChild`, which work over buffer positions;
    - the cursor-based decoder `ParseData`, with its helpers `ReadTag`, `SkipTag`, `ReadLength` and `ParseChildrenData`;
    - the tag search.
  - Module `TlvEncoding` gives an independent reference encoder, `Encode`. It proves that the decoder inverts it, and that every truncation of an encoding is rejected.
  - Module `TlvScenarios` decodes concrete buffers: the answer to SELECT, a bare record, a template, and a template sent with the indefinite length form.
- **Serial frame layer** (`serial.c`): module `Serial`.
  - `sendCommand` writes the frame `0C len payload`.
  - `waitResponse` reassembles the reader's frame `code len payload` from chunked reads.
  - The specification function `Await` says which outcome a sequence of `read` results leads to. The method `WaitResponse` fills the caller's buffer and is proved to reach exactly that outcome.
- **APDU layer** (`apdu.c`): module `Apdu`.
  - `apduSendCommand` wraps a command APDU as `40 01 CLA INS P1 P2 [Lc data] [Le]`.
  - `apduWaitForResponse` splits the reader's answer into the data and the status trailer `SW1 SW2`.
  - Module `Workflow` joins the layers on the SELECT "2PAY.SYS.DDF01" exchange that `main.c` performs.

Modelling decisions:

- **Bounded decoding.** Every read that the C decoder would make past the end of the buffer it was handed is a decode failure here (`None`). The source checks the identifier octets of an object one octet too late (tlv.c:53). It never checks that a length octet follows them (tlv.c:63). It never checks its long-form length count (tlv.c:67-71). Its child loop (tlv.c:96-116) checks neither the skipped tag, nor the length octets, nor `pindex + rlen` against `length`. There a child can be handed octets that belong to the next child, and the source decodes a tree the octets do not spell. "## Findings" gives an input for each of these four spots.
- **32-bit arithmetic.** The tag and the long-form length are accumulated as `(acc << 8) + octet` in an `unsigned int`. They are modelled modulo 2^32 (`Bytes.WORD`).
- **The serial line.** The line is a parameter.
  - The results of successive `read` calls are a `seq<ReadResult>`: octets received, or a negative status.
  - What is written is returned as the octet string sent.
  - A line that stays silent for good, on which the source polls forever, is the outcome `Starved` (`Silent` for the APDU layer).
- **Departures from BER-TLV.** In four places the code does not decode what BER-TLV (ITU-T X.690 sections 8.1.1-8.1.3) lays down. The model follows the code in the first three:
  - **Only the first object is decoded.** A buffer holding two data objects side by side (`5A …` then `5F24 …`) decodes to the first one only, and the octets after it are ignored (`TlvScenarios.BareRecordKeepsFirstObject`).
  - **The child loop uses the outer buffer's end.** BER bounds the contents of a constructed object by its length octets (section 8.1.3). The code decodes children up to the end of the buffer it was handed instead (`TlvScenarios.TemplateReadsToBufferEnd`).
  - **The indefinite length form is read as length 0.** The length octet 80 marks content of indefinite length, ended by the two end-of-contents octets `00 00` (section 8.1.3.6). The code reads it as the long form with no octets after it, that is as the definite length 0 (tlv.c:66-71). A constructed object sent that way still gets its children, since they are read to the end of the buffer, and the end-of-contents octets become one more child: a primitive object with tag 0 and no value (`TlvScenarios.IndefiniteLengthReadAsZero`).
  - **A child that fails to decode fails the whole decode.** Such an encoding is not valid BER. The code stores NULL in the child array at that point and keeps the object. A NULL both ends the list that `tlvObjectLookForTag` walks and hides the children after it. Here the model departs from the code: the whole decode fails instead of keeping a truncated list.
- **The frame length is reduced modulo 256.** `apduSendCommand` passes its `int` length to `sendCommand`, whose length parameter is `uint8_t`, so the length is reduced modulo 256 there (`Apdu.ApduSendCommand`).

## Model

| member | source | states |
|---|---|---|
| Tlv.IsConstructed | tlv.c:43 | bit 20 of the first identifier octet marks a constructed object: the upper half of each class's quarter of the octet values |
| Tlv.ContinuationEnd | tlv.c:50-58 | a run of octets with bit 80 set ends inside the buffer, past the index where it starts |
| Tlv.ClassOf | tlv.c:42 | the class is the top two bits of the first identifier octet: each of the four classes exactly for its quarter of the octet values |
| Tlv.IdentifierOctets | tlv.c:45-60 | a low-five-bits value other than 1F is a one-octet tag. Otherwise the tag runs through octets with bit 80 set and ends with the first octet that has it clear. The tag is incomplete exactly when every later octet has bit 80 set |
| Tlv.DecodedObject | tlv.c:36-78 | fewer than two octets give no object. A decoded object's class, constructed bit, tag and declared length come from its header, and the header and value fit the buffer. A primitive value is exactly the `length` octets after the header |
| Tlv.ParseData | tlv.c:34-143 | the cursor decoder, with its 32-bit accumulation, returns exactly `Parse(data)` |
| Tlv.ParseChildrenData | tlv.c:92-119 | the child loop returns exactly the children `ParseChildren` finds from the first child to the end of the buffer, or fails when any child fails |
| Tlv.ReadTag | tlv.c:44-60 | fails exactly when the identifier octets run past the buffer. Otherwise it returns their big-endian value modulo 2^32 and the index just past them |
| Tlv.SkipTag | tlv.c:98-100 | skipping a child's identifier octets stops where `TagEnd` does, and fails when they run past the buffer |
| Tlv.TagEnd | tlv.c:44-60 | the identifier octets, when complete, end inside the buffer and past their first octet |
| Tlv.ParseLength | tlv.c:62-72 | the length octets, when present, end inside the buffer and past the index where they start, and the declared length is below 2^32 |
| Tlv.ParseHeader | tlv.c:44-72 | a header takes at least two octets and fits in what remains of the buffer |
| Tlv.Parse | tlv.c:34-143 | what is decoded fits after a header of at least two octets: a primitive value of at most `|d| - 2` octets, or children of at least two octets each |
| Tlv.ParseChildren | tlv.c:92-119 | each child found from `pos` takes at least two octets, so there are at most half as many children as octets left |
| Tlv.ReadLength | tlv.c:62-72 | short form below 80. Long form: the low seven bits count the octets that follow, read big-endian modulo 2^32. Fails when those octets are not in the buffer |
| Tlv.ChildrenTile | tlv.c:92-119 | the children are the decodings of consecutive slices in buffer order. Each slice spans one child's header and value, and together the slices run from the first child to the end of the buffer |
| Tlv.ChildrenOfWords | tlv.c:92-119 | conversely, a buffer tail made of the encodings of some objects laid end to end decodes to exactly those objects, in order |
| Tlv.LookForTag | tlv.c:145-167 | any object found has the tag searched for, and an absent tree has none |
| Tlv.Search | tlv.c:145-167 | an object found in a tree has the tag searched for |
| Tlv.SearchChildren | tlv.c:152-163 | an object found among the children has the tag searched for |
| Tlv.SearchIsFirstInPreOrder | tlv.c:145-167 | the search returns the first node, in a pre-order left-to-right walk, whose tag matches |
| Tlv.SearchChildrenIsFirstInPreOrder | tlv.c:152-163 | the children are searched left to right, each subtree in full before the next |
| Tlv.SearchFindsAny | tlv.c:145-167 | nothing is found exactly when no node has the tag, and a matching node is returned before its descendants |
| Tlv.FirstWithTagIsFirst | tlv.c:154-161 | the node found is the one at the first index that matches |
| Tlv.TagStepAsWritten | tlv.c:52-53 | as written, the identifier loop's cursor never passes `length` but reaches it exactly when the octet consumed is the last one, and the loop then reads there |
| Tlv.TagStepAsWrittenOverreads | tlv.c:50-56 | as written, in the two-octet buffer `1F 81` the continuation octet 81 is consumed and the identifier loop goes on to read index 2 |
| Tlv.UnfinishedTagRejected | tlv.c:50-56 | the model rejects the unfinished tag `1F 81` |
| Tlv.LengthCheckAsWritten | tlv.c:74 | as written, the test is the intended one while the cursor is inside the buffer. Once the cursor is past the end, the difference wraps and only a declared length above `2^32 + length - pindex` is rejected |
| Tlv.LengthCheckAsWrittenPasses | tlv.c:66-78 | as written, the buffer `04 82` makes the length loop read indices 2 and 3, and the test against the remaining length lets almost any declared length through |
| Tlv.MissingLengthOctetsRejected | tlv.c:66-78 | the model rejects `04 82`, whose announced length octets are missing |
| Tlv.LengthOctetAsWrittenOverreads | tlv.c:60-78 | as written, the tags `5F 24` and `BF 0C` fill their two-octet buffers with the loop of tlv.c:50 skipped, so the length octet is read at index 2. An octet there below 80 leaves the cursor at 3, and the test of tlv.c:74 then lets that length through |
| Tlv.MissingLengthOctetRejected | tlv.c:62-72 | the model finds the tag's end at the end of `5F 24`, has no length octet to read, and rejects `5F 24` and `BF 0C` |
| Tlv.ChildExtentAsWritten | tlv.c:113-116 | as written, the new cursor and the octet count handed to the child are the child's end and size, as long as the uint8 cursor does not wrap |
| Tlv.ChildOverrunAsWritten | tlv.c:94-116 | as written, on `70 07 61 03 5A 02 11 22 00` child 61 is handed 5 octets. Its grandchild 5A is handed 4 octets, one past those 5, and they decode to `5A` holding `11 22`. The template's next child is then `22 00`, a constructed object whose header fills its slice |
| Tlv.OverrunningChildRejected | tlv.c:94-116 | the model rejects that buffer, because grandchild 5A would end past the child that holds it |
| Tlv.EmptyNodeUnterminatedAsWritten | tlv.c:81-118 | as written, `70 00`, `A5 00` and `BF 0C 00` each have a constructed header that ends at the end of the buffer, so the child loop is never entered and the terminator of the child array is never written |
| Tlv.EmptyNodeHasNoChildren | tlv.c:81-118 | the model decodes those buffers to objects with an empty child list, and a search of `BF 0C 00` for 6F finds nothing |
| Tlv.ParseChild | tlv.c:94-116 | a child found ends inside the buffer it was found in, past the index where it starts |
| TlvEncoding.EncodedHeader | tlv.c:44-72 | the reference encoding's header decodes to the object's tag, class, constructed bit and content length, and the content follows it |
| TlvEncoding.ParseEncode | tlv.c:34-143 | every well-formed object decodes from its reference encoding: the decoder inverts the encoder |
| TlvEncoding.TruncatedFails | tlv.c:36-78 | every proper prefix of an encoding is rejected |
| TlvEncoding.TruncatedValue | tlv.c:74-78 | a prefix that cuts into the value is rejected by the declared-length check |
| TlvEncoding.TruncatedLength | tlv.c:62-72 | a prefix that cuts into the length octets has no header |
| TlvEncoding.TruncatedIdentifier | tlv.c:50-56 | a prefix that cuts into a multi-octet tag has no header |
| TlvScenarios.SelectAnswerDecodes | tlv.c:34-143 | `6F 10 84 0E "2PAY.SYS.DDF01"` decodes to template 6F of the application class, holding the context-specific name 84, and the search for 84 finds it |
| TlvScenarios.BareRecordKeepsFirstObject | tlv.c:36-78 | of two objects side by side, only the first is decoded, and a search for the second finds nothing |
| TlvScenarios.TemplateReadsToBufferEnd | tlv.c:92 | a template declaring 3 octets of content still gets every child up to the end of the buffer |
| TlvScenarios.TemplateChildren | tlv.c:92-119 | the children of that template are the card number and the expiry date, in order |
| TlvScenarios.IndefiniteLengthReadAsZero | tlv.c:62-72 | the length octet 80 of `70 80 5A 01 11 00 00` is read as the definite length 0. The template then holds the card number and, from the end-of-contents octets, a primitive object with tag 0 and no value |
| TlvScenarios.IndefiniteChildren | tlv.c:92-119 | the children of that template are the card number and the object read from `00 00`, in order |
| Serial.CommandFrame | serial.c:76-91 | nothing for an empty payload. Otherwise `len + 2` octets: code 0C, the length, then the payload |
| Serial.SendCommand | serial.c:76-94 | what is written is exactly `CommandFrame(buffer)` |
| Serial.Status | serial.c:109-169 | the value returned is the frame's code, the read's negative status, or -1 for a malformed frame |
| Serial.Await | serial.c:96-170 | a frame's payload never exceeds the capacity |
| Serial.Gather | serial.c:150-166 | the payload kept while the rest of a frame arrives never exceeds the capacity |
| Serial.WaitResponse | serial.c:96-170 | the reassembling loop reaches exactly the outcome `Await` gives. The caller's buffer starts with the payload kept, every octet after it is as before, and nothing at or past the capacity is written |
| Serial.Append | serial.c:150-159 | a later chunk is copied after the octets already held, only as far as the capacity, and every other octet of the buffer is as before. The count held never exceeds the capacity |
| Bytes.CopyInto | serial.c:159 | a memcpy, as here and also at serial.c:89 and 147 and apdu.c:104 and 169: the octets copied land at the index given, and every other octet of the buffer is as before |
| Serial.IdleIgnored | serial.c:109-111 | reads that return nothing are retried and change nothing |
| Serial.FailureFirst | serial.c:111-113 | a negative read before any octet is the outcome, whatever follows |
| Serial.FailureWhileWaiting | serial.c:109-113 | a negative read while the wait is still on, before any octet or in the middle of a frame, is the outcome, whatever follows |
| Serial.GatherFailure | serial.c:109-113 | a negative read while the rest of a frame is awaited is the outcome, whatever follows |
| Serial.ShortFirst | serial.c:127-131 | a first chunk of one octet is a malformed frame, whatever follows |
| Serial.AwaitPrefix | serial.c:132-147 | the code is the first octet received, and the payload kept is a prefix of what follows the code and the length, in arrival order |
| Serial.AwaitStops | serial.c:141-143 | once a frame is complete, later reads are not consumed, so the outcome does not depend on them |
| Serial.FrameReassembled | serial.c:127-165 | the frame `code, len, p` gives the code and the first `max` octets of `p`, however it is split into chunks, as long as the first chunk holds the code and the length |
| Serial.CommandFrameRoundTrip | serial.c:76-91 | a command frame read back gives the code 0C and its payload, clipped to the capacity |
| Serial.AppendAsWritten | serial.c:152-157 | as written, as long as the uint8 `*len` neither wraps nor is past the capacity, it grows by the chunk's size and the count copied is what fits in the room left |
| Serial.AppendAsWrittenWraps | serial.c:152-159 | as written, 253 octets held and a 5-octet chunk wrap the uint8 length to 2, and 5 octets are copied at index 253 of a 255-octet buffer |
| Serial.AppendAsWrittenNegative | serial.c:152-159 | as written, a held length already past the capacity gives memcpy a negative count |
| Apdu.Envelope | apdu.c:85-108 | the header `40 01 CLA INS P1 P2`, then `Lc` and the data when there is data, then `Le` when present. The length is `6 + lc`, plus 1 for Lc, plus 1 for Le |
| Apdu.ParseEnvelopeOfEnvelope | apdu.c:85-108 | every command is read back from its envelope |
| Apdu.EnvelopeOfParseEnvelope | apdu.c:85-108 | octets read as a command are exactly the envelope of the command read from them |
| Apdu.WriteEnvelope | apdu.c:93-108 | filling the buffer octet by octet produces exactly the envelope |
| Apdu.ApduSendCommand | apdu.c:82-125 | what is written is the command frame of the envelope, with the envelope length reduced modulo 256 |
| Apdu.EnvelopeSentWhole | apdu.c:86-88 | an envelope of at most 247 data octets fits the one-octet length and is sent whole |
| Apdu.Interpret | apdu.c:146-171 | a result code other than 0A is returned as is. A payload shorter than 2 octets has no trailer. Otherwise SW1 and SW2 are the last two octets, and the data is kept exactly when the capacity can hold it |
| Apdu.IsSuccess | apdu.c:157 | an answer is a success exactly when it carries the trailer 90 00 |
| Apdu.ResultCode | apdu.c:146-171 | the value returned is the reader's code when it refused, 0A otherwise |
| Apdu.ResponseLength | apdu.c:146-171 | `*reslen` becomes 0 on a refusal, the data length when the data is copied, and stays unchanged otherwise |
| Apdu.Respond | apdu.c:131-151 | the APDU layer is silent exactly when the frame layer is still waiting |
| Apdu.InterpretSplitsTrailer | apdu.c:154-169 | data followed by a trailer is split back into the two |
| Apdu.AnsweredJoinsBack | apdu.c:154-169 | an answer is the payload it came from: the data, then SW1 and SW2 |
| Apdu.ApduWaitForResponse | apdu.c:127-172 | the answer is exactly `Respond(Await(chunks, 255), reslen)`, and the new `*reslen` is `ResponseLength` of it. The data is copied to the front of the caller's buffer only when that answer carries it. Every other octet of that buffer is as before |
| Apdu.ResponseReassembled | apdu.c:127-172 | a reader answer `0A, len, d, SW1, SW2` whose payload fits the 255-octet buffer gives the trailer and, capacity permitting, `d`. This holds however the answer is split into chunks, as long as the first chunk holds the code and the length. It is a success exactly for 90 00 |
| Apdu.TrailerAsWritten | apdu.c:154-168 | as written, with a trailer present, the index SW1 is read from, the capacity test and the new `*reslen` are the intended ones. A payload shorter than the trailer gives an index before the buffer, a copy into any capacity and a `*reslen` of at least 254 |
| Apdu.TrailerAsWrittenEmptyPayload | apdu.c:154-169 | as written, an empty payload reads SW1 from index -2 and copies 254 octets to a caller with room for none |
| Apdu.EmptyPayloadHasNoTrailer | apdu.c:154-169 | in the model, the frame `0A 00` gives no trailer and leaves the caller's length alone |
| Workflow.SelectCommandOctets | main.c:83 | SELECT "2PAY.SYS.DDF01" is laid out as the 22 octets `40 01 00 A4 04 00 0E`, the name and `00`. It is sent whole as the 24-octet command frame `0C 16` followed by those 22 octets |
| Workflow.SelectAnswerEndToEnd | main.c:83-87 | the reader's answer to SELECT is a success whose data decodes to template 6F holding the name under 84. This holds however the answer is split into chunks, as long as the first chunk holds the code and the length |

## Left out

- Debug output (the `LOGLEVEL_DEBUG` blocks), `tlvObjectPrint`, `tlvObjectPrintIndented`, `apduPrintError` and `mycodesPrintStr`: they only print.
- `tlvObjectFree`, and every `malloc`/`free`: memory is not modelled. An allocation that fails, on which the source returns NULL or nothing, is not a case here.
- `serialInitialize`, `apduInitialize` and `apduWaitForCard`: they set up the port and poll for a card. They lie outside the frame and APDU exchanges modelled here.
- The real `read` and `write` calls: the line is a parameter, as described above.
- `main.c` and `mycodes.c` are not part of this model, except for the SELECT command that `main.c` sends and decodes.
- NULL arguments: a NULL `buffer` to `waitResponse` (which returns 0), a NULL `data` with `lc > 0`, and NULL `reslen`, `resdata`, `sw1` or `sw2` are outside the model. Every argument is present.
- Serial.WaitResponse: a single `read` returns at most `BUFFER_SIZE` (255) octets. The model lets a chunk be any length, which admits more inputs than the source can see.
- Tlv.ParseData: the identifier, length and child reads that the source makes past the end of the buffer it was handed read whatever lies there. The model reports failure instead. "## Findings" gives the four spots where the source's check is too late or missing: the identifier octets, the length octet after a tag that fills the buffer, the long-form length count, and the child loop's skipped tag, length octets and `pindex + rlen`.
- Tlv.ParseChildrenData: the source's NULL entry in the child array is modelled as failure of the whole decode, as described above. The partial tree the source keeps is not modelled.
- Tlv.ParseChildrenData: a constructed object with no content (`70 00`, `BF 0C 00`) gets an empty child list. The source leaves that object's child array unterminated (see "## Findings"), which is not modelled.
- Tlv.Parse: the declared length of a constructed object is not kept, because the source leaves it unused once the children are decoded.
- Apdu.ApduWaitForResponse: the payload of fewer than two octets that the source mishandles (see "## Findings") gives `NoTrailer` here. In that case SW1, SW2 and the caller's data are left alone.

## Findings

| source | as written | input that shows it | evidently intended | confidence | as-written member | corrected member |
|---|---|---|---|---|---|---|
| tlv.c:50-56 | the loop gives up only when the cursor is past `length`, then reads `data[pindex]` at `pindex == length` | `1F 81`: the loop reads index 2 of a two-octet buffer | give up when the cursor reaches `length` | not executed | Tlv.TagStepAsWrittenOverreads | Tlv.ReadTag |
| tlv.c:60-78 | after a multi-octet tag that takes up the whole buffer, the length octet is read at `pindex == length`. The identifier loop's bound (tlv.c:53) does not help, since the loop is skipped | `5F 24`, or the FCI proprietary template tag `BF 0C`: index 2 of a two-octet buffer is read. An octet there below 80 leaves the cursor at 3, `length - pindex` is -1, and as unsigned it passes the check | reject a tag with no length octet after it | not executed | Tlv.LengthOctetAsWrittenOverreads | Tlv.MissingLengthOctetRejected |
| tlv.c:66-78 | the long-form count is never checked against the buffer. `length - pindex` then goes negative, and as unsigned it passes every declared length | `04 82`: indices 2 and 3 are read, and the check accepts any declared length below 2^32 - 2 | reject a count larger than the octets that remain | not executed | Tlv.LengthCheckAsWrittenPasses | Tlv.ReadLength |
| serial.c:152-159 | `*len` is a uint8_t and wraps past 255, so the capacity test misses the overflow | capacity 255, 253 octets held, a 5-octet chunk: `*len` becomes 2, and 5 octets are copied at index 253, the last three past the end | never copy past the capacity | not executed | Serial.AppendAsWrittenWraps | Serial.Append |
| serial.c:156-159 | `*len` is not clipped after the capacity test, so the next chunk's count goes negative | capacity 4, declared length 10, chunks `0A 0A 1 2 3`, `4 5 6`, `7 8`: the third chunk gives memcpy a count of -2 at index 6. A capacity below 255 is needed, and every caller in this program passes 255 | stop storing once the buffer is full | not executed | Serial.AppendAsWrittenNegative | Serial.Append |
| tlv.c:81-118 | the NULL that ends a node's child array is written only inside the child loop, after a child. A constructed object whose header ends its buffer never enters the loop, so the one slot allocated at tlv.c:85 stays unset, and tlvObjectLookForTag (tlv.c:155) reads it as a child | `70 00`, `A5 00`, or `BF 0C 00` (the FCI proprietary template tag that `main.c` searches for): the header takes the whole buffer | an empty, terminated child array | not executed | Tlv.EmptyNodeUnterminatedAsWritten | Tlv.EmptyNodeHasNoChildren |
| tlv.c:94-116 | the child loop checks neither the skipped tag, nor the length octets, nor `pindex + rlen` against `length`, so a child's slice can run past its parent's | `70 07 61 03 5A 02 11 22 00`: grandchild 5A takes 22 from the template's next child, and the result is 70 holding 61 (holding 5A = `11 22`) and the constructed 22, whose header fills its slice, with no read past index 8 | reject a child that does not end inside its parent | not executed | Tlv.ChildOverrunAsWritten | Tlv.OverrunningChildRejected |
| apdu.c:154-169 | the trailer is read from `buflen - 2` without checking that two octets exist | the reader frame `0A 00`: SW1 is read at index -2, and 254 octets are copied to a caller that offered none | report a missing trailer | not executed | Apdu.TrailerAsWrittenEmptyPayload | Apdu.EmptyPayloadHasNoTrailer |
