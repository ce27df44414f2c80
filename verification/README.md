# Verification of the JSON and ARP code

A Dafny model of two parts of the repository, with proofs of what they are for. `dafny verify
dfyconfig.toml` checks all of it.

**JSON.** The pull reader of `az_json_reader.c` reads one buffer or an array of buffers that may split any token
at any byte. `ReaderSpec` says what it does on one contiguous text; the class `JsonReader`, which moves over
buffers as the source does, is proved to compute the same on every split; and `JsonGrammar` with
`JsonAcceptance` says in terms of trees which texts that accepts, `JsonStrict` which of them RFC 8259 has,
`JsonTrees` which tokens come from a tree, `JsonNesting` and `JsonErrors` why the reader stops elsewhere, and
`JsonChars` what the characters of a string denote. The writer of `az_json_writer.c` escapes and copies into
whatever buffers its allocator hands out. `WriterSpec` says which text its appends mean; the class `JsonWriter`
is proved to write it, into one buffer or into the packets of a chain, `WriterRoom` says when there is enough
space for that, and `JsonRoundTrip` that the reader gets the appended tokens back. `JsonTokenValue` and
`JsonTokenNumber` model the accessors of a token that may straddle buffers, and `JsonValues` puts reader,
accessors and writer together. `Decimal` has the integer routines of `az_span.c`, `BitStack` the nesting stack
in a shift register, `WriterPackets` the packet allocator, and `Packets` the packet chain and
`nx_azure_iot_mqtt_packet_adjust`.

**ARP.** The entries of the cache are threaded through two pool lists and 32 buckets, all circular and
doubly linked. `Rings` proves what linking and unlinking do to such a ring. The class `ArpLists` holds
the links and counters, the class `ArpCache` the mappings, the timers and the waiting packets;
`ArpEntries` has the values behind them, `ArpTimers` what a run of the periodic update does, and `ArpRuns` the
whole runs. An entry's pointer is its place in the cache memory. The packets' fates are kept in a ghost
map, so that every packet is in one place.

Facts about the code that the contracts spell out:

- `src/az_json_reader.c:656-692` accepts an exponent mark without digits before a delimiter, which section
  6 of RFC 8259 does not allow. `JsonGrammar` has that form, `JsonStrict` is without it; everything else is that
  of RFC 8259, with nesting of at most 64 and bytes from 0x20 up not checked as UTF-8.
- `src/az_json_writer.c:785-802` writes the comma before a JSON text without counting it, so the byte count and the
  packets' length field are right after it exactly when no comma was due.
- `src/az_json_writer.c:285-361` spells other bytes below 0x20 as \u escapes, which
  `src/az_json_token.c:126-133` never decodes; strings with such bytes cannot be read back.
- `src/az_json_writer.c:399-429` and `src/az_json_writer.c:480-554` ask for a chunk of 64 bytes before the closing
  quote of a long string, so in a single buffer such a string needs that much more space than it takes.
- `src/nx_arp_dynamic_entry_delete.c:84-152` leaves a deleted entry in its place on the dynamic list. The counted
  walk of `src/nx_arp_hardware_address_find.c:150-186` is exact while the active entries come first and there is
  at least one. In general it is exact unless it goes through an inactive entry of an address that no active
  entry has, or only an active entry beyond its reach has the address; both can happen after a deletion.
- `src/nx_arp_periodic_update.c:175-234` goes on from the head of the list after an expiry. While the active entries
  come first, a run visits every one of them once exactly if none but the last expires, and misses the last otherwise.
- `src/nx_arp_packet_receive.c:459-466` and `src/nx_arp_packet_receive.c:511-521` take a zero hardware address from a
  message and stop the timer. Such an entry stays active without an address and never expires.
- `src/az_span.c:682` negates the smallest 32-bit number, which C leaves undefined; here it wraps around.

Preconditions are those that the source states: non-empty buffers (`src/az_json_reader.c:155-159`), the
validity checks of the writer (`src/az_json_writer.c:96-199`), strings of at most 166,666,666 bytes, at
least one ARP entry (`src/nxe_arp_enable.c:101`) and a hardware address that is not zero for static entries
(`src/nxe_arp_static_entry_create.c:109`). `nx_packet_allocate` is a script of answers, so that the proofs hold
for every pool; the route of an address, the interfaces' MTUs and the presence of a fragmentation routine are parameters.

## Model

| member | source | states |
|---|---|---|
| Decimal.ParseUnsigned | src/az_span.c:103-207 | parses exactly the digit strings, with an optional plus, whose value is in range, to that value; the division test is exact |
| Decimal.ParseSigned | src/az_span.c:209-347 | the same for optionally signed digits and a two's complement type, the smallest value included |
| Decimal.ParseDigits | src/az_span.c:131-154 | the loop that both share: the digits' value in base ten if it does not exceed the maximum, nothing otherwise |
| Decimal.Digits | src/az_span.c:566-597 | every number has a text of digits without a leading zero that denotes it |
| Decimal.CanonicalUnique | src/az_span.c:566-597 | there is only one text of digits without a leading zero for a number |
| Decimal.LeadingDivisor | src/az_span.c:576-583 | the loop from the type's largest divisor down finds the number of digits and the place value of the first |
| Decimal.AppendUnsigned | src/az_span.c:566-662 | writes those digits if there is room for them, and nothing else in the buffer changes |
| Decimal.PrintInt32 | src/az_span.c:671-686 | writes the sign and the digits of a 32-bit number, also of the smallest |
| Decimal.UnsignedRoundTrip | src/az_span.c:103-207 | what is printed for an unsigned number parses back to it |
| Decimal.SignedRoundTrip | src/az_span.c:209-347 | the same for every signed value of the type |
| Decimal.PrintsBack | src/az_span.c:566-597 | conversely, digits without a leading zero that parse are what their value prints as |
| BitStack.PushLosesNothing | src/az_json_private.h:90-99 | below the limit of 64 a push into the shift register keeps every container that was there |
| BitStack.JsonStack.Push | src/az_json_private.h:90-99 | refines pushing onto a sequence of containers |
| BitStack.JsonStack.Pop | src/az_json_private.h:69-88 | refines dropping the innermost container and returns the one that is innermost then |
| BitStack.JsonStack.Peek | src/az_json_private.h:101-110 | the lowest bit is the innermost container, or reads as an array outside all of them |
| ReaderSpec.NextToken | src/az_json_reader.c:880-950 | the reader on one contiguous text: a token always moves forward, the nesting stays within 64, and DONE comes exactly at the end of a finished text |
| JsonReader.JsonReader.constructor | src/az_json_reader.c:14-88 | over non-empty buffers the reader starts at the first byte of the text that they spell, outside every container |
| JsonReader.JsonReader.GetNextBuffer | src/az_json_reader.c:127-163 | moves to the next buffer without losing the place in the text or the start of the token |
| JsonReader.JsonReader.SkipBlanks | src/az_json_reader.c:165-188 | skips white space over any number of buffers, to where the contiguous reader skips it |
| JsonReader.JsonReader.UpdateState | src/az_json_reader.c:98-125 | the token handed out spans exactly its stretch of the text, wherever its pieces lie |
| JsonReader.JsonReader.ProcessString | src/az_json_reader.c:246-361 | scans a string split anywhere, inside escapes and \uXXXX too, to the same end, flag or error as in one piece |
| JsonReader.JsonReader.ProcessPropertyName | src/az_json_reader.c:363-391 | a name and its colon, as in one piece |
| JsonReader.JsonReader.ConsumeDigits | src/az_json_reader.c:424-463 | consumes the digits up to the first other byte of the text, over any number of buffers |
| JsonReader.JsonReader.EndNumber | src/az_json_reader.c:395-422 | decides at the byte after a run of digits whether the number ends, goes on or is an error |
| JsonReader.JsonReader.ProcessNumber | src/az_json_reader.c:503-703 | scans a number split anywhere to the same end or error as in one piece |
| JsonReader.JsonReader.ProcessLiteral | src/az_json_reader.c:707-746 | matches true, false and null split anywhere, with the error of the contiguous text |
| JsonReader.JsonReader.ProcessContainerStart | src/az_json_reader.c:209-226 | opens a container, or overflows at depth 64 |
| JsonReader.JsonReader.ProcessContainerEnd | src/az_json_reader.c:190-207 | closes the innermost container if it is of this kind |
| JsonReader.JsonReader.ProcessValue | src/az_json_reader.c:748-793 | a value of any kind, as in one piece |
| JsonReader.JsonReader.ReadFirstToken | src/az_json_reader.c:795-823 | the first token, as in one piece |
| JsonReader.JsonReader.ProcessNextByte | src/az_json_reader.c:825-878 | what follows a value, as in one piece |
| JsonReader.JsonReader.NextToken | src/az_json_reader.c:880-950 | result, state, token kind, size, escape flag and token bytes are those of the contiguous text, however it is split |
| JsonReader.JsonReader.SkipChildren | src/az_json_reader.c:952-972 | stops with the result and in the state of skipping the contiguous text; the token is then the bracket that ends what was skipped, or the named value if that is no container, and as it was where there was nothing to skip |
| JsonReading.ReadTokens | src/az_json_reader.c:880-950 | reading any split of a text until the reader stops gives the tokens and the last result of the contiguous text; that result is DONE exactly on JSON texts |
| JsonReading.ValidateJson | src/az_json_writer.c:717-750 | accepts exactly the JSON texts; neither the first nor the last token is one that cannot be |
| JsonAcceptance.AcceptsExactlyJson | src/az_json_reader.c:795-950 | reading ends with DONE if and only if the text is spelled by a JSON tree nested at most 64 deep, where an exponent mark without a sign may lack its digits |
| JsonTrees.ReadsTree | src/az_json_reader.c:795-950 | whichever way a text is spelled by a tree, the tokens read are those of the tree in order, with the spelling of each string, name, number and literal, and then DONE |
| JsonNesting.NestedResult | src/az_json_reader.c:209-226 | a text of the grammar, nested as deep as it may be, is read to its end if its nesting is at most 64, and stops the reader with NESTING_OVERFLOW otherwise |
| JsonNesting.OverflowsExactlyAt | src/az_json_reader.c:209-226 | a token overflows the nesting if and only if 64 containers are open and an opening bracket stands where a value is due |
| JsonErrors.EndsExactlyIfContinuable | src/az_json_reader.c:127-163 | the reader stops with UNEXPECTED_END if and only if the text is not JSON but some longer one that starts with it is |
| JsonErrors.RunGoesOn | src/az_json_reader.c:190-950 | a run that stops at an unexpected byte or at a container stops there with the same tokens and result whatever follows |
| JsonStrict.SpelledStrictly | src/az_json_reader.c:656-692 | a tree that spells an accepted text has a bare exponent somewhere if and only if the reader hands out a number that ends in its mark |
| JsonStrict.AcceptsBeyondStrict | src/az_json_reader.c:795-950 | the texts of RFC 8259 are exactly those that the reader accepts without handing out a number that ends in e or E |
| JsonStrict.AcceptsBareExponent | src/az_json_reader.c:656-692 | [1e] is accepted and is no text of RFC 8259; 1e alone is not accepted |
| JsonGrammar.ScansChars | src/az_json_reader.c:246-361 | every spelling of valid string characters is scanned up to its closing quote |
| JsonGrammar.CharsScanned | src/az_json_reader.c:246-361 | whatever is scanned as a string is such a spelling |
| JsonChars.SpelledOnce | src/az_json_reader.c:246-361 | the inside of a string is spelled by one sequence of characters only |
| JsonGrammar.ScansNumber | src/az_json_reader.c:503-703 | every spelling of a number that ends properly is scanned to its end |
| JsonGrammar.NumberScanned | src/az_json_reader.c:503-703 | whatever is scanned as a number is such a spelling |
| JsonChars.ByteClasses | src/az_json_reader.c:165-188 | white space, digits, hexadecimal digits, signs, exponent marks, escapable bytes and delimiters are the characters that RFC 8259 names |
| JsonAcceptance.SkipNested | src/az_json_reader.c:952-972 | skipping a container, when it succeeds, stops on its matching end, one level further out, after skipping the inner ones whole |
| JsonAcceptance.SkipsNamedValue | src/az_json_reader.c:956-970 | at a property name, skipping the children succeeds on every well-formed value that follows within the nesting limit, container or not, and stops after it |
| JsonAcceptance.SkipsOnlyNamedValue | src/az_json_reader.c:956-970 | a skip at a property name that succeeds has read exactly one well-formed value |
| JsonAcceptance.SkipsOpenedValue | src/az_json_reader.c:961-970 | at an opening bracket, skipping the children goes to the end of the value that the bracket opens, for every well-formed value within the limit |
| JsonAcceptance.SkipsOnlyOpenedValue | src/az_json_reader.c:961-970 | a skip there that succeeds covers exactly one well-formed value |
| JsonAcceptance.SkipStops | src/az_json_reader.c:952-972 | a skip that fails does so for the reason for which reading token by token stops; at any other token the reader stays where it is |
| JsonStrings.UnescapedSize | src/az_json_token.c:200-212 | unescaping at most halves a text, so the early exits by size never reject a match |
| JsonChars.UnescapeMeans | src/az_json_token.c:59-149 | unescaping the spelling of any valid characters gives what section 7 of RFC 8259 says that they denote, and nothing exactly if there is a \u escape among them |
| JsonTokenValue.IsPieceEqual | src/az_json_token.c:86-149 | compares one piece of a token, carrying a backslash at its end over to the next |
| JsonTokenValue.IsTextEqual | src/az_json_token.c:151-244 | true exactly when a string token, however split, has no \u escape and unescapes to the expected text; JsonChars.UnescapeMeans states what that is |
| JsonTokenValue.CopyIntoSpan | src/az_json_token.c:13-57 | puts the pieces of a token together |
| JsonTokenValue.GetPiece | src/az_json_token.c:277-326 | copies one piece of a token unescaped, with the exact reason when it cannot |
| JsonTokenValue.GetString | src/az_json_token.c:328-429 | succeeds exactly when there is no \u escape and the unescaped text and its zero fit, and then has copied them; JsonChars.UnescapeMeans states what that text is |
| JsonTokenNumber.TokensAreReady | src/az_json_reader.c:246-703 | every string token of every run is well escaped with a right flag, and every number token is a JSON number, as the accessors need |
| JsonTokenNumber.LongIsRejected | src/az_json_token.c:449-453 | a JSON number longer than the scratch buffer is an overflow or no integer, so nothing is lost by rejecting it |
| JsonTokenNumber.ScratchBuffersSuffice | src/az_json_token.c:431-567 | the sizes of the four scratch buffers are large enough for that |
| JsonTokenNumber.GetUnsigned | src/az_json_token.c:431-499 | the same result on a split number token as on a contiguous one: its value, if it is an unsigned integer in range |
| JsonTokenNumber.GetSigned | src/az_json_token.c:501-567 | the same for signed integers |
| JsonValues.ReadText | src/az_json_token.c:151-429 | get_string and is_text_equal agree on every string token of every split: the text that the one copies is the one that the other finds equal |
| JsonValues.ReadValues | src/az_json_token.c:151-567 | reading a text and the value of each of its tokens gives the values of the contiguous text, however it is split |
| JsonStrings.EscapeRoundTrip | src/az_json_writer.c:285-361 | what the writer escapes unescapes to what it was, exactly when every byte below the space has a two-byte escape, and does not unescape otherwise |
| JsonChars.EscapeDenotes | src/az_json_writer.c:285-361 | each byte is written plain, with the letter of its two-byte escape, or as \u and four upper-case hexadecimal digits with its value, and in the right cases |
| JsonChars.EscapeDecodes | src/az_json_writer.c:285-361 | whatever text is escaped, the characters that spell the result denote its bytes one by one, \u escapes read as their value |
| JsonWriter.EscapedLength | src/az_json_writer.c:207-283 | counts exactly the bytes that escaping writes; the index is that of the first byte that needs it |
| JsonWriter.JsonWriter.constructor | src/az_json_writer.c:15-36 | a writer over one buffer has written nothing |
| JsonWriter.JsonWriter.OverPackets | src/az_json_writer.c:38-62 | a writer over the packets of a chain has written nothing, and the chain carries what it did |
| JsonWriter.JsonWriter.GetRemainingSpan | src/az_json_writer.c:64-92 | hands out the rest of the buffer or a new one of the size asked for, exactly if the rest is that large or the allocator has one; the text written so far stays |
| JsonWriter.JsonWriter.EscapeNextByteAndCopy | src/az_json_writer.c:285-361 | writes the escape of one byte, whose meaning JsonChars.EscapeDenotes states, and returns its length |
| JsonWriter.JsonWriter.EscapeAndCopy | src/az_json_writer.c:363-384 | writes the escape of a text behind what is there |
| JsonWriter.JsonWriter.UpdateState | src/az_json_writer.c:386-397 | the bytes put behind the text become part of it, and are counted |
| JsonWriter.JsonWriter.SpanCopyChunked | src/az_json_writer.c:399-429 | the text grows by the value, over as many buffers as it takes; succeeds if there is room for it and a chunk, and in a single buffer exactly if it does not fill the rest |
| JsonWriter.JsonWriter.AppendStringSmall | src/az_json_writer.c:431-478 | on success the text grows by the comma that is due and the quoted, escaped string, all its bytes counted; fails exactly if neither the rest of the buffer nor the next one has that many bytes |
| JsonWriter.JsonWriter.AppendStringChunked | src/az_json_writer.c:480-554 | the same for long strings, over any buffers; succeeds if there is room for the text and a chunk, in a single buffer exactly if a chunk is left at the closing quote |
| JsonWriter.JsonWriter.AppendString | src/az_json_writer.c:556-570 | the same for any string, whose escape JsonChars.EscapeDecodes pins, with the exact space it needs in a single buffer |
| JsonWriter.JsonWriter.AppendPropertyNameSmall | src/az_json_writer.c:572-620 | as for short strings, with the colon |
| JsonWriter.JsonWriter.AppendPropertyNameChunked | src/az_json_writer.c:622-698 | as for long strings, with the colon |
| JsonWriter.JsonWriter.AppendPropertyName | src/az_json_writer.c:700-715 | the same for any name |
| JsonWriter.JsonWriter.AppendLiteral | src/az_json_writer.c:806-852 | the same for true, false and null, which fail exactly if there is no space for the comma and the literal |
| JsonWriter.JsonWriter.AppendInt32 | src/az_json_writer.c:854-886 | the same for any 32-bit number, which fails exactly if there are no 11 bytes behind the comma, however short it is |
| JsonWriter.JsonWriter.AppendContainerStart | src/az_json_writer.c:930-986 | the same for an opening bracket; the nesting overflows exactly at depth 64 |
| JsonWriter.JsonWriter.AppendContainerEnd | src/az_json_writer.c:988-1019 | the same for the bracket that closes the innermost container, which needs one byte |
| JsonWriter.JsonWriter.AppendJsonText | src/az_json_writer.c:752-804 | accepts exactly JSON texts where a value may stand and for which there is space; its comma is written but not counted, so the count is right exactly when none is due |
| JsonWriter.JsonWriter.AppendAndUpdate | src/nx_azure_iot_json_writer.c:198-404 | after a successful append the packets carry what they carried before and the text; its result is that of the append |
| JsonWriter.JsonWriter.AppendJsonTextAndUpdate | src/nx_azure_iot_json_writer.c:219-238 | after JSON text the packets are right, but their length field only if no comma was due; the result is that of the append |
| WriterSpec.RunMore | src/az_json_writer.c:386-397 | how a run of appends grows by one more |
| WriterRoom.ShortSuffices | src/az_json_writer.c:64-92 | an append that asks for space once gets it where there is room for its text and a chunk more, and what follows still has room |
| JsonWriting.WriteRun | src/az_json_writer.c:64-1019 | the text of a run of successful appends is the one that the appends mean, whatever buffers were handed out, with its bytes counted exactly; a valid run succeeds if there is room for its text and a chunk, in a single buffer exactly if each append fits |
| JsonWriting.WriteToPackets | src/nx_azure_iot_json_writer.c:18-143 | over packets, the chain carries its initial payload and then that text, and its length field says so; a valid run succeeds if the pool has enough packets of 64 bytes or more |
| JsonWriting.WriteToBuffer | src/nx_azure_iot_json_writer.c:145-168 | over one buffer, that text is what the buffer starts with; a valid run succeeds exactly if each append fits, as in a buffer 64 bytes larger than the text |
| JsonRoundTrip.StaysSensible | src/az_json_writer.c:96-199 | in every run a comma is due exactly after a value, and the last token fits the innermost container |
| JsonRoundTrip.AppendRead | src/az_json_reader.c:880-950 | the reader's next token on the text of one append is that append |
| JsonRoundTrip.ReadsBackWhatWasWritten | src/az_json_writer.c:96-1019 | any run of appends that leaves no container open writes a JSON text that the reader tokenises into exactly the appended tokens, and then DONE |
| JsonRoundTrip.NumberReadsBack | src/az_json_writer.c:854-886 | every 32-bit number reads back equal |
| JsonRoundTrip.TextReadsBack | src/az_json_writer.c:431-554 | a string or name reads back equal exactly when its only bytes below the space are those with a two-byte escape |
| JsonValues.ReadBack | src/az_json_writer.c:96-1019 | a written text, split over any buffers, reads back as the appended numbers, and as the appended strings and names that need no \u escape |
| Packets.Absorb | src/nx_azure_iot.c:484-508 | moves as much of the second packet's content into the first as fits, and loses none |
| Packets.MqttPacketAdjust | src/nx_azure_iot.c:449-520 | keeps the payload of any chain, leaves the first packet at its data start and either alone or full, and releases each absorbed packet once |
| WriterPackets.PacketSink.constructor | src/nx_azure_iot_json_writer.c:101-143 | the JSON text starts behind the content of the chain's last packet |
| WriterPackets.PacketSink.Allocate | src/nx_azure_iot_json_writer.c:18-70 | settles the bytes used in the last packet and appends one of the size asked for; changes nothing exactly if the pool has none or its packet is too small, which is then released |
| WriterPackets.PacketSink.Update | src/nx_azure_iot_json_writer.c:72-99 | the chain carries what was settled and the bytes written since |
| Rings.RingAdd | src/nx_arp_entry_allocate.c:105-111 | linking a node before the head of a ring makes it the last |
| Rings.RingRemove | src/nx_arp_dynamic_entry_delete.c:104-112 | linking the neighbours of a node takes it out of its ring |
| Rings.RingRotate | src/nx_ip_driver_packet_send.c:223-224 | any node of a ring may be its head |
| ArpLists.ArpLists.constructor | src/nx_arp_enable.c:88-131 | all entries are on the dynamic list in memory order, inactive, and the buckets are empty |
| ArpLists.ArpLists.UnlinkActive | src/nx_arp_dynamic_entry_delete.c:92-116 | takes an entry out of its bucket; every bucket still holds exactly the entries that say so |
| ArpLists.ArpLists.LinkActive | src/nx_arp_entry_allocate.c:99-122 | puts an entry into a bucket, whose head links back to it |
| ArpLists.ArpLists.Deactivate | src/nx_arp_dynamic_entry_delete.c:84-119 | keeps the lists, buckets and counters; the active entries still come first if and only if the entry was inactive or the last of them |
| ArpLists.ArpLists.Activate | src/nx_arp_entry_allocate.c:99-202 | moves the last entry of the dynamic list to its front or to the end of the static list; the active entries stay first |
| ArpLists.ArpLists.MakeStatic | src/nx_arp_static_entry_create.c:157-218 | moves an active dynamic entry to the end of the static list; its bucket stays |
| ArpLists.ArpLists.DeleteStatic | src/nx_arp_static_entry_delete_internal.c:82-175 | moves a static entry to the end of the dynamic list, inactive |
| ArpLists.ArpLists.Expire | src/nx_arp_periodic_update.c:116-182 | moves an entry to the end of the dynamic list, inactive |
| ArpLists.ArpLists.MoveToHead | src/nx_ip_driver_packet_send.c:223-224 | makes an entry the head of its bucket and changes nothing else |
| ArpCache.ArpCache.constructor | src/nx_arp_enable.c:88-131 | an enabled cache is valid: no active entries, no packets |
| ArpCache.ArpCache.ReleaseQueue | src/nx_arp_dynamic_entry_delete.c:121-151 | every packet that waited at the entry is released, every other stays where it was, and the drop counter grows by the length of the queue |
| ArpCache.ArpCache.QueueSend | src/nx_arp_queue_send.c:86-176 | a packet that waited goes to the driver if it is no longer than the interface's MTU, and otherwise to the fragmenter or, if there is none, is released; every other stays where it was, and the counters of sent and dropped packets grow by exactly those |
| ArpCache.ArpCache.FindEntry | src/nx_arp_dynamic_entry_set.c:122-156 | finds the active entry of an address if and only if there is one, in the address's bucket |
| ArpCache.ArpCache.DynamicEntryDelete | src/nx_arp_dynamic_entry_delete.c:76-155 | the entry is inactive, its packets are released and counted, and everything else is as it was |
| ArpCache.ArpCache.EntryAllocate | src/nx_arp_entry_allocate.c:76-220 | succeeds exactly if the dynamic list is not empty; the new entry is the bucket head's previous link, even if the evicted one came from the same bucket; the packets of the evicted one are released and counted |
| ArpCache.ArpCache.DynamicEntrySet | src/nx_arp_dynamic_entry_set.c:85-235 | on success the address has exactly one active entry, which says what was set; packets that waited for it are sent by their lengths if it has an address now and wait on if not, those of an evicted entry are released; a duplicate and a full cache are reported exactly |
| ArpCache.ArpCache.StaticEntryCreate | src/nx_arp_static_entry_create.c:81-267 | the same for static entries, in place if the address had a dynamic one; packets that waited for the address are sent by their lengths, those of an evicted entry are released, and the counters say so |
| ArpCache.ArpCache.StaticEntryDeleteInternal | src/nx_arp_static_entry_delete_internal.c:76-179 | keeps the cache valid, with the entry inactive at the end of the dynamic list |
| ArpCache.ArpCache.StaticEntryDelete | src/nx_arp_static_entry_delete.c:95-153 | deletes the static entry of this address and hardware address, if and only if there is one |
| ArpCache.ArpCache.StaticEntriesDelete | src/nx_arp_static_entries_delete.c:92-114 | empties the static list and leaves the active dynamic entries |
| ArpCache.ArpCache.EntryDelete | src/nx_arp_entry_delete.c:76-163 | deletes the active entry of the address, static or dynamic, if and only if there is one, and releases its packets |
| ArpCache.ArpCache.DynamicEntriesInvalidate | src/nx_arp_dynamic_entries_invalidate.c:88-120 | no dynamic entry is active, every packet that waited is released, and static entries are as they were |
| ArpCache.ArpCache.InterfaceEntriesDelete | src/nx_arp_interface_entries_delete.c:76-166 | no active entry is of the interface, and those of others are as they were, although the lists change while they are walked; exactly the packets that waited at its entries are released |
| ArpCache.ArpCache.HardwareAddressFind | src/nx_arp_hardware_address_find.c:97-214 | answers as the active entries do if and only if the address is neither stale nor overlooked, and never either if the active entries come first and there are any; gives the address of the static entry, or else of the first match in reach |
| ArpCache.ArpCache.VisitEntry | src/nx_arp_periodic_update.c:94-231 | one visit of the timers: a request for the entry's address is sent exactly if its timer runs out with retries left, which then rise by one, and the packets are released if it expires; an unresolved entry whose timer runs asks at each tenth visit since it was set and expires exactly at the 190th |
| ArpCache.ArpCache.PeriodicUpdate | src/nx_arp_periodic_update.c:75-235 | does to the list, the timers and the active entries what the walk says that restarts at the head after an expiry, visits what that walk visits, sends the requests of the entries that it asks for, and releases exactly the packets of the entries that expire; the active entries stay first |
| ArpCache.ArpCache.PacketReceive | src/nx_arp_packet_receive.c:168-523 | nothing changes if the message has no sender, its sender is the interface itself, the address has a static entry or there is no dynamic one; otherwise the sender ends up with one active dynamic entry that says what the message said; the packets that waited for the address are driven, fragmented or released by their lengths and counted, and those of an evicted entry are released |
| ArpCache.ArpCache.PacketSend | src/nx_ip_driver_packet_send.c:178-402 | gives the address exactly when an active entry has it; otherwise the packet is dropped exactly if it is too long and cannot be fragmented or there is no entry for it, and waits last at the address's entry if not; a full queue of four loses its first packet, released and counted as a drop and a resource error |
| ArpEntries.ExpiresInTime | src/nx_arp_periodic_update.c:94-231 | an entry that nobody sets again expires if and only if its timer runs and its retries are not used up, and then at exactly the visit that they say |
| ArpEntries.AsksInTime | src/nx_arp_periodic_update.c:103-228 | an entry that gets no reply is asked for again at every tenth visit but the last, which expires it: 18 times in all |
| ArpEntries.VisitCounts | src/nx_arp_periodic_update.c:94-231 | each visit takes exactly one from the visits left, and retries never exceed the maximum |
| ArpEntries.ClockCounts | src/nx_arp_periodic_update.c:90-235 | a clock counts exactly how often its entry was visited |
| ArpEntries.HashOfBytes | src/nx_arp_dynamic_entry_set.c:122-123 | the bucket is the sum of the address's two lowest bytes modulo 32, which the wrap-around of the sum does not change |
| ArpCache.ArpCache.UnresolvedExpires | src/nx_arp_periodic_update.c:94-231 | in every valid cache the timer of an active dynamic entry without an address runs if and only if the entry was not last set by a message without one, and then it expires at (18 + 1) * 10 visits and not before |
| ArpTimers.EachOnceUnlessExpiry | src/nx_arp_periodic_update.c:90-235 | while the active entries come first, a run of the update visits exactly each of them once if and only if none of them expires but perhaps the last; otherwise it misses the last |
| ArpTimers.NotVisited | src/nx_arp_periodic_update.c:90-235 | an entry that a run of the update does not visit neither ticks nor expires in it |
| ArpTimers.AskersRise | src/nx_arp_periodic_update.c:90-235 | a run of the update asks for each entry exactly as often as its retries rise |
| ArpTimers.AskersInOrder | src/nx_arp_periodic_update.c:90-235 | and only for entries that it visits, in the order of the visits |
| ArpRuns.Step | src/nx_arp_packet_receive.c:395-523 | every operation keeps the cache valid and every packet accounted for; only single and interface deletions may put an inactive entry before active ones, and only messages without a hardware address stop a timer |
| ArpRuns.Execute | src/nx_arp_enable.c:75-146 | after any run of operations from enable on: lists, buckets and counters are right, active addresses are unique and in their buckets, and between any two moments no packet is lost, disposed of twice or left waiting for another address; if every message had a hardware address, every unresolved entry has a running timer with at most 190 visits left |
| ArpRuns.FindAfterDelete | src/nx_arp_hardware_address_find.c:150-186 | after a single deletion of the only entry a lookup still returns its mapping |
| ArpRuns.NotFoundAfterDelete | src/nx_arp_hardware_address_find.c:150-186 | after a deletion of the more recent of two entries a lookup of the other fails, which is still active |
| ArpRuns.NeverExpires | src/nx_arp_packet_receive.c:496-522 | an entry that a message without a hardware address has set is active and never expires |
| ArpRuns.UpdateMisses | src/nx_arp_periodic_update.c:175-234 | of entries that were asked for together, the update at which the first expires misses the last |
| ArpRuns.MissedVisit | src/nx_arp_periodic_update.c:175-234 | so of two unresolved entries one is still there, with a visit to come, after 190 updates |

## Left out

- Doubles (`az_span_atod`, `az_span_dtoa`, `append_double`, `get_double`): they rest on sscanf and IEEE arithmetic.
- The width of the writer's `int32_t` byte counters and of the ARP statistics: they are unbounded here.
- `total_bytes_consumed` of the reader is carried along, but nothing is said about it: it is not a position.
- Booleans of tokens (`az_json_token_get_boolean`) and the NX_AZURE_IOT_JSON reader wrappers: only easy members.
- What the writer leaves in its buffers after an append that failed for lack of space: only that it stays well formed.
- `nx_packet_last` after `nx_azure_iot_mqtt_packet_adjust`: the function does not update it, and the model does not mention it.
- The links between waiting packets: a queue is a sequence of packets.
- ARP messages: the sender's addresses, the interface and its own and probed addresses reach the model of the receive function; replies, conflict handlers and defend timers are left out.
- The driver and the fragmenter are places where a packet ends up; what they do with it is left out.
- Locking: each operation is one step.
- `_nx_arp_ip_address_find`, gratuitous messages and the information service: they would only add easy members.
- Preprocessor branches that are off by default, `NX_ENABLE_ARP_MAC_CHANGE_NOTIFICATION` and `NX_ARP_DEFEND_BY_REPLY` among them.
