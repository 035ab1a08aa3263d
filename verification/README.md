# A verified model of a transparent TLS bridge

The bridge terminates TLS for a public authority, opens a connection of its own to an upstream, and
forwards HTTP/1.1 or HTTP/2 between the two. It rewrites a handful of field values (authority, origin,
referer, location, cookie domain) and promises to leave everything else as it was on the wire. This
project models the parts of it that make that promise hard to keep, and proves what they keep.

## The system, part by part

**HPACK translation.** A header block arrives encoded against the sender's dynamic table and leaves
encoded against the receiver's. A mapped value can be longer or shorter, so the two tables evict
different entries, and every index must be kept, found again, or spelled out. `RewriteSpec` says what
the translator does as functions, `HeaderRewriter` is the same as a class with two tables and loops,
`HpackReference` is a decoder in the words of RFC 7541 that stands for the library on the inbound side
and for the remote receiver. `RewriteMeaning` and `RewriteTheorems` prove that the receiver decodes
exactly the mapped lists over any connection; `RewriteRuns` follows every field of every run and
`RewriteKept` whole runs, to prove when octets stay as they were, and `RewriteForms` in which
representation each field leaves; `RewriteAccepts` proves exactly which blocks are accepted. Below them are
the integer code, the Huffman packer with its 64-bit accumulator and the evicting table.

**HTTP/2 frames and directions.** `Frames`, `Reframe` and `Direction` model one direction octet by
octet; `DirectionLoop` is the loop over a reader, a writer (`Streams`) and the shared limits.
`DirectionTheorems` composes everything from octets in to decoded lists out, and gives byte transparency
where no value changes; `DirectionAccepts` says exactly which octets are accepted. `BridgeLimits` is the
interleaving of the two directions over the cells they share.

**HTTP/1.1.** `Http1Stream` says what a line, a head and a body are in a stream; `Http1Loops` has the
loops over a reader that buffers as it likes; `Numerals` has numbers as they are written. `Http1Head`,
`Http1HeadTheorems` and `Http1Framing` cover head rewriting and body framing, `Http1Pairing` the request and
response sides and their channel.

**Value mapping.** `Mapping` and `MappingTheorems`, with the octet-string operations of `Text`;
`MappedValues` says field name by field name which values change and to what, `Characters` what UTF-8 and
white space are.

**Order variance checker.** `OrderProof`, `OrderChecker`, `StableSort` and `OrderForm` model the script
that decides whether two captures differ only in header order, following dynamic references by the
insertion behind them.

**ClientHello capture.** `ClientHello` and `Transport` cover reassembly from records, the incremental
capture on writing, and sniffing with replay on reading.

## Reading the model

A stream is the octets still to come. Buffering, partial reads and the count of octets a socket accepts
are arbitrary, so a result about a method holds for every one of them. Atomics are sequentially
consistent cells, and the two sides of a bridge interleave step by step in any order. A failure is `None` or
a value of its own, never a precondition. `usize` is taken to be 64 bits wide, where the additions of the
integer reader cannot overflow. `Url` is the URL parser as a function from the text of an authority to
host and port; `Standard` lists what the URL standard promises of it, and is the only thing assumed of it.

Three things one would expect hold only under a condition, which the model makes exact. The comment above
`reframe` says that only the last fragment absorbs a length change: `Reframe.LastAbsorbsIff`
shows that this is so exactly when the new block reaches to where the last fragment started, and
`Reframe.EarlierFragmentShrinks` shows it failing. The checks of table-size updates and of frame sizes read
the peer's latest SETTINGS, which can be ahead of what the sender of a block has received:
`BridgeLimits.NeverRefusesIff` shows that conforming blocks are safe from either check exactly when, of the
entries of both sides that the bridge can store, none lowers that limit in force. And `map_url` ends an
authority at `/`, `?` and `#`, where a URL parser for https ends it at a backslash too:
`Mapping.MapUrlKeepsRest` shows that nothing after the authority is lost exactly when there is no backslash in
between, and `Mapping.BackslashLost` shows a loss.

Check the whole project with `dafny verify dfyconfig.toml`.

## Model

| member | source | states |
|---|---|---|
| HpackInteger.Integer | src/hpack_wire.rs:12-33 | the cursor loop reads exactly the prefix integer of at most five continuation octets, or fails on truncation or a sixth |
| HpackInteger.PutInt | src/hpack_wire.rs:40-53 | the loop appends the octets of `IntBytes` and nothing else |
| HpackInteger.RoundTrip | src/hpack_wire.rs:12-53 | reading what was written gives the value back for every prefix width and every following octets, exactly when it is below mask + 2^35 (for the code's room of five); otherwise reading fails |
| HpackInteger.BridgeReads | src/hpack_wire.rs:12-53 | the bridge reads back exactly the values below 2^bits - 1 + 2^35, and no larger one |
| HpackInteger.Minimal | src/hpack_wire.rs:40-53 | of all octets that read as a value under the same high bits those written are the shortest, and the only ones of that length |
| HpackInteger.Stable | src/hpack_wire.rs:12-33 | an integer read is read the same whatever follows it |
| HuffmanTable.CodeIsCanonical | src/huffman_codes.rs:24-282 | every entry of the code table is the canonical code of its width class |
| HuffmanTable.FitsWidth | src/huffman_codes.rs:24-282 | every code fits its width, between 5 and 30 bits |
| HuffmanTable.PrefixFree | src/huffman_codes.rs:24-282 | no code is the front of another: a code extended by any bits equals a code only if the symbols are the same |
| Huffman.OneSymbol | src/huffman_codes.rs:24-282 | at most one symbol's code stands at the front of any bits |
| Huffman.EncodeLoop | src/hpack_wire.rs:60-73 | the 64-bit accumulator loop, stale high bits and padding octet included, emits the concatenated codes with fewer than eight 1-bits |
| Huffman.RoundTrip | src/hpack_wire.rs:54-76 | a decoder by section 5.2 of RFC 7541 recovers every octet string from what is encoded |
| Huffman.Unique | src/hpack_wire.rs:54-76 | anything that decoder accepts is the encoding of what it decodes to: one encoding per string |
| Huffman.DecodeCodes | src/hpack_wire.rs:54-76 | code words followed by fewer than eight 1-bits decode to the symbols |
| Huffman.EncodeBound | src/hpack_wire.rs:54-76 | encoding grows a string at most fourfold |
| HpackTable.FitUnique | src/hpack_wire.rs:110-115 | the longest front of the entries within the limit is the only front that fits and cannot be longer |
| HpackTable.SizeIs | src/hpack_wire.rs:110-120 | the size of a table is its names and values and 32 octets an entry |
| HpackTable.InsertThenEvict | src/hpack_wire.rs:116-120 | insert and then evict gives the table of the evict-then-insert rule of section 4.4 of RFC 7541, oversize entries included |
| HpackTable.Find | src/hpack_wire.rs:99-109 | the preferred index if it matches; otherwise the first matching index, and 0 only when no entry of either table matches |
| HpackTable.Position | src/hpack_wire.rs:104-109 | the first matching index over the static and then the dynamic table |
| HpackTable.Table.Evict | src/hpack_wire.rs:110-115 | pops until the size is within the limit, never from an empty table, and leaves the longest fitting front |
| HpackTable.Table.Add | src/hpack_wire.rs:116-120 | the new table is the one section 4.4 of RFC 7541 prescribes, and `size` stays the sum of the entry sizes |
| HpackTable.Table.SetLimit | src/hpack_wire.rs:168-169 | a table-size update leaves the longest front within the new limit |
| HpackReference.LayoutStable | src/hpack_wire.rs:159-191 | where one representation ends depends only on its own octets |
| HpackReference.FieldStable | src/hpack_wire.rs:192-195 | and so does the field it stands for |
| HpackReference.KindBits | src/hpack_wire.rs:155-178 | 1, 01, 001, 0001 and 0000 lead the five representations |
| HpackReference.TableIsRecentHistory | src/hpack_wire.rs:126-127 | a decoder's table is always the front of everything ever inserted, newest first (section 2.3.2 of RFC 7541) |
| HeaderRewriter.SkipString | src/hpack_wire.rs:34-39 | passes over one string literal, or fails where there is none |
| HeaderRewriter.PutString | src/hpack_wire.rs:54-76 | appends the string literal, plain or Huffman coded |
| HeaderRewriter.Delimit | src/hpack_wire.rs:159-191 | the cursor walk finds the representation the reference decoder finds |
| HeaderRewriter.WriteIndexed | src/hpack_wire.rs:230-243 | an indexed field: its octets, a new index, or a literal without indexing |
| HeaderRewriter.WriteLiteral | src/hpack_wire.rs:244-267 | a literal: the kept or changed name reference and the kept or mapped value |
| HeaderRewriter.Check | src/hpack_wire.rs:196-229 | the checks on one decoded field and the running totals |
| HeaderRewriter.SliceDecodes | src/hpack_wire.rs:163-195 | feeding the decoder one representation at a time is decoding the block at those points |
| HeaderRewriter.Rewriter.constructor | src/hpack_wire.rs:134-143 | both tables start empty with limit 4096 |
| HeaderRewriter.Rewriter.Rewrite | src/hpack_wire.rs:144-278 | the method over its fields computes `RewriteSpec.Rewrite`: same octets, same two tables, same failures |
| RewriteMeaning.StringReadsBack | src/hpack_wire.rs:54-76 | a written string literal, plain or Huffman, reads back as the string |
| RewriteMeaning.EmitReadsBack | src/hpack_wire.rs:230-271 | whatever form is chosen for a field, the receiver's decoder reads the same name and the mapped value there, and indexes it only if the sender's did |
| RewriteMeaning.MeaningFrom | src/hpack_wire.rs:144-278 | from any point of a block the rest of the output decodes to the mapped rest of the input, and the tables agree after it |
| RewriteTheorems.BlockMeaning | src/hpack_wire.rs:144-278 | one accepted block: the receiver decodes the mapped header list and ends with the tracked table |
| RewriteTheorems.ConnectionMeaning | src/hpack_wire.rs:123-278 | over every run of accepted blocks the receiver decodes, block by block, the sender's headers with mapped values; its table is `outbound`; both tables are fronts of one insertion history |
| RewriteTheorems.IndexedKeptIffPresent | src/hpack_wire.rs:230-243 | an indexed field keeps its octets exactly when the receiver still has the entry |
| RewriteTheorems.NameKeptIffPresent | src/hpack_wire.rs:245-262 | a literal starts with the index and name octets it came with exactly when it has no index or the receiver still has the entry |
| RewriteRuns.SimulatedLearn | src/hpack_wire.rs:268-270 | indexing a field carries the simulation on: both tables stay fronts of one history with the field in front |
| RewriteRuns.TurnKeepsOutcome | src/hpack_wire.rs:155-273 | wherever a block is accepted the loop takes its next turn and comes to the same outcome |
| RewriteRuns.FieldInStep | src/hpack_wire.rs:144-278 | at every field of every block of every accepted run both tables are fronts of one history, and what the turn writes stands in the finished block |
| RewriteRuns.EveryIndexedField | src/hpack_wire.rs:230-243 | in every run, at every field: an indexed field stands in the output with its octets exactly when the receiver's table still has the entry |
| RewriteRuns.EveryLiteralField | src/hpack_wire.rs:245-267 | in every run, at every field: a literal keeps its index and name octets exactly when it has no index or the receiver still has the entry, and its value octets when the value does not change |
| RewriteForms.EveryFieldForm | src/hpack_wire.rs:224-271 | in every run, at every field, in which representation it leaves: an indexed field as it is where the receiver has the entry, else by the first index that has it, else as a literal without indexing, plain; a literal of its own kind, never-indexed included, with its name as it came, by the first index that has it, or spelled out; its value as it came, or if it changed in the Huffman form exactly when the old one was |
| RewriteRuns.StatusPasses | src/hpack_wire.rs:144-278 | a response block holding one indexed field is accepted and comes out as it is: the runs these results speak of have fields |
| RewriteKept.FitRetains | src/hpack_wire.rs:110-120 | if mapped entries are no larger, the receiver's table retains at least what the sender's does through every eviction |
| RewriteKept.NoGrowthNoReindexing | src/hpack_wire.rs:224-262 | over any run in which no value grows, every field keeps its representation and index octets |
| RewriteKept.NoChangeNoRewrite | src/hpack_wire.rs:224-271 | a block whose values do not change comes out octet for octet, and the tables stay equal |
| RewriteAccepts.ScanAccepts | src/hpack_wire.rs:196-229 | the running checks accept exactly the well-formed lists: valid names and values, no CONNECT, pseudo-headers first, total size within the limit |
| RewriteAccepts.VerdictFrom | src/hpack_wire.rs:144-278 | from any point the outcome is decided by the list the rest decodes to and the octets written for it |
| RewriteAccepts.RewriteAccepts | src/hpack_wire.rs:144-278 | a block is accepted if and only if it is within the limit, decodes, every value maps, the list is well formed, a request has one :authority, and the output is within the limit |
| Frames.WriteThenRead | src/h2.rs:20-52 | reading a written frame gives it back, whatever follows |
| Frames.ReadThenWrite | src/h2.rs:20-52 | writing a read frame gives back its octets |
| Frames.FlagBits | src/h2.rs:122-164 | END_HEADERS, PADDED and PRIORITY are the bits 4, 8 and 32 of the flags |
| Frames.PartsIff | src/h2.rs:151-170 | a HEADERS payload is accepted exactly as: a pad length if padded, five octets if with priority, the fragment, and padding of that length |
| Frames.SettingsIff | src/h2.rs:64-81 | a SETTINGS frame gives exactly the entries that, written as 16-bit identifiers and 32-bit values, are its payload; an acknowledgement is empty |
| Frames.PartsMakePayload | src/h2.rs:151-170 | prefix, fragment and padding of a HEADERS frame are its payload |
| Frames.PartsOfRefilled | src/h2.rs:151-170 | a frame with another fragment between the same prefix and padding has just those parts |
| Frames.EndFlagOnly | src/h2.rs:122-136 | clearing and setting END_HEADERS changes no other bit |
| Reframe.Reframe | src/h2.rs:84-138 | the loop over `pos` and `out` computes `Reframed`, refusals included |
| Reframe.Conserves | src/h2.rs:84-138 | the fragments written concatenate to the block; every frame fits; padding, priority, kind, stream and other flags survive; END_HEADERS is on exactly the last frame |
| Reframe.BoundariesKept | src/h2.rs:95-127 | each fragment starts where it did, as far as the new block reaches |
| Reframe.LastAbsorbsIff | src/h2.rs:82-127 | all fragments but the last keep their length exactly when the new block reaches to where the last one started |
| Reframe.GrowthIff | src/h2.rs:105-135 | frames are added if and only if the block is longer than where the last fragment started plus the limit, less what a single frame carries beside; then the last original frame and every added one but the final one are full, and the final one is not empty |
| Reframe.EarlierFragmentShrinks | src/h2.rs:82-127 | a block of one octet in place of three empties the second of three fragments |
| Reframe.SameBlockSameFrames | src/h2.rs:84-138 | an unchanged block gives back the original frames |
| DirectionLoop.Reader.ReadFrame | src/h2.rs:20-37 | reads one frame, the end between frames, or fails, as `Frames.ReadFrame` says |
| DirectionLoop.WriteFrame | src/h2.rs:38-52 | writes the octets of a frame, or nothing if it is oversized |
| DirectionLoop.Announce | src/h2.rs:188-201 | stores each announced limit in order in the other side's cell, and fails exactly on a SETTINGS frame the code refuses |
| DirectionLoop.AnnouncedIs | src/h2.rs:188-199 | a cell holds the value last announced for identifier 1, and for identifier 5 |
| DirectionLoop.GatherBlock | src/h2.rs:203-222 | collects a header block over its CONTINUATION frames, with the limits on size and count |
| DirectionLoop.PassHeaders | src/h2.rs:202-233 | one header sequence: gathered, rewritten, reframed and written, or refused |
| DirectionLoop.PassOther | src/h2.rs:188-201 | any other frame: refused, or written as it is with its limits folded into the other side's cell entry by entry |
| DirectionLoop.RunDirection | src/h2.rs:171-242 | the frame loop over its reader, writer and limits consumes and writes exactly what `Direct` says, fails where it does, and leaves in the other side's cell the fold of all SETTINGS entries read |
| DirectionTheorems.GatherIsCollect | src/h2.rs:203-222 | what is gathered is one contiguous header sequence of the input |
| DirectionAccepts.DirectIff | src/h2.rs:171-242 | a direction runs to the orderly end of its input if and only if that is the preface PRI * HTTP/2.0 (for requests) and units one after the other: frames but HEADERS, PUSH_PROMISE and CONTINUATION, SETTINGS with frame sizes of 16384 to 16777215, and header sequences of at most 1024 frames and 1 MiB within the limit loaded, whose block the rewriter accepts |
| DirectionTheorems.ForwardConveys | src/h2.rs:186-239 | the output is the input unit by unit: other frames as they are, each header sequence replaced by one (section 6.10 of RFC 9113) |
| DirectionTheorems.EndToEnd | src/h2.rs:171-242 | for every accepted octet stream the receiver parses the output into the same units and decodes every header block to the mapped list |
| DirectionTheorems.StoredIsConveyed | src/h2.rs:186-201 | the entries a direction stores for the other are, in order, those the receiver of its output reads: cell and peer fold the same announcements |
| DirectionTheorems.Transparent | src/h2.rs:171-242 | if no decoded value changes, the octets written equal the octets read |
| BridgeLimits.RunKeepsInv | src/h2.rs:139-150 | in every interleaving of the two directions each cell holds the side's accepted announcements read so far, and what was received was stored before |
| BridgeLimits.FrameStorable | src/h2.rs:188-199 | a direction accepts a SETTINGS frame exactly if every entry of it can be stored: no frame size outside 16384 to 16777215 |
| BridgeLimits.LatestAnnouncement | src/h2.rs:223-230 | a block is refused exactly when an update exceeds the table size last stored (or 4096) cut to 65536, or a frame the frame size last stored (or 16384); what its sender has received is a front of the same log |
| BridgeLimits.StoredGrows | src/h2.rs:188-201 | what is stored only grows, so later blocks are checked against later announcements |
| BridgeLimits.NeverLowersNeverRefuses | src/h2.rs:188-230 | while no announcement the bridge can store lowers a limit in force, no interleaving refuses a block within the last limits its sender received |
| BridgeLimits.NeverDecreasesNeverLowers | src/h2.rs:188-201 | values that start at the default and never decrease are such announcements |
| BridgeLimits.LowerMayRefuse | src/h2.rs:188-230 | where a later storable entry lowers a limit in force, a run exists that refuses a conforming block for it, for either side and either limit |
| BridgeLimits.NeverRefusesIff | src/h2.rs:188-230 | for the table size and for the frame size, and any announcements of both sides: no interleaving refuses a conforming block for that limit if and only if neither side's storable entries ever lower it in force |
| OrderProof.CanonicalIff | scripts/order_policy.py:58-81 | the integers accepted are exactly the shortest encodings below the size bound |
| OrderProof.ProvenIff | scripts/order_policy.py:100-137 | a block is proven if and only if it has at most 1 MiB and some octets, decodes to the captured headers with updates first and within 4096, and every integer in it is in its shortest form |
| OrderProof.WideIsLarge | scripts/order_policy.py:58-81 | those wider than a decoder reads are too large for any index or length |
| OrderChecker.CheckedInteger | scripts/order_policy.py:58-81 | the decode and re-encode loop accepts exactly those integers, at their value and end |
| OrderChecker.CheckedString | scripts/order_policy.py:84-90 | accepts exactly a string literal with such a length |
| OrderChecker.CheckedLayout | scripts/order_policy.py:108-120 | accepts exactly the representations whose integers are such |
| OrderChecker.HpackOrderProof.Block | scripts/order_policy.py:100-137 | the loop over `tags`, `generations` and the decoder computes `ProveBlock`, keeps the tags tied to the insertions, and its tokens name for every field the insertion behind the entry it was read from |
| OrderProof.InsertionsDistinct | scripts/order_policy.py:130-133 | an insertion is told from every other by its text and generation, repeated equal entries included |
| OrderProof.ScanFaithful | scripts/order_policy.py:107-134 | what is decoded part by part is what the validator decodes at once; the tokens spell out the decoded headers, and tags name the insertions behind the live entries after the block |
| OrderProof.ScanTells | scripts/order_policy.py:107-134 | field by field, within the block: a token's reference is the index, or the one insertion that index stands for when the field is read, and its wire octets are those of the field |
| OrderProof.InsertionIdentity | scripts/order_policy.py:93-137 | the same at every field of every block of a capture, against one insertion history |
| OrderProof.CaptureIdentity | scripts/order_policy.py:93-137 | from a fresh checker: every reference of every accepted capture names its own insertion, and live tags differ pairwise and carry their entry's text |
| OrderProof.LiveTagsDistinct | scripts/order_policy.py:97-134 | live tags are pairwise different and carry the entry's name and value |
| StableSort.LeqIff | scripts/order_policy.py:137-147 | names are in the lexicographic order of octets |
| StableSort.SortKeeps | scripts/order_policy.py:136-149 | the sort is sorted, a permutation, and keeps the order within each key |
| StableSort.SortedDetermined | scripts/order_policy.py:136-149 | sorted lists with the same order within each key are equal |
| StableSort.SameSortIff | scripts/order_policy.py:136-149 | two lists sort to the same if and only if they agree within every key |
| OrderForm.HttpOrderForm | scripts/order_policy.py:140-160 | the loop over the requests computes `OrderFormOf` |
| OrderForm.FormsAre | scripts/order_policy.py:140-160 | every form is its request with headers and representations in ascending order of names, each name\'s in their own order, and the last length less the block\'s |
| OrderForm.FormsExistIff | scripts/order_policy.py:140-160 | a capture has forms exactly if its blocks are proven one after the other and every frame list fits its block |
| OrderForm.LayoutIff | scripts/order_policy.py:150-156 | the frame check accepts exactly a header sequence that carries as many octets as the block has |
| OrderForm.RelativeIff | scripts/order_policy.py:150-159 | equal frame shapes after subtracting the block length mean equal frames but for the last length, which differs by the block-length difference |
| OrderForm.OrderFormSound | scripts/order_policy.py:137-160 | two captures have equal forms if and only if, request by request and for every name, the headers of that name are the same list and so are their representations, with the same updates and the same frames but for the block-length difference; headers and representations are then permutations |
| Http1Loops.BufReader.Line | src/h1.rs:9-29 | for every way the input is buffered: one line with its CRLF within the limit, nothing at the end, or failure |
| Http1Loops.BufReader.Head | src/h1.rs:30-44 | for every buffering: the lines up to and with the empty one |
| Http1Loops.BufReader.Exact | src/h1.rs:101-110 | hands over exactly the next octets, or fails at the end |
| Http1Loops.BufReader.Body | src/h1.rs:111-154 | for every kind of body the octets written are the octets consumed, and these are what the framing says |
| Http1Loops.BufReader.Chunks | src/h1.rs:122-150 | the chunk loop consumes and writes one chunked body |
| Http1Loops.BufReader.Trailer | src/h1.rs:132-142 | the trailer loop with its running total |
| Http1Stream.SelfDelimiting | src/h1.rs:111-154 | for a body of known length or a chunked one the same octets are taken whatever follows |
| Http1Stream.TakenIsChunked | src/h1.rs:122-150 | what is taken as a chunked body is one complete chunked body in the shape of section 7.1 of RFC 9112 |
| Http1Stream.ChunkedTakes | src/h1.rs:122-150 | every such body within the limits is taken whole, whatever follows |
| Http1Stream.ChunkSizeIff | src/h1.rs:122-131 | the size of a chunk is the number written in hexadecimal before ; or CR, leading zeros and capitals allowed, within 64 bits |
| Http1Stream.BodyIff | src/h1.rs:101-154 | for every kind of body exactly what stands at the front is taken: nothing, the length announced, all there is, or one well-formed chunked body |
| Http1Stream.TakenHead | src/h1.rs:30-44 | a head is non-empty lines and the empty line, and no octet more |
| Http1Stream.HeadTakes | src/h1.rs:30-44 | and any such lines within the limit are taken as a head |
| Http1Stream.HeadIff | src/h1.rs:30-44 | a head is taken exactly where one of at most 64 KiB stands, and nothing is taken exactly at the end of the stream |
| Http1Pairing.RunKeepsInv | src/h1.rs:165-228 | the invariant of both sides and the channel holds in every interleaving |
| Http1Pairing.ResponsesMatchRequests | src/h1.rs:199-224 | each response is framed as empty if its request, numbered by the final responses before it, was HEAD, or its status is 1xx, 204 or 304, and by its own fields otherwise; 101 is never forwarded |
| Http1Pairing.ForwardedBound | src/h1.rs:165-228 | forwarded request heads never exceed completed final responses by more than 33 |
| Http1Pairing.BoundReached | src/h1.rs:165-228 | and a run reaches that bound |
| Http1Pairing.OrderlyEnd | src/h1.rs:217-233 | an orderly end has answered every request; a body framed by the end of the stream is the last |
| Http1Pairing.RequestsProceed | src/h1.rs:165-194 | the request side waits for nothing but room in the channel of 32 |
| Http1Pairing.ResponsesProceed | src/h1.rs:195-228 | the response side waits for nothing but the channel, and refuses only 101 |
| Http1Pairing.NoDeadlock | src/h1.rs:165-233 | no run gets stuck before its end |
| Http1Pairing.EveryExchangeServed | src/h1.rs:165-233 | any list of exchanges, with interim responses, HEAD and bodyless statuses, has a run that serves all of them and ends in order |
| Http1Head.H1HeadLoop | src/rewrite.rs:135-180 | the loop over the lines computes `H1Head` |
| Http1Head.FramingLoop | src/h1.rs:52-100 | the loop over `length` and `te` computes `Framing` |
| Http1Head.FieldOf | src/rewrite.rs:157-168 | a field line is a token, a colon and the rest, and nothing is lost |
| Http1HeadTheorems.FieldIff | src/rewrite.rs:157-168 | a line is a field exactly as a token of section 5.6.2 of RFC 9110, a colon and the rest |
| Http1HeadTheorems.H1HeadIs | src/rewrite.rs:135-180 | for every head: parse, map every value, insist on one field named host in a request, write again; it fails exactly where one of these does |
| Http1HeadTheorems.ParseOfHead | src/rewrite.rs:135-180 | a head written out parses to itself |
| Http1HeadTheorems.HeadCommutes | src/rewrite.rs:134-180 | for every head `head` returns, the output parses to the same start line, names and order with only values mapped, and within the limit is a head again |
| Http1Framing.FramingKept | src/h1.rs:52-100 | the rewritten head frames its body as the original does |
| Http1Framing.FramingMeans | src/h1.rs:52-100 | framing is decided by the fields alone: no upgrade, at most one of Content-Length and Transfer-Encoding and once, digits within 64 bits, only chunked |
| Http1Framing.NumberIff | src/h1.rs:73-80 | digits are a number exactly as they are written in decimal, leading zeros allowed |
| Mapping.CookieLoop | src/rewrite.rs:100-128 | the loop over the parts computes `MapCookie` |
| Mapping.PartLoop | src/rewrite.rs:106-126 | one attribute: its octets pushed piece by piece |
| MappedValues.MadeIff | src/rewrite.rs:12-37 | a mapping is made exactly of two texts that name authorities: graphic ASCII without / ? # @ that the URL parser accepts |
| MappedValues.ValueByName | src/rewrite.rs:73-133 | over all names and values: in requests host and :authority must name the public authority and become the upstream one, origin and referer are mapped as URLs; in responses location as a URL and set-cookie as a cookie; always between the same blanks, UTF-8 only; every other value stays |
| MappedValues.UrlMapped | src/rewrite.rs:42-72 | a URL after https:// or // whose authority names the expected one has it replaced, any other stays |
| MappedValues.OtherTextKept | src/rewrite.rs:42-49 | any other text stays |
| MappedValues.DomainMapped | src/rewrite.rs:108-123 | a Domain attribute, its name in any case and between white space, whose value is the upstream host after any dots, comes out with the public host after one dot if there was any, between the same white space |
| MappedValues.PartKept | src/rewrite.rs:106-126 | every other part of a cookie stays |
| Characters.Utf8Iff | src/rewrite.rs:86 | octets are UTF-8 exactly when they are some code points encoded by section 3 of RFC 3629 |
| Characters.TrimIs | src/rewrite.rs:109-119 | trimming takes away exactly the white space characters at both ends |
| Characters.TrimParts | src/rewrite.rs:109-119 | and every string is white space, its trimmed text and white space |
| Mapping.UrlParts | src/rewrite.rs:42-53 | a URL with a scheme prefix is prefix, authority and what follows it |
| Mapping.MapUrlNames | src/rewrite.rs:42-72 | a URL whose authority, as the code delimits it at /, ? and #, names the expected one comes out naming the other, with the scheme prefix and the text from the delimiter on as they were; every other is left alone |
| Mapping.MapUrlKeepsRest | src/rewrite.rs:42-72 | of a mapped URL all that follows the authority as a URL parser ends it, at a backslash too, stays exactly when the text before the delimiter has no backslash |
| Mapping.BackslashLost | src/rewrite.rs:42-72 | the text from a backslash to the delimiter is dropped: https://host\x/y becomes https://other/y |
| Mapping.UrlRoundTrip | src/rewrite.rs:42-72 | a URL mapped to the upstream and back is unchanged exactly when its authority, if it is either configured one, is spelled as the public one |
| MappingTheorems.DomainMeaning | src/rewrite.rs:113-121 | without its white space a mapped Domain value is the public host, with one dot if there was any |
| MappingTheorems.CookieParts | src/rewrite.rs:100-128 | read back by semicolons a mapped cookie is its first pair untouched and each attribute mapped by itself |
| MappingTheorems.CookieSettled | src/rewrite.rs:100-128 | mapping a mapped cookie changes nothing |
| MappingTheorems.ValueParts | src/rewrite.rs:86-132 | a relevant value is mapped between its blanks, which stay |
| MappingTheorems.AuthorityMapped | src/rewrite.rs:91-98 | a host or :authority passes exactly when it names the public authority, and becomes the upstream one |
| MappingTheorems.ValueWithout | src/rewrite.rs:73-133 | no line break comes with a mapped value |
| MappingTheorems.MapFixesStatic | src/rewrite.rs:73-133 | the mapping leaves every static table value alone, so the results about kept indices hold of it |
| MappingTheorems.IndexedFieldsOfValue | src/rewrite.rs:73-133 | in every run with this mapping an indexed field keeps its octets exactly when the receiver still has the entry |
| MappingTheorems.NoReindexingOfValue | src/rewrite.rs:73-133 | in every run in which this mapping makes no value longer every field keeps its index and representation |
| MappingTheorems.RequestsNameUpstream | src/rewrite.rs:91-98 | over every accepted connection each authority the receiver decodes is the upstream one where the sender spelled the public one |
| ClientHello.ClientHelloLoop | src/fingerprint.rs:183-211 | the loop over the records computes `Parse` |
| ClientHello.SplitIndependent | src/fingerprint.rs:183-211 | within the limits the result is what the handshake octets amount to, for every split of them into records; what follows a complete message is not looked at |
| ClientHello.Records | src/fingerprint.rs:183-196 | every string is complete handshake records and a rest that is none |
| ClientHello.OutcomeIs | src/fingerprint.rs:183-211 | for every string the outcome: failure beyond 256 KiB; else what the complete records hold; else failure exactly on a wrong or oversized record |
| ClientHello.MessageIs | src/fingerprint.rs:197-206 | gathered octets are a ClientHello, pending or a failure by their type, length and parser alone |
| ClientHello.PendingUntilComplete | src/fingerprint.rs:197-206 | no proper front of a handshake message has an answer, and the whole has the parser's |
| ClientHello.Stable | src/fingerprint.rs:183-211 | once there is an answer it is the same on every extension within the limit |
| ClientHello.PrefixesAgree | src/fingerprint.rs:183-211 | fronts of one stream agree where they have an answer |
| Transport.Replay.Read | src/transport.rs:29-43 | what is read and what is still to be read are together unchanged; nothing is read only at the end or into no room |
| Transport.Replay.ReadAll | src/transport.rs:29-43 | for every sequence of buffer sizes the octets come in order, none lost |
| Transport.ReadHello | src/transport.rs:104-123 | succeeds if and only if some front of the stream holds a ClientHello within the limit; the octets taken and the rest are the stream |
| Transport.Tap.Write | src/transport.rs:77-96 | the capture is the octets accepted so far up to the limit, until it holds a ClientHello |
| Transport.Tap.CaptureMeans | src/transport.rs:77-96 | at any time the capture parses as everything written so far up to the limit |

## Left out

- TLS, certificates, key exchange and the native cryptography: configuration of, and calls into, libraries.
- The command line, sockets, timeouts and report files of `src/main.rs`.
- The inbound HPACK library and the URL parser: a decoder by RFC 7541 and an abstract function stand for them. The static table is taken over as data; the source reads it out of the library.
- `parse_hello` and the fingerprints made from it: the parser is a parameter of `ClientHello`; JA3, JA4, hashes and digests add formatting only.
- `tls_order_form`, `order_allowance` and the other evidence checks of `scripts/order_policy.py`: comparisons of recorded JSON.
- HttpOrderForm: does not model the SHA-256 check of a block nor the JSON around it; header names and values are octets, and the order of their hexadecimal spelling is the order of octets.
- HpackOrderProof.Block: does not model the limit of the Python decoder on the size of a header list.
- CheckedLayout: refuses an integer wider than a decoder reads at once, where the script goes on until an index, a length or the decoder fails; `OrderProof.WideIsLarge` says why one of them must.
- Rewriter.Rewrite: the state after a failed call is unspecified; the connection ends there.
- RunDirection: what has been written and stored before a failure is unspecified, and reads of the shared limits are an arbitrary sequence; `BridgeLimits`, where a block is its updates and its largest frame, says which values they can have.
- The other ways a bridge of `BridgeLimits` can end (malformed frames, blocks refused for anything but a limit): they only cut a run short. A side may go on sending after a failure, which then reaches nobody.
- Body: what has been written before a failure is unspecified.
- SizeLine: follows the code, which takes any octets but LF after `;` or a bare CR in a chunk line, where section 7.1.1 of RFC 9112 is narrower.
- `encode_headers`, `header_names`, `HttpTap` and `write_private_evidence`: straight-line code.
- The request line and status line checks of `src/h1.rs`: they end the connection and keep nothing.
- Error texts: an error is one value.
