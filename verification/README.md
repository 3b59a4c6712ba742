# LogAgg: verified model

LogAgg collects log lines from several machines. Agents stamp each line with a vector clock and send
it over UDP; a server writes entries to a file in causal order; a query tool loads the file, filters
duplicates, indexes, sorts and exports it. Files may be stored as LZ4 blocks, by a codec that is part of
the repository. This project models the codec, the delivery protocol, the log store and the JSON text
of an entry, and proves what they promise.

## What is proved

**The LZ4 block codec** (`Lz4*.dfy`). `Lz4Format` gives a block its bytewise meaning (`Decode`) and states
the parsing restrictions of the LZ4 Block Format Description (`LegalBlock`: nonzero offsets in range, last
match at least 12 bytes and last 5 literal bytes before the end). `Lz4Meaning` characterises both from the bytes: the
legal blocks are exactly the written lists of sequences that end well (`Lz4Meaning.LegalBlocksAre`). On top of it:

- The compressor, in both table modes and all three output modes, with any hash function into the table and
  any acceleration, leaves a legal block that means exactly the consumed input, within
  n + n/255 + 16 bytes or within the output limit. No write, including the 8-byte literal overshoot and the
  four 255s laid down ahead, goes past that bound. With a target size it leaves at most one byte of it unused unless
  it consumes everything, so it consumes at least about as many bytes as there is room for.
- What the compressor finds is a function of the input, the hash and the acceleration (`Lz4Greedy`): no match can be
  made longer at its end or begin earlier, and where the last one ends early a search behind it met no hit at any
  position it tried. Without a target size the block is exactly that, and it is refused exactly if some part does not
  fit. So `n >= 13` equal bytes always take 10 bytes, or 11 + (n - 25) / 255 from 25 on.
- The optimised decoder (fast loop, safe loop entered at five places, shortcut, wild copies, partial mode)
  never leaves either buffer on any input. Whatever it accepts is the meaning of the input; every legal block
  that fits is accepted; partial decoding of a legal block gives exactly the prefix that was asked for and fits.
- The plain reference decoder, on blocks that decode, accepts exactly those that meet the parsing restrictions.
  The two decoders agree on every legal block (`Lz4Api.DecodersAgree`).
- `Lz4Api.CompressThenDecompress` and `Lz4Store.SaveThenLoad` put the two ends together.

**Causal delivery** (`VectorClock`, `Server`, `ServerSafety`, `ForcedFlush`, `Agent`, `Protocol`, `Losses`,
`Timeouts`). The server methods are proved equal to a function on what the server holds. In every run, with forced
flushes at any time, everything parsed is written, dropped or waiting, and nothing waiting could move; if no clock
counts a node the server does not know, no entry is written after one it happens before or equals. `Protocol` is a
transition system of agents, a network that loses, reorders and duplicates, and the server. In every run of it in
which no timeout strikes, the file holds exactly the largest causally closed subset of what arrived, each event once,
in an order that extends happens-before, whatever the order of arrival; what the server drops there is already in the
file. With the timeout free to strike, an event that arrived is lost exactly when it is not in the file and an event
that knows it is (`Losses.LostIffKnown`). The timeout strikes exactly when the head has waited longer than it allows,
so runs whose packets are all young enough at every check are runs without it (`Timeouts.PromptRunsAreTimeoutFree`).
None of this relies on the waiting list being sorted.

**The store** (`ClockHash`, `Dedup`, `Index`, `QueryTool`, `Dot`, `CausalSort`, `JsonText`, `JsonParse`, `JsonBounds`,
`JsonRoundTrip`). The hash filter against the scan it replaced, posting lists against a scan of the messages, the
drawn edges against happens-before, the exact condition under which the causal comparator is transitive and every
sort by it respects causality, the JSON parser against the printer. What a word of a message, a term, the order of
names, a printed character or a hashed byte is, is stated by positions and character codes.

## Where the code does not keep its promise

Each of these is stated with an input that shows it and the exact condition under which the promise holds.

- The server counts the steps between an entry and the committed clock in a 32-bit int, so it takes an entry
  2^32 + 1 steps ahead for the next one (`ServerSafety.StepTestWraps`); the test is exact modulo 2^32
  (`ServerSafety.StepTestIsModular`), and clocks of fewer than 2^32 events never reach that distance
  (`Protocol.NoOverflow`).
- After a timeout the server commits the clock of the entry it forces out. An earlier event of the same node that
  arrives later is then dropped although it never was in the file (`ForcedFlush.ForcedFlushLosesEvent`). No run over
  given entries loses one if and only if none of them is covered by the componentwise maximum of the others
  (`ForcedFlush.LossIffCovered`). Only a forced write can do this (`Losses.ReadyCoversItself`); in runs without one
  every dropped entry is a duplicate (`Protocol.DroppedAreDuplicates`).
- A clock that counts a node the server does not know is never covered, so every copy of its entry is written. The
  file is causally ordered in all runs over given entries if and only if none of them has such a clock
  (`ForcedFlush.OrderIffClocksFit`).
- The duplicate filter hashes the memory of a clock, including its node count and unused words, but compares
  values. It keeps what the scan kept if and only if equal events hash alike (`Dedup.FilterIsScan`). With the
  program's own hash, trailing zero components are enough to keep an event twice, under every node id
  (`Dedup.TrailingZeroKept`). Clocks of one node count with zero unused words are safe (`Dedup.CanonicalClocks`).
- The query tool builds the index and sorts the store afterwards, and the index still answers for the order it was
  built over. Two entries loaded in the wrong order are swapped by every sort, and a query then names the wrong one
  (`QueryTool.SortedAfterIndexing`). All queries are answered rightly if and only if at every position the messages
  before and after the sort have the same terms (`QueryTool.ReorderedIndex`).
- `store_save_compressed` casts the size to a 32-bit int and reports success for inputs of 4 GB and more whose
  low 32 bits are a valid size, saving only that many bytes (`Lz4Store.CastLosesText`). Saving and loading gives the
  text back if and only if both sizes in the header are at most 524288000 and nothing was lost in the cast
  (`Lz4Store.SaveThenLoad`).
- The causal comparator goes round in circles when time puts a third entry, concurrent with both, after an event
  and before one of its causes (`CausalSort.Wedge`). It is transitive on given entries if and only if they contain no
  such wedge (`CausalSort.TransitiveIffNoWedge`), and every arrangement whose neighbours are in order respects
  causality under exactly the same condition (`CausalSort.SortIsCausalIffNoWedge`). `CausalSort.SortCanBreakCausality`
  shows three entries.
- A full decode into an empty buffer accepts the block [0] only. The blocks that stand for nothing are the sixteen
  single tokens below 16 (`Lz4Api.EmptyBlocks`), so a legal block that fits can be refused
  (`Lz4Api.EmptyBlockRefused`, `Lz4Api.DecompressSafe`).
- Printing drops characters that are neither printable ASCII, newline nor tab, and unknown levels come back as
  INFO (`JsonRoundTrip.PrintingLoses`); an entry is restored if and only if it has neither
  (`JsonRoundTrip.RestoredIffPrintable`).
- The string loop steps over the NUL that ends the text when a literal ends there in a lone backslash, and goes on in
  whatever follows in memory (`JsonBounds.CutOffAfterBackslash`). What it reads is independent of that memory if and
  only if no such backslash is there (`JsonBounds.InsideIffNoLoneBackslash`).

## How it is modelled

Pointers into a buffer are indices, the output buffers and hash tables are arrays written in place, the input
of the codec is a sequence since it is only read. A `goto` becomes a stage variable: each label of the decoder
has its own method, and the loop dispatches. Bytes are integers below 256, little-endian words are sums, and
the exclusive or and trailing-zero count of the match counter are functions on those. The linked list of the
server is a sequence field. Memory is allocated and files are written without failure.

`hide` statements keep definitions out of proofs that do not need them.

## Model

| member | source | states |
|---|---|---|
| Lz4Format.LegalRuns | src/lz4.c:1878-1975 | a block that meets the parsing restrictions for a size decodes, to exactly that size |
| Lz4Format.LegalTail | src/lz4.c:2133-2135 | after any match of a legal block at least a token and five literals follow, the room the decoder's read limit relies on |
| Lz4Format.PeriodicIsExtend | src/lz4.c:1959-1964 | a stretch in which every byte equals the one offset before it is the result of the byte-by-byte overlapping copy |
| Lz4Write.WriteThenRead | src/lz4.c:1120-1236 | the bytes of a list of sequences with enough last literals are a legal block that decodes to what the list stands for |
| Lz4Meaning.SequenceIs | src/lz4.c:1120-1236 | the layout of a sequence: token, 255s and the rest of a literal length, literals, offset low byte first, match length over 4 |
| Lz4Meaning.ExpandIs | src/lz4.c:1959-1964 | one sequence more adds its literals and then bytes each equal to the one the offset before it |
| Lz4Meaning.WrittenIs | src/lz4.c:1878-1975 | any bytes laid out so decode to what the list stands for, and are legal exactly if five last literals follow a match that starts 12 bytes before the end |
| Lz4Meaning.BlockIsWritten | src/lz4.c:1120-1342 | the blocks the compressor writes are laid out so |
| Lz4Meaning.LegalBlocksAre | src/lz4.c:1878-1975 | the legal blocks are exactly those, with any value in the four bits of the last token that are not looked at |
| Lz4Meaning.TooFarBack | src/lz4.c:2375 | a block with an offset that reaches before the start of the output does not decode |
| Lz4Meaning.CutOff | src/lz4.c:2289-2340 | nor does a block cut off anywhere in its last literals |
| Lz4Copy.WidenedDistance | src/lz4.c:475-476 | for every offset below 8 the tables widen the copy distance to a multiple of the offset that is at least 8 |
| Lz4Copy.SameResidue | src/lz4.c:475-511 | in a stretch of period o, bytes a multiple of o apart agree |
| Lz4Copy.Widen | src/lz4.c:475-511 | continuing a stretch of period o from a multiple of o back keeps period o |
| Lz4Copy.WildCopyIn | src/lz4.c:464-473 | chunked literal copy: all bytes up to the end are right, writes pass it by less than a chunk |
| Lz4Copy.WildCopyBack | src/lz4.c:464-473 | chunked match copy from at least a chunk back equals the self-referential copy |
| Lz4Copy.FirstEight | src/lz4.c:2425-2437 | the first eight bytes of a close match, and where the next chunk reads |
| Lz4Copy.CopyUsingOffset | src/lz4.c:543-581 | pattern fills and table copies produce the meaning of the match and write at most 12 bytes past it |
| Lz4Copy.CopyBack32 | src/lz4.c:530-539 | two 16-byte copies a round are right for distances of 16 and up |
| Lz4Copy.CopyEighteen | src/lz4.c:2156-2159 | the 8+8+2 bytes cover any match of up to 18 bytes at distance 8 or more |
| Lz4Copy.CopyMatchSafe | src/lz4.c:2425-2454 | near the end: refuses exactly the matches that leave fewer than five bytes, copies the others, never writes past the output |
| Lz4Copy.CopyMatchPartial | src/lz4.c:2411-2420 | in partial mode copies exactly what fits |
| Lz4Count.CommonIsLongest | src/lz4.c:688-712 | the counted run is common and cannot be longer |
| Lz4Count.FirstDifference | src/lz4.c:588-604 | trailing zeros of the exclusive or of two words, divided by 8, are the number of equal leading bytes |
| Lz4Count.Count | src/lz4.c:688-712 | eight-byte loop and 4/2/1 tail count the longest common run cut at the limit |
| Lz4Compress.NothingLost | src/lz4.c:829-838 | every stored index fits its 16 or 32 bits |
| Lz4Compress.PutIndexOnHash | src/lz4.c:829-838 | storing a position keeps every entry an earlier position in the slot of its own hash |
| Lz4Greedy.HitIs | src/lz4.c:1096-1108 | a hit is an earlier position with this hash, within 65535 bytes unless the input is short, with the same four bytes |
| Lz4Greedy.StrideIs | src/lz4.c:1053-1063 | the first step of a search is one byte, the next 64 as long as the acceleration, and every 64 steps they grow by one |
| Lz4Greedy.SlotHolds | src/lz4.c:1053-1110 | during a search the slot of a hash holds the latest position tried that has it |
| Lz4Greedy.OverIffQuiet | src/lz4.c:1053-1110 | a search ends without a match exactly if no position it tries is a hit |
| Lz4Greedy.GreedyIsLongest | src/lz4.c:1113-1218 | every match found refers to equal bytes and can be extended neither at its end, up to five bytes before the end of the input, nor at its start |
| Lz4Greedy.NoHitLeft | src/lz4.c:1238-1304 | if the last match ends at least 12 bytes before the end, its end is no hit and a search behind it meets none, in a table that still knows the ends of all earlier matches; without a match the first search met none |
| Lz4Greedy.EqualGreedy | src/lz4.c:1011-1304 | 13 or more equal bytes are one literal, one match at distance 1 and five last literals |
| Lz4Compress.ClearPositions | src/lz4.c:1207-1211 | after a match was cut back, no entry at or past its new end remains |
| Lz4Compress.FindMatch | src/lz4.c:1053-1110 | stops at the first position tried whose slot holds an earlier one within reach that agrees on four bytes, or before the end; what is tried, what the slots hold by then, and the table left behind |
| Lz4Compress.CatchUp | src/lz4.c:1113-1118 | the match is extended backwards as far as it goes, at the same distance |
| Lz4Compress.EmitLiterals | src/lz4.c:1120-1145 | literals are written if the limit allows, with their overshoot inside it |
| Lz4Compress.MatchCode | src/lz4.c:1188-1216 | the longest match, cut in fillOutput mode to exactly what the output can still describe |
| Lz4Compress.EmitMatch | src/lz4.c:1156-1234 | offset, token and length close the sequence, with the longest match or in fillOutput mode one that fills the output, and the output still stands for the input up to the new position |
| Lz4Emit.WriteMatchLength | src/lz4.c:1222-1232 | laying four 255s ahead and overwriting leaves the length bytes, at most three bytes past the end |
| Lz4Emit.BlockSize | include/lz4.h:215 | every block made of sequences takes at most two bytes over n + n/255 for the n bytes it stands for |
| Lz4Compress.NextPosition | src/lz4.c:1244-1304 | registers two positions and reports a match exactly when one is in reach and agrees on four bytes |
| Lz4Compress.Chain | src/lz4.c:1147-1304 | matches that follow one another without literals keep the output a prefix of a legal block, and the sequences written a beginning of the greedy ones |
| Lz4Compress.LastLiterals | src/lz4.c:1311-1342 | the last literals, cut in fillOutput mode to leave at most one byte of the output, complete a legal block for the consumed input |
| Lz4Compress.CompressGenericValidated | src/lz4.c:939-1347 | in every mode a legal block for the consumed input inside its limit, or 0; outside fillOutput mode it is the greedy sequences, all longest with no hit left behind them, and in limitedOutput mode 0 exactly if they do not fit; fillOutput mode writes as many of them as fit and fills the output but for one byte unless it consumes everything |
| Lz4Api.CompressGeneric | src/lz4.c:1353-1388 | the same for empty and oversized inputs |
| Lz4Api.CompressFastExtState | src/lz4.c:1391-1412 | never exceeds the capacity, succeeds exactly if the capacity reaches the bound or everything fits, and n >= 13 equal bytes take 10 bytes, or 11 + (n - 25) / 255 from n = 25 on |
| Lz4Api.CompressDefault | src/lz4.c:1462-1484 | the same at acceleration 1 |
| Lz4Api.CompressDestSize | src/lz4.c:1490-1504 | output within the target size, and at most one byte below it unless everything is consumed, that decodes to exactly the consumed part of the input and holds the greedy sequences as far as they fit |
| Lz4Decode.ReadVariableLength | src/lz4.c:1985-2012 | fails exactly when a byte at or past the limit is needed, otherwise the sum of the length bytes |
| Lz4Decode.ExtensionRoom | src/lz4.c:2093-2096 | the read limit for literal lengths never refuses a legal block |
| Lz4Decode.MatchExtensionRoom | src/lz4.c:2133-2135 | nor does the read limit for match lengths |
| Lz4Decode.FastLoop | src/lz4.c:2082-2220 | leaves for the safe loop with the pending input meaning the same, refuses only illegal blocks |
| Lz4Decode.SafeToken | src/lz4.c:2227-2258 | token and the literal half of the shortcut |
| Lz4Decode.SafeLiteralCopy | src/lz4.c:2289-2357 | last literals must end both input and result; partial mode cuts them to what is there and fits |
| Lz4Decode.SafeMatchCopy | src/lz4.c:2373-2454 | offset check, match copy and the partial cut |
| Lz4Decode.SafeLoop | src/lz4.c:2221-2454 | from any entry label: refuses only what is not legal or does not fit, otherwise the result |
| Lz4Decode.DecompressGeneric | src/lz4.c:2021-2464 | never past the output size; sound and complete against the meaning of the block; the empty-output cases |
| Lz4Api.DecompressSafe | src/lz4.c:2470-2475 | what is accepted is the meaning of the input; every legal block that fits is accepted, except that only [0] is accepted into an empty buffer |
| Lz4Api.EmptyBlocks | src/lz4.c:2063-2067 | the legal blocks that stand for nothing are the single tokens below 16 |
| Lz4Api.EmptyBlockRefused | src/lz4.c:2063-2067 | one of them that an empty buffer refuses |
| Lz4Api.DecompressSafePartial | src/lz4.c:2478-2485 | exactly the prefix of the full decoding of length min(target, capacity, full size) |
| Lz4Reference.DecompressUnsafeGeneric | src/lz4.c:1878-1975 | on blocks that decode, of known size: reads the whole input and writes their meaning if they meet the parsing restrictions, returns -1 otherwise |
| Lz4Api.DecodersAgree | src/lz4.c:1878-2464 | both decoders on any legal block, at any capacity that holds it |
| Lz4Api.CompressThenDecompress | src/lz4.c:1391-1412 | compress, then each of the three decoders, is the identity on every input up to the maximum size |
| Lz4Api.FillThenDecompress | src/lz4.c:1490-1504 | fillOutput compression followed by decoding gives back the consumed input, which is all of it or at least about as long as the target |
| Lz4Store.SaveCompressed | src/store.c:704-736 | succeeds exactly for nonempty inputs whose cast size is supported; the file is the framed block of what the cast keeps, 18 bytes for up to 24 equal bytes |
| Lz4Store.CastLosesText | src/store.c:704-736 | a text of 2^32 + 1 bytes passes the size test and keeps one byte |
| Lz4Store.LoadCompressed | src/store.c:741-793 | accepts only files that pass the header test and decode; a legal block that fits is never rejected |
| Lz4Store.SaveThenLoad | src/store.c:704-793 | the text comes back if and only if both header sizes pass the 500 MB test and the size cast lost nothing |
| VectorClock.HappensBeforeRule | src/vector_clock.c:56-121 | the relation is the documented componentwise rule, and is antisymmetric |
| VectorClock.MissingIsZero | src/vector_clock.c:90-107 | clocks of different sizes are related as if padded with zeros |
| VectorClock.MergedIsJoin | src/vector_clock.c:38-53 | merging gives the least upper bound |
| VectorClock.Compare | src/vector_clock.c:56-121 | the flag loops compute the relation, for clocks of any two sizes |
| VectorClock.Cell.Merge | src/vector_clock.c:38-53 | in place, the componentwise maximum over the common components |
| VectorClock.Cell.Increment | src/vector_clock.c:28-35 | counts one event of a known node, wrapping at 2^64 |
| VectorClock.Cell.CopyFrom | src/vector_clock.c:124-132 | copies the value and leaves the words past the node count alone |
| Agent.Agent.StampLine | src/agent.c:287-304 | other nodes' components rise to those of the line, the own one is incremented, the entry gets the result |
| Agent.StampIs | src/agent.c:287-301 | of the first three components those of other nodes are the larger of the agent's and the line's, unless the line carries none; the own one is counted up modulo 2^64; the rest stays |
| Protocol.LineIsHeard | src/agent.c:287-301 | an event emitted for a line that carries the clock of another event is above that event, if the agent already covers what lines do not carry |
| LogEntry.CausalOrder | src/server.c:196-208 | causal order first, then timestamp, then node id |
| LogEntry.StrCmpIs | src/server.c:207 | the order of names: a proper prefix is less, otherwise the first character that differs decides |
| Server.Increments | src/server.c:267-272 | the step count is the distance reduced to a 32-bit int |
| ServerSafety.ReadyIs | src/server.c:250-275 | ready means not stale and at a distance of 1 modulo 2^32; the distance is 1 exactly when one component is one ahead and no other is ahead |
| Server.Server.InsertToBuffer | src/server.c:211-234 | the entry goes where the comparator scan stops, nothing else moves, the count follows |
| Server.InsertAtSkips | src/server.c:219-232 | that place: after entries the new one is not before, in front of the first one it is before |
| Server.Server.FlushCausalBuffer | src/server.c:237-301 | rescans from the head until no entry is stale or one step ahead, writing and dropping in that order |
| Server.Server.CheckTimeoutFlush | src/server.c:304-326 | forces out the head while its unsigned age exceeds the timeout, flushing after each |
| Timeouts.TooOld | src/server.c:306-309 | when the age, an unsigned difference, exceeds the timeout, for arrivals before and after now |
| Timeouts.YoungHeadStays | src/server.c:304-326 | nothing happens while the head has waited no longer than the timeout |
| Timeouts.OldHeadIsWritten | src/server.c:304-326 | a head that has waited longer is the next entry in the file |
| Timeouts.TimeoutLeaves | src/server.c:304-326 | what is left waited before, and its head has waited no longer than the timeout |
| Timeouts.PromptRunsAreTimeoutFree | src/server.c:304-326 | a run whose packets are all no older than the timeout at every later check is one in which no timeout strikes |
| Server.Server.Serve | src/server.c:415-438 | one round of the server loop, with its counters |
| ServerSafety.WriteIsSafe | src/server.c:275-290 | writing an entry the committed clock does not cover keeps the file causally ordered and dominated |
| ServerSafety.FlushIsSafe | src/server.c:237-301 | flushing conserves entries, only appends, only raises the clock, and ends with nothing that could move |
| ServerSafety.TimeoutIsSafe | src/server.c:304-326 | forced writes are never covered by the committed clock, so they keep the order too |
| ServerSafety.EveryRunIsSafe | src/server.c:415-438 | in every run: written + dropped + waiting = parsed, nothing waiting could move; and a causally ordered file with a dominating clock if no clock counts an unknown node |
| ServerSafety.RunsGrow | src/server.c:415-438 | later rounds only append to the file and only raise the committed clock |
| ForcedFlush.ForcedFlushLosesEvent | src/server.c:304-326 | an event forced out first makes the server drop its predecessor, which was never written |
| ForcedFlush.LossIffCovered | src/server.c:250-326 | no run over given entries drops one that is not in the file, whenever the timeout strikes, exactly when no entry is covered by the maximum of the others |
| ForcedFlush.OrderIffClocksFit | src/server.c:415-438 | all runs over given entries, with a clock that never runs backwards, keep the file causally ordered exactly when no clock counts a node the server does not know |
| ServerSafety.StepTestIsModular | src/server.c:265-275 | the one-step test holds exactly when the distance is 1 modulo 2^32 |
| ServerSafety.StepTestWraps | src/server.c:265-275 | an entry 2^32 + 1 steps ahead passes the test |
| Protocol.CountedIsBelow | src/agent.c:287-301 | an event is below a clock of the system exactly when the clock has counted it |
| Protocol.StepKeepsAgents | src/agent.c:287-304 | events are numbered without gaps, their clocks are cuts, and distinct events have incomparable or strictly ordered clocks |
| Protocol.NoOverflow | src/server.c:267-272 | with fewer than 2^32 events no distance overflows the step count |
| Protocol.ReadyIsNext | src/server.c:265-280 | an entry found ready is the next event of its node, and all it knows of is already written |
| Protocol.StepKeeps | src/server.c:415-438 | every step keeps the agents' and the server's invariants |
| Protocol.ClosedIsWritten | src/server.c:237-301 | every event of a received causally closed set is in the file |
| Protocol.WrittenIsLargestClosedSet | src/server.c:237-301 | the file is the largest causally closed subset of what arrived, each event once, extending happens-before |
| Protocol.EverythingArrived | src/server.c:237-301 | once all events have arrived all are in the file and none waits |
| Protocol.DroppedAreDuplicates | src/server.c:250-262 | in runs without forced flushes whatever is dropped is already in the file |
| Protocol.ArrivalOrderIsIrrelevant | src/server.c:211-301 | runs with the same events emitted and received write the same events and commit the same clock |
| Losses.AnyStepKeeps | src/server.c:415-438 | with the timeout free to strike: the committed clock stays a cut, counts only what the file knows, and what arrived is covered or waits |
| Losses.LostIffKnown | src/server.c:250-326 | in every run an event that arrived is lost exactly when it is not in the file and an event that knows it is |
| Losses.ReadyCoversItself | src/server.c:265-290 | writing an entry found ready covers nothing new but that entry, so only a forced write makes events lost |
| Losses.LostStaysLost | src/server.c:250-262 | no later step brings a lost event back |
| CausalSort.TransitiveIffNoWedge | src/log_entry.c:388-416 | the comparator is transitive on given entries exactly when they contain no wedge |
| CausalSort.SortIsCausalIffNoWedge | src/store.c:379-385 | every arrangement of the entries with neighbours in order is a linear extension of happens-before exactly when they contain no wedge |
| CausalSort.SortedIsLinearExtension | src/store.c:379-385 | without a wedge, neighbours in order means sorted throughout and a linear extension |
| CausalSort.SortCanBreakCausality | src/store.c:379-385 | three entries that form a wedge, in an order the comparator accepts that is not a linear extension |
| CausalSort.ComparatorIsLexicographic | src/log_entry.c:388-416 | when timestamps respect causality and nodes are sequential, the comparator is the order by timestamp, node id, clock |
| CausalSort.ComparatorIsTotalPreorder | src/log_entry.c:388-416 | it is total and transitive there, and ties are the same event |
| CausalSort.DisciplinedHasNoWedge | src/log_entry.c:388-416 | such entries contain no wedge |
| CausalSort.InsertKeepsNeighbours | src/server.c:211-234 | insertion keeps neighbours in order, whatever the entries, and adds just the one |
| CausalSort.InsertKeepsSorted | src/server.c:211-234 | without a wedge, insertion keeps the waiting list sorted throughout |
| CausalSort.DisciplinedStaysSorted | src/server.c:211-234 | when timestamps respect causality the waiting list stays sorted and a linear extension |
| Dedup.Filter.CheckAndInsert | src/store.c:124-152 | reports a duplicate exactly when its bucket holds the event, and keeps the table the set of kept entries |
| Dedup.Store.Append | src/store.c:170-201 | appends unless the filter knows the event, growing in place |
| Dedup.FilterIsScan | src/store.c:170-186 | the filter keeps the first occurrences if and only if equal events hash alike |
| Dedup.SameEventIs | src/store.c:130-137 | two entries are the same event exactly when node id and all components agree, unused ones counting as 0 |
| Dedup.FirstOccurrencesAre | src/store.c:170-186 | what the scan keeps: the entries no earlier entry is the same event as, in order |
| Dedup.CanonicalClocks | src/store.c:103-121 | for clocks of one node count with zero padding and unused words it always does |
| Dedup.TrailingZeroKept | src/store.c:103-121 | with the program's hash, a clock and the same clock with trailing zero components are both kept, under every node id |
| ClockHash.CalculateHash | src/store.c:103-121 | both loops compute 32-bit FNV-1a over node id and clock memory, cut to 16 bits |
| ClockHash.FnvOfA | src/store.c:104-110 | the published 32-bit FNV-1a value of the text "a" |
| ClockHash.MemoryIs | src/store.c:112-117 | the 264 bytes hashed: the node count in the first four, each word in eight of its own, low byte first |
| ClockHash.OneByteApart | src/store.c:103-121 | byte strings that differ in exactly one byte never share a bucket |
| ClockHash.NodeCountDecides | src/store.c:103-121 | nor do clock memories that differ in the node count only |
| Dedup.AppendAll | src/store.c:170-201 | after any appends the store is what the filter keeps, in buckets of their own hash |
| Dedup.AppendCanonical | src/store.c:103-201 | with the program's own hash, over clocks of one node count with zero padding and unused words, the store is the first occurrences |
| Index.NormalizeTerm | src/store.c:423-432 | keeps the letters and digits in lower case, at most 63 |
| Index.NormalizedIs | src/store.c:423-432 | a term is short, alphanumeric, lower case, and its own term |
| Index.NormalizedConcat | src/store.c:423-432 | characters are treated one after the other until there is no room |
| Index.WordsAre | src/store.c:459-494 | the words of a text are its maximal runs without delimiters, one for each, in order |
| Index.AddTerm | src/store.c:466-492 | one posting per entry and term, terms stay distinct |
| Index.ContainsIs | src/store.c:459-494 | a message contains a term exactly when one of its words, by position, has it |
| Index.BuildIndex | src/store.c:445-497 | every posting list is the ascending list of the messages that contain its term, and every term is listed |
| Index.OccurrencesAre | src/store.c:435-442 | posting lists are strictly increasing and hold exactly the messages that contain the term |
| Index.Intersect | src/store.c:500-513 | the two-pointer merge is the intersection, in order |
| Index.Union | src/store.c:516-534 | the two-pointer merge is the union, in order |
| Index.QueryByIndex | src/store.c:553-605 | a query returns the matching positions of a plain scan over the messages the index was built over, in order, cut at the maximum |
| Index.AnswerIs | src/store.c:553-605 | the answer: in order, the messages that contain the terms of all words, or of one word, of the first 255 characters of the query; of more than asked for the first ones |
| QueryTool.TermAsQuery | src/store.c:553-575 | a term of a message, asked for, is one word with itself as its term |
| QueryTool.ReorderedIndex | src/main_query.c:185-202 | an index answers every query rightly for another order of the messages exactly when at every position both have the same terms |
| QueryTool.SortedAfterIndexing | src/main_query.c:185-202 | two entries that every causal sort swaps after indexing: the query names one without the term |
| Dot.ExportEdges | src/store.c:665-695 | exactly the pairs with nothing between them are drawn, once each, with the right style |
| Dot.StyleIs | src/store.c:687-691 | an edge is drawn as a message exactly when its ends are on different nodes |
| Dot.DrawnReachesBefore | src/store.c:665-695 | reachability along the drawn edges is happens-before |
| Dot.DrawnIsLeast | src/store.c:665-695 | every relation with the same reachability contains the drawn edges |
| Dot.RemovingAnEdgeLosesAPair | src/store.c:665-695 | without one edge its two ends are no longer connected |
| JsonText.JsonEscape | src/log_entry.c:106-146 | the escaped text of the source up to the first character at which fewer than three bytes are left; never overruns its buffer |
| JsonText.VcToJson | src/vector_clock.c:135-176 | prints the clock, or fails exactly when the text does not fit |
| JsonText.EntryToJson | src/log_entry.c:149-232 | prints the entry, or fails exactly when the text does not fit |
| JsonText.EntryTextIs | src/log_entry.c:149-232 | the printed text, field by field with its quotes and commas |
| JsonText.ClockTextIs | src/vector_clock.c:135-176 | the printed clock, component by component under its name |
| JsonText.DigitsAre | src/log_entry.c:179-180 | printed numbers are decimal digits of that value without leading zeros |
| JsonText.EntryFits | include/logagg.h:29 | an entry within the field limits, with up to 32 full 64-bit clocks, fits 4096 bytes |
| JsonText.CleanedIsSame | src/log_entry.c:135-139 | printing loses nothing exactly when all characters survive and the level is one of the five |
| JsonParse.ParseStr | src/log_entry.c:242-269 | the string loop reads up to the closing quote or the buffer size, undoing escapes |
| JsonParse.ClockFromJson | src/vector_clock.c:231-315 | the clock parser, with its fallback for unexpected names |
| JsonParse.EntryFromJson | src/log_entry.c:286-385 | the field loop, with every known and unknown kind of field |
| JsonParse.LevelFromStrIs | src/log_entry.c:17-28 | level names are read in any case, unknown ones as INFO |
| JsonBounds.InsideIffNoLoneBackslash | src/log_entry.c:242-269 | what the string loop reads is independent of the memory after the text exactly when the literal does not end there in a lone backslash |
| JsonBounds.StaysInside | src/vector_clock.c:188-214 | the string loop of the clock parser never reads past the text |
| JsonBounds.CutOffAfterBackslash | src/log_entry.c:242-269 | a text that is rejected or accepted depending on what follows it |
| JsonRoundTrip.ReadsChars | src/log_entry.c:242-269 | reading an escaped string gives its surviving characters and stops after the quote |
| JsonRoundTrip.ReadsNumber | src/log_entry.c:272-283 | reading printed digits gives the number |
| JsonRoundTrip.ReadsClock | src/vector_clock.c:231-315 | parsing a printed clock gives the clock |
| JsonRoundTrip.TargetIs | src/vector_clock.c:296-311 | a component named node-k goes to place k, if there is one, wherever it stands; a name of another form goes nowhere |
| JsonRoundTrip.JsonRoundTrips | src/log_entry.c:149-385 | parsing a printed entry restores it up to characters that are not printed, and the text fits |
| JsonRoundTrip.RestoredIffPrintable | src/log_entry.c:149-385 | a printed entry parses to itself exactly when its level is at most 4 and all its characters have codes 9, 10 or 32 to 126 |
| JsonRoundTrip.PrintingLoses | src/log_entry.c:135-139 | a carriage return and an unknown level are lost |
| JsonRoundTrip.SendAndReceive | src/agent.c:94-120 | what an agent prints into its buffer the server parses back; it is the entry sent exactly under that condition |

## Left out

- Lz4Api.CompressGeneric: as for Lz4Compress.CompressGenericValidated, only for a state as LZ4_initStream leaves it.
- Lz4Compress.CompressGenericValidated: only for a state as LZ4_initStream leaves it; a state used before (fastReset, streaming, dictionaries) is not part of this model.
- Lz4Decode.DecompressGeneric: offset 0, which the format forbids, gives zeros in full mode and stale bytes in partial mode; nothing is promised for it in partial mode. Which illegal blocks are still accepted is not characterised beyond that their meaning is produced.
- Lz4Reference.DecompressUnsafeGeneric: only on blocks that decode without offset 0 and whose size is announced, since the code presumes them and reads past its input otherwise.
- Index.BuildIndex: strtok is modelled by the words it yields.
- Index.QueryByIndex: the messages it speaks of are those the index was built over; QueryTool.ReorderedIndex says when the answers are right for another order.
- CausalSort.SortIsCausalIffNoWedge: qsort itself is not modelled; a sort is any arrangement of the entries whose neighbours are in order.
- JsonParse.ClockFromJson: atoi does not overflow in the model, and a repeated clock field starts from zeros.
- JsonParse.ParseStr: a literal that runs past the end of the text keeps the NUL it steps over, where the original's buffer ends there for its users; past the end of the memory that is given, NUL is read.
- Agent.Agent.StampLine: the node index is given; deriving it from the digits or the hash of the node id is not part of this model.
- Protocol.WrittenIsLargestClosedSet: only for runs without forced flushes, and for lines that carry a consistent cut of what was emitted.
- Server.Server.FlushCausalBuffer: writing to the file always succeeds; the original ignores a failed write.
- JsonParse.EntryFromJson: as for JsonParse.ClockFromJson and JsonParse.ParseStr, which it calls.
- Protocol.StepKeepsAgents: every agent and the server have the same number of nodes.
- The final dump of the waiting list when the server stops, date rotation, sockets, signals, statistics printing and command lines.
- Metadata of entries, except that the parser steps over it.
- LZ4 dictionaries, streaming, pointer tables, 32-bit and big-endian variants, and the deprecated entry points other than the reference decoder.
- Pointer wrap-around checks in the decoder: positions are unbounded integers, and lengths stay far below 2^64.
- Field filters of store_query, statistics, line splitting of loaded files, timestamps as text.
