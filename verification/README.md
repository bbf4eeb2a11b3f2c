# Lightnet: a verified model of the firmware's stateful kernels

Lightnet drives a tree of light panels. A controller talks to its first panel over a serial trunk,
and panels relay frames to their neighbours over half-duplex links. This project models the parts of
the firmware whose correctness is a matter of state, and proves what they promise for every input and
every run:

| files | what they model |
|---|---|
| `SpscRing`, `SpscByteQueue`, `MainLoopQueue` | the lock-free record ring between an interrupt or another thread and the main loop, step by step under every interleaving, and the task queue on it |
| `WakeGate` | the three copies of "may a line wake us" that the panel's main loop and its pin-change interrupt share, with the interrupt allowed between any two statements |
| `Selector`, `SelectorGrammar`, `SelectorTexts`, `SelectorCode`, `SelectorEval`, `SelectorSkip` | the compiler from nested panel selectors to a stack program, which texts mean which tree, the program's evaluation on a bounded stack, and when reading a selector returns |
| `LinkArq`, `ArqTiming`, `PacketSink` | hop acknowledgements: the stop-and-wait sender, the duplicate filter, when its window suffices, and the controller's end of the trunk |
| `DatabaseFile`, `DatabaseRuns`, `DatabaseCompaction`, `Database` | the slot database in one file behind one cursor, and its in-place compaction |
| `Bootloader`, `OtaCampaign` | the resident bootloader and the campaign that updates every panel |
| `SerialFirmware`, `SerialReceiver`, `SerialUpload` | the firmware upload over the serial port, both ends |
| `PanelGraph`, `PanelGeometry`, `Topology`, `TopologyProvider` | discovered links as objects, read back as links, built into a compressed adjacency and walked breadth first |
| `Crc`, `Sha1`, `Sha1Example`, `Sha1Transform`, `Sha1Context`, `Base64`, `CircularQueue` | CRC-16, SHA-1 (FIPS 180-4), streaming base64 (RFC 4648), and the queue of contiguous records |
| `Json`, `JsonEscape`, `JsonCode`, `JsonUpsert`, `JsonInsert`, `JsonReplace`, `JsonSkip` | writing, parsing, inserting and replacing strings in JSON texts (RFC 8259, section 7), what that does to the other fields, and when skipping a value ends |
| `Bytes`, `WordLaws` | shared vocabulary and word identities |

Code that changes things in place is modelled by methods over fields, arrays and objects; each is tied
to a function or a state machine, about which the laws are proved as lemmas. What the program does
not control (interrupts, lost frames, time-outs, other threads) is a nondeterministic choice, so a
proved property holds whatever is chosen.

## What the proofs turned up

Where the code does not keep what its comments promise, the exact condition is proved:

- `SpscByteQueue::push` adds the header length in 16 bits. Its room check is sound exactly for lengths up
  to 65533 (`SpscRing.AcceptsIsSoundIff`).
- The selector parser accepts one level of nesting more than the evaluator's stack holds
  (lib/Lightnet/Core/Controller/PanelSelectorParser.hpp:214): a text with six nested lists compiles and
  never resolves (`SelectorEval.AcceptedButUnresolvable`). Resolution succeeds exactly when the tree needs
  at most six entries.
- `jsonSkipArray` makes no progress on a closing brace where it wants an element. A skip goes on for ever
  exactly when one pass with a stack of brackets meets a stray brace (`JsonSkips.SpinsIffStray`); an upsert
  hangs exactly when that is so in the value it wants to replace (`JsonSkips.UpsertHangsIff`). On a text with
  matched brackets and plain scalars every skip ends (`JsonSkips.TidySkipEnds`), but both callers can leave
  the right places of such a text, and then JSON hangs them: an upsert of the field `,` into
  `{"x":["]",":[}"]}`, because the key search counts brackets inside nested strings
  (`JsonSkips.NestedBracketHangs`), and the selector `{"not":{"any":["all"],"\u00e9,":0,":[}":0}}`, because a
  key that cannot be decoded ends its object in the middle (`SelectorSkips.UnreadableKeySpins`). Both always
  return on tidy texts without these two causes (`JsonSkips.UpsertReturns`, `SelectorSkips.ParsingReturns`).
- An upsert that inserts always writes a comma behind its entry. In an object without fields nothing follows
  it, and the result, `{"a":"b",}`, is not JSON (`JsonInserts.CommaTrailsIff`, `JsonInserts.EmptyObjectGetsComma`).
- An upsert that replaces a value keeps every other field, whatever the new value, exactly if no colon follows
  the old one (`JsonReplaces.KeepsOthersIff`). No JSON text has such a colon; in `{"f":"x":"y"}` the value `x`
  is itself taken for a field's name (`JsonReplaces.ColonTextLosesField`).
- A panel that sends a frame with hop acks listens to that frame's line afterwards, also while it holds a claim
  on another (`WakeGate.Panel.LinkSend`). Reading bytes and granting claims never do that: a claim is on the
  line listened to when a poll returns if it was when the poll began (`WakeGate.Panel.PollBytes`).
- The comment at lib/Lightnet/Core/Relay/LinkArq.hpp:46-55 counts the retransmission span as two time-outs
  and one frame. The frames between the time-outs take air time as well: the window covers the span
  exactly if two frames, two time-outs and the receiver's jitter fit into 11 ms
  (`ArqTiming.WindowCoversSpanIff`). At 250 kbaud that is true up to 35 bytes and false for a 72-byte
  palette, which can be dispatched twice.
- The duplicate filter cannot tell a repetition from an equal frame sent on purpose; it is right exactly
  when copies arrive within the window and equal frames further apart (`LinkArq.RightDispatchIffInTime`).
- An empty `CircularQueue` keeps its pointers where they are and can refuse a record that fits the buffer:
  one of three bytes does not go into six bytes when one of two bytes has been there before
  (`CircularQueues.SixByteBuffer`). `CircularQueues.EmptyQueueAlwaysTakes` says for which sizes this cannot
  happen, over the places that `CircularQueues.ReachEmpty` and `CircularQueues.WhereEmpty` show to be those
  an empty queue gets to.
- `SHA1Update` finds full blocks with a 32-bit sum that is right exactly while the waiting and the new bytes
  are fewer than 2^32 (`Sha1Contexts.FullBlockTestIff`).
- The bound of the base64 decoding table is one too large: `{`, and no other character, is looked up behind
  its 80 entries (`Base64.PastTableIff`). What a message decodes to depends on the memory there exactly if
  it holds a `{` (`Base64.MemoryIsReadIff`); the encoder's output never does.
- `PanelGraph::build` does not count the links between known panels. Its arrays hold exactly 100 of them
  (`PanelGraphs.FitsIff`); more would be written behind the arrays.
- A comment in `fillTopology` says that links are normally set on the parent's side only
  (lib/Lightnet/Controller/Scenes/PanelsTopologyProvider.hpp:56-57). The conversion sets both sides, and the
  removal of duplicates is what keeps each link single.

## Model

| member | source | states |
|---|---|---|
| SpscRing.PoppedIsPrefixOfPushed | lib/Lightnet/Core/Common/SpscByteQueue.hpp:67-124 | in every interleaving of producer and consumer byte steps, what was popped is at every moment a prefix of what was pushed, and an empty ring has delivered everything |
| SpscRing.ProducerOnlyWritesFreeBytes | lib/Lightnet/Core/Common/SpscByteQueue.hpp:82-88 | in every run the only steps that change the buffer write a byte that is not readable |
| SpscRing.StepKeepsInv | lib/Lightnet/Core/Common/SpscByteQueue.hpp:67-155 | each step of either side keeps the invariant that ties buffer, published indices and private cursors to the queued records |
| SpscRing.AcceptsIsSoundIff | lib/Lightnet/Core/Common/SpscByteQueue.hpp:71-78 | the 16-bit room check never accepts what does not fit, exactly for lengths up to 65533 |
| SpscByteQueues.SpscByteQueue.Push | lib/Lightnet/Core/Common/SpscByteQueue.hpp:67-91 | for every length the 16-bit test decides; up to 65533 a record is queued exactly when it is not empty and fits, else nothing changes, and the call is a run of producer steps |
| SpscByteQueues.SpscByteQueue.Pop | lib/Lightnet/Core/Common/SpscByteQueue.hpp:97-124 | the oldest record is copied out up to the caller's capacity and removed; the call is a run of consumer steps |
| MainLoopQueues.MainLoopQueue.Post | lib/Lightnet/Utils/MainLoopQueue.hpp:48-69 | a task with at most 64 argument bytes waits behind the others, or nothing changes |
| MainLoopQueues.MainLoopQueue.Drain | lib/Lightnet/Utils/MainLoopQueue.hpp:74-99 | every task accepted before or during the drain runs exactly once, in order, with its arguments complete |
| WakeGate.Panel.MainLoop | lib/Lightnet/Panel/LightnetPanel.cpp:577-627 | after any number of iterations, with wake interrupts anywhere in between, the hardware mask equals its mirror, wakes are off while a claim is held, and otherwise only while a latched wake will turn them on again, and no claim is 100 ms old |
| WakeGate.Panel.Tick | lib/Lightnet/Panel/LightnetPanel.cpp:577-627 | one iteration of the main loop keeps this; wakes that were off or latched on entry become a claim, a claim of 100 ms is gone at the end, and the bytes of both polls are read in order and called for exactly the acks and dispatches of the frames they end |
| WakeGate.Panel.PollWake | lib/Lightnet/Panel/LightnetPanel.cpp:88-141 | latched wakes become a claim: whatever was latched or suppressed on entry, a claim is held on return, although the handler may latch another wake between any two statements; a claim already held stays, and a claim is on the line listened to if it was before |
| WakeGate.Panel.SyncWakeInterruptSuppression | lib/Lightnet/Panel/LightnetPanel.cpp:143-154 | the mask and its mirror follow the claim: wakes are masked while one is held, and otherwise armed unless a wake is latched already |
| WakeGate.Panel.SendOnEdge | lib/Lightnet/Panel/EdgeUartTransport.cpp:89-169 | a send, during which the handler is deaf, leaves mask, mirror and claim consistent and loses no latched wake |
| WakeGate.Panel.LinkSend | lib/Lightnet/Panel/ArqEdgeLink.cpp:14-43 | one copy of a frame without hop acks goes out on its line, and one to three of a frame with them, three if no ack was read; the gate is at rest again, and the line of an acked send is the one listened to |
| WakeGate.Panel.PollBytes | lib/Lightnet/Panel/LightnetPanel.cpp:230-365 | up to the limit per poll the bytes that are there are read in order, each under a claim on the line listened to: the first on a held claim, on the lowest latched line, or on the line the multiplexer is at; each frame is acked and, unless it is a hop ack or a duplicate on its line, dispatched after its ack, on that line; mask, mirror, claim and duplicate filter are what these reads make of them |
| WakeGate.Panel.HandleFrame | lib/Lightnet/Panel/LightnetPanel.cpp:276-336 | a hop ack is dropped; a frame of an acked type is acked on the line it came from before it is noted there, and dispatched only if it is no duplicate; any other frame is dispatched |
| WakeGate.Panel.PollProbeClaim | lib/Lightnet/Panel/LightnetPanel.cpp:367-379 | while a neighbour is probed its line, and no other, gets the claim and is listened to |
| WakeGate.Panel.PinChangeIsr | lib/Lightnet/Panel/LightnetPanel.cpp:43-86 | every line change reported while not transmitting is latched, and the lines are masked |
| WakeGate.EdgeFrameReceiver.OnEdgeWake | lib/Lightnet/Core/Relay/EdgeFrameReceiver.cpp:9-20 | a claim is granted exactly when none is held |
| Selector.ResolvesIffItFits | lib/Lightnet/Core/Controller/PanelSelector.hpp:233-273 | the compiled program of a tree resolves exactly when the tree needs at most six stack entries, and then to the tree's set meaning |
| Selector.CompiledTreeRuns | lib/Lightnet/Core/Controller/PanelSelector.hpp:233-273 | on any stack below and before any code behind, the program of a tree pushes its meaning and never underflows, if its need fits |
| Selector.NeedIsBoundedByNesting | lib/Lightnet/Core/Controller/PanelSelectorParser.hpp:205-288 | a tree needs at most one stack entry more than it is deep |
| Selector.FirstAndLastPickK | lib/Lightnet/Core/Controller/PanelSelector.hpp:186-207 | first and last pick min(k, count) panels from the two ends of the canonical order |
| SelectorGrammar.ParsedTree | lib/Lightnet/Core/Controller/PanelSelectorParser.hpp:205-288 | every accepted selector is well formed, and the depth guard bounds its need by seven |
| SelectorTexts.TreesOfTexts | lib/Lightnet/Core/Controller/PanelSelectorParser.hpp:205-288 | a tree is the reading of some text at a depth exactly if it nests to the guard at most and its lists, counts and panel numbers are in range; for each such tree there is a text of its own that is read as it (round trip) |
| SelectorTexts.CompositionTexts | lib/Lightnet/Core/Controller/PanelSelectorParser.hpp:242-268 | over any element texts that are read as these trees, `all` is the intersection, `any` the union and `not` the complement |
| SelectorTexts.ExcludeText | lib/Lightnet/Core/Controller/PanelSelectorParser.hpp:269-276 | `exclude` is the complement of its list |
| SelectorTexts.Objects | lib/Lightnet/Core/Controller/PanelSelectorParser.hpp:242-284 | an object with any fields is what its one composing field is, wherever it stands; with none of them or several it is refused |
| SelectorTexts.TwoCompose | lib/Lightnet/Core/Controller/PanelSelectorParser.hpp:242-284 | two composing fields are one too many, with anything before, between and behind them |
| SelectorTexts.OtherFieldsAreIgnored | lib/Lightnet/Core/Controller/PanelSelectorParser.hpp:277-279 | a field with any other key and any string is passed over |
| SelectorTexts.RefusedElement | lib/Lightnet/Core/Controller/PanelSelectorParser.hpp:250-258 | one refused element behind any others refuses the composition |
| SelectorTexts.BareTokens | lib/Lightnet/Core/Controller/PanelSelectorParser.hpp:91-104 | each of the six names is read as its selector |
| SelectorTexts.OtherNamesAreRefused | lib/Lightnet/Core/Controller/PanelSelectorParser.hpp:91-104 | every other name is refused |
| SelectorTexts.DepthRanges | lib/Lightnet/Core/Controller/PanelSelectorParser.hpp:110-126 | `depth:a-b` is that range for any two numbers up to 255 in decimal, and refused for larger ones |
| SelectorTexts.CountTokens | lib/Lightnet/Core/Controller/PanelSelectorParser.hpp:128-142 | `subtree:n`, `neighbors:n`, `first:n` and `last:n` are those selectors for any number from 1 to 255 in decimal, and refused for all others |
| SelectorTexts.FractionTokens | lib/Lightnet/Core/Controller/PanelSelectorParser.hpp:144-163 | `fraction:a-b` gives the bytes nearest to 255 times its two decimals, an upper one past 1 counting as 1 |
| SelectorTexts.HalfFractions | lib/Lightnet/Core/Controller/PanelSelectorParser.hpp:144-154 | a fraction without its dash or without its second number is refused |
| SelectorTexts.LongTokens | lib/Lightnet/Core/Controller/PanelSelectorParser.hpp:222-229 | a longer token is read as its first 39 characters |
| SelectorTexts.IndexLists | lib/Lightnet/Core/Controller/PanelSelectorParser.hpp:170-203 | a list of numbers is read as those panels exactly if there are 1 to 32, each from 1 to 255, and refused otherwise |
| SelectorTexts.BlankInFront | lib/Lightnet/Utils/SimpleJson.hpp:492-495 | whitespace in front of a selector, a field, an element or a list changes nothing |
| SelectorCode.SelAppend | lib/Lightnet/Core/Controller/PanelSelectorParser.hpp:205-288 | for every text: what the recursive parser accepts is the tree that the rows above give it, and it has appended that tree's program; what they refuse is refused, and the parser hangs only where a skip makes no progress |
| SelectorCode.SelEmitIndexArray | lib/Lightnet/Core/Controller/PanelSelectorParser.hpp:170-203 | index lists of 1 to the maximum length are emitted with their complement, and every other list is refused |
| SelectorEval.EvalLeaf | lib/Lightnet/Core/Controller/PanelSelector.hpp:77-228 | each leaf opcode evaluates to the slots its predicate picks |
| SelectorEval.ResolveSelector | lib/Lightnet/Core/Controller/PanelSelector.hpp:233-273 | the evaluation loop with its bounded stack computes the resolution of any program, malformed ones included |
| SelectorEval.CompileAndResolve | lib/Lightnet/Core/Controller/PanelSelectorParser.hpp:291-302 | for every text and topology: an accepted text resolves to the meaning of its tree if and only if the need is at most six |
| SelectorEval.AcceptedButUnresolvable | lib/Lightnet/Core/Controller/PanelSelectorParser.hpp:214 | a text that the guard accepts and no topology resolves |
| LinkArq.LinkDedup.CheckAndNote | lib/Lightnet/Core/Relay/LinkArq.hpp:97-114 | a repeat of the checksum on the same edge within 12 ms, by 32-bit clock arithmetic, is reported, and every sighting is noted |
| LinkArq.ReceivedStaysSound | lib/Lightnet/Panel/LightnetPanel.cpp:295-336 | every copy is acked, duplicate or not, and dispatched exactly when its frame has not been dispatched before, if the link meets the two named assumptions |
| LinkArq.RightDispatchIffInTime | lib/Lightnet/Core/Relay/LinkArq.hpp:44-56 | those assumptions are exactly what a right dispatch needs |
| LinkArq.ArqEdgeLink.SendOnEdge | lib/Lightnet/Panel/ArqEdgeLink.cpp:14-43 | against any loss of copies and acks one to three copies of the frame are put on the wire, one for each transmission counted and three if it was given up; it is reported as acked exactly if an ack with its checksum has been read since, and then it was dispatched; dispatch order is kept |
| LinkArq.ArqEdgeLink.AwaitLinkAck | lib/Lightnet/Panel/ArqEdgeLink.cpp:45-71 | the window ends with success exactly if an ack with the checksum of the frame in flight has been read in it |
| LinkArq.ArqEdgeLink.Transmit | lib/Lightnet/Panel/ArqEdgeLink.cpp:14-43 | one more copy of the newest frame is on the wire, whatever else happens there |
| LinkArq.LossOrDelayOnly | lib/Lightnet/Panel/ArqEdgeLink.cpp:14-71 | if nothing has been lost since a send began and nothing is under way when it is over, its ack has been read: with copies sent = under way + received + lost and acks sent = under way + heard + lost, which every step keeps, a frame is given up only for a loss or a delay |
| LinkArq.DispatchedAtMostOnce | lib/Lightnet/Panel/LightnetPanel.cpp:295-336 | no frame is dispatched twice |
| ArqTiming.WindowCoversSpanIff | lib/Lightnet/Core/Relay/LinkArq.hpp:44-56 | no schedule of three transmissions is dispatched twice, if and only if 2 * (air + wait) + jitter <= 11 ms |
| ArqTiming.LongFramesCanRunTwice | lib/Lightnet/Core/Common/ProtocolTypes.hpp:231 | with the constants of the code and no jitter that holds exactly for frames of up to 35 bytes |
| PacketSinks.PacketSink.AwaitFrame | lib/Lightnet/Controller/Relay/ControllerRelayPacketSink.cpp:96-173 | the wait ends with the first answer; until then every hop-acked packet was acked once and in order, and the frame was repeated exactly as often as turns begun before its ack or the end were overdue, up to its attempts |
| PacketSinks.PacketSink.Send | lib/Lightnet/Controller/Relay/ControllerRelayPacketSink.cpp:175-225 | the number of transmissions, as a function of what arrives and of which turns are overdue: at most three, and one if the type has no hop acks |
| PacketSinks.RepeatsOnDeadTrunk | lib/Lightnet/Controller/Relay/ControllerRelayPacketSink.cpp:110-122 | with nothing inbound and every turn overdue, as many repeats as there are turns or attempts, whichever are fewer |
| PacketSinks.PacketSink.RequestReply | lib/Lightnet/Controller/Relay/ControllerRelayPacketSink.cpp:227-262 | a reply is returned if and only if a packet of its kind arrives in time, and it is the first such packet; the request went out once and was repeated as in the rows above |
| DatabaseRuns.RunRefinesMap | lib/Lightnet/Common/Database/Database.hpp:346-486 | every run of inserts, replacements, removals and reads on a created file is a run of a map that starts empty, with the answers of the map: an insert returns the unused reference it stores under, replacing and removing succeed just for live references, and reading gives the record |
| Databases.Database.Call | lib/Lightnet/Common/Database/Database.hpp:346-486 | a call on the object is a step of that run, with its answer |
| Databases.Database.CallAll | lib/Lightnet/Common/Database/Database.hpp:346-486 | a sequence of calls leaves the file of the run and gives its answers |
| DatabaseRuns.OthersUndisturbed | lib/Lightnet/Common/Database/Database.hpp:382-486 | a reference keeps its record until a call names it |
| DatabaseRuns.SlotsNeverOutnumberRecords | lib/Lightnet/Common/Database/Database.hpp:382-435 | without compaction the slot count is the high-water mark of the number of live records |
| DatabaseFile.InsertAddsToTable | lib/Lightnet/Common/Database/Database.hpp:382-435 | an insert stores its record under a reference that no live record has, and changes nothing else |
| DatabaseFile.ReplaceUpdatesTable | lib/Lightnet/Common/Database/Database.hpp:449-464 | a replacement changes the record of its own live reference and no other |
| DatabaseFile.RemoveDropsFromTable | lib/Lightnet/Common/Database/Database.hpp:466-486 | a removal drops its reference and nothing else, by one flag byte |
| DatabaseFile.TableHoldsLiveSlots | lib/Lightnet/Common/Database/DatabaseFormat.hpp:12-27 | the map of a file holds exactly the offsets of whole, live slots, with their own bytes |
| DatabaseRuns.LiveIsTable | lib/Lightnet/Common/Database/Database.hpp:243-289 | the scans visit exactly the records of the map |
| DatabaseRuns.SlotCountDivides | lib/Lightnet/Common/Database/Database.hpp:89-98 | the division by the slot size counts the slots a scan visits |
| DatabaseCompaction.CompactionKeepsRecords | lib/Lightnet/Common/Database/Database.hpp:102-168 | compaction keeps the live payloads and their order, and leaves whole slots that are all live |
| DatabaseCompaction.CompactionIsIdempotent | lib/Lightnet/Common/Database/Database.hpp:102-168 | compacting twice is compacting once |
| Databases.Database.Compact | lib/Lightnet/Common/Database/Database.hpp:102-168 | the single pass that reads and writes through one cursor leaves exactly the compacted file |
| Databases.Database.CompactOne | lib/Lightnet/Common/Database/Database.hpp:116-161 | each slot is dropped, moved or kept so that what is packed and what is unread stay right |
| Databases.Database.Create | lib/Lightnet/Common/Database/Database.hpp:170-198 | whatever the storage held, it becomes the four header bytes |
| Databases.Database.InsertSerialized | lib/Lightnet/Common/Database/Database.hpp:382-435 | the first deleted slot is reused, else a slot is appended, on files of any content |
| Databases.Database.ReadRecord | lib/Lightnet/Common/Database/Database.hpp:346-369 | what any reference finds, with the error for each way it can fail |
| Databases.Database.ReplaceSerialized | lib/Lightnet/Common/Database/Database.hpp:449-464 | a live slot's payload is overwritten; every other reference gives its error and changes nothing |
| Databases.Database.Remove | lib/Lightnet/Common/Database/Database.hpp:466-486 | a live slot's flag is set; every other reference gives its error and changes nothing |
| Databases.Database.LiveCount | lib/Lightnet/Common/Database/Database.hpp:54-86 | the number of live records, modulo 2^16 |
| Databases.Database.ForeachLive | lib/Lightnet/Common/Database/Database.hpp:243-289 | the callback sees the live records in order, up to and including the first it rejects |
| Databases.Database.NextLiveFrom | lib/Lightnet/Common/Database/Database.hpp:296-344 | the first live record from an offset, and where to go on |
| Databases.WalkVisitsLive | lib/Lightnet/Common/Database/Database.hpp:290-344 | asking for the next live record until there is none visits what one scan visits |
| Databases.WalkIsSortedTable | lib/Lightnet/Common/Database/Database.hpp:290-344 | it visits exactly the references of the map, each once and in ascending order |
| Databases.Database.SlotCount | lib/Lightnet/Common/Database/Database.hpp:89-98 | the number of whole slots in the file |
| Storages.Storage.Write | test/test_database/MemoryRandomAccessStorage.hpp:59-71 | bytes are overwritten at the cursor, and the file grows when they run past its end |
| Bootloaders.FirstChunk | lib/Lightnet/Panel/bootloader/RelayBootloader.cpp:294-391 | the first chunk of the next page, arriving once or more often, is buffered and leaves all earlier pages alone |
| Bootloaders.SecondChunk | lib/Lightnet/Panel/bootloader/RelayBootloader.cpp:269-391 | the second chunk commits the page, and a repetition commits the same bytes |
| Bootloaders.ChunkTakenIff | lib/Lightnet/Panel/bootloader/RelayBootloader.cpp:350-379 | a chunk is taken exactly when it is intact, of legal length and within one application page; a refused chunk changes nothing |
| Bootloaders.ChunkIsStored | lib/Lightnet/Panel/bootloader/RelayBootloader.cpp:269-391 | for any taken chunk, in order or not, what each byte of the flash is from the next commit on: the chunk's, the page buffer's, 0xFF in the rest of a page newly begun, or as before |
| Bootloaders.EnteringLoadsNothing | lib/Lightnet/Panel/bootloader/RelayBootloader.cpp:294-391 | after entry the first chunk erases the rest of its page and leaves the other pages alone |
| OtaCampaign.RelayBootloaderClient.Exchange | lib/Lightnet/Controller/OTA/RelayBootloaderClient.cpp:84-111 | under lost, repeated and garbled requests and acks, and with bootloaders giving up at any time, an intact positive ack means that the chunk has been taken; if the bootloader stays, the reply is exactly that to the last arrival of the request, unless it is lost or garbled |
| OtaCampaign.RelayBootloaderClient.WriteChunk | lib/Lightnet/Controller/OTA/RelayBootloaderClient.cpp:70-139 | success within three attempts means that the chunk is in place, and comes exactly with an intact positive ack; if one attempt gets through it comes; other panels only drift |
| OtaCampaign.RelayBootloaderClient.WritePage | lib/Lightnet/Controller/OTA/RelayBootloaderClient.cpp:141-157 | success means that one more page of the image is in flash and can no longer be disturbed, and comes if each chunk gets through once |
| OtaCampaign.PanelFlasher.DoneMeansAllFlashed | lib/Lightnet/Controller/OTA/PanelFlasher.cpp:66-159 | a campaign that is done has put the firmware, filled up with 0xFF to whole pages, into the flash of every panel |
| OtaCampaign.PanelFlasher.RootComesLast | lib/Lightnet/Controller/OTA/PanelFlasher.hpp:21-34 | at every step, errors included, the way to the root from a panel that waits or is being updated is untouched, and a panel whose update has begun has only finished panels behind it |
| OtaCampaign.PanelFlasher.Run | lib/Lightnet/Controller/OTA/PanelFlasher.cpp:66-159 | every step keeps both, whatever the link does and whichever bootloaders give up before and during it; a step in which nothing fails brings the campaign exactly one step nearer to its end |
| OtaCampaign.PanelFlasher.RunFlash | lib/Lightnet/Controller/OTA/PanelFlasher.cpp:112-153 | a step ends in an error exactly if the file does not give the page or the page is not written; otherwise the page is in flash and counted, and the panel is finished exactly behind the last page |
| OtaCampaign.PanelFlasher.RunWait | lib/Lightnet/Controller/OTA/PanelFlasher.cpp:84-110 | the step waits, connects or fails exactly as delay, pong, version and file say |
| OtaCampaign.PanelFlasher.Campaign | lib/Lightnet/Controller/OTA/PanelFlasher.cpp:22-159 | if nothing fails, a campaign on n panels with a firmware of p pages is done after exactly n * (p + 3) calls of run, and every panel then holds the firmware |
| OtaCampaign.PanelFlasher.StartFlashing | lib/Lightnet/Controller/OTA/PanelFlasher.cpp:22-64 | a campaign begins exactly for a readable file of 1 byte to 28 KiB and at least one panel |
| OtaCampaign.PanelFlasher.ReadPage | lib/Lightnet/Controller/OTA/PanelFlasher.cpp:114-124 | the pages read are those of the padded image, in order |
| SerialFirmware.TriggersAtFirstMagic | lib/Lightnet/Controller/OTA/SerialFirmwareReceiver.cpp:14-35 | on any stream the header begins right behind the first occurrence of LNFW and not before |
| SerialFirmware.FlashedAreFilesInStream | lib/Lightnet/Controller/OTA/SerialFirmwareReceiver.cpp:14-151 | on every stream the files that flashing is started with are exactly those that can be read off it as a whole: behind a magic, an allowed size, that many bytes, and the checksum of these bytes |
| SerialFirmware.FilesArePackets | lib/Lightnet/Controller/OTA/SerialFirmwareReceiver.cpp:72-151 | each of them is one contiguous piece of the stream, between magic and size in front and its checksum behind |
| SerialReceivers.SerialFirmwareReceiver.ProcessByte | lib/Lightnet/Controller/OTA/SerialFirmwareReceiver.cpp:58-156 | the receiver with its buffers is the machine of these rows |
| SerialReceivers.SerialFirmwareReceiver.ProcessStream | lib/Lightnet/Controller/OTA/SerialFirmwareReceiver.cpp:14-156 | the receiver starts flashing with exactly the files in the stream |
| SerialUpload.RunsStaySound | tools/flash_panels_serial.py:134-163 | every run of both ends keeps the upload's invariant and has at most 14 + n + 2 * ceil(n / 256) steps for a file of n bytes |
| SerialUpload.SomeoneCanMove | tools/flash_panels_serial.py:134-158 | until the upload is over, the host can move or a byte is on its way: no deadlock |
| SerialUpload.OneChunkInFlight | tools/flash_panels_serial.py:134-154 | never more than 256 bytes are on their way to the device |
| SerialUpload.Outcome | tools/flash_panels_serial.py:156-163 | the upload succeeds exactly when size, flasher and panels allow it; then the stored and flashed file is the file sent, and the host has read ceil(size / 256) chunk acks |
| SerialUpload.ChunkIsAnswered | lib/Lightnet/Controller/OTA/SerialFirmwareReceiver.cpp:100-122 | each chunk of the host gets exactly one ack, for its last byte |
| PanelGraphs.IncidentIsSymmetric | lib/Lightnet/Core/Controller/PanelGraph.hpp:161-176 | a link is in the list of one slot just when it is in the list of the other, with its connectors exchanged |
| PanelGraphs.IncidentHoldsLinks | lib/Lightnet/Core/Controller/PanelGraph.hpp:161-176 | a slot's list holds exactly the links that touch it |
| PanelGraphs.PanelGraph.Build | lib/Lightnet/Core/Controller/PanelGraph.hpp:42-64 | the compressed arrays give, slot by slot, exactly the incident links; no panels or too many are refused |
| PanelGraphs.FitsIff | lib/Lightnet/Core/Controller/PanelGraph.hpp:122-177 | the arrays have room for both ends of the known links exactly up to 100 of them |
| PanelGraphs.PanelGraph.BuildAdjacency | lib/Lightnet/Core/Controller/PanelGraph.hpp:136-177 | counting, placing and filling behind cursors leaves each slot's links in its own segment |
| PanelGraphs.SegmentsFill | lib/Lightnet/Core/Controller/PanelGraph.hpp:150-155 | the segments together hold both ends of every known link |
| PanelGeometries.PanelGeometry.BfsParents | lib/Lightnet/Core/Controller/PanelGeometry.hpp:167-202 | the walk stays within its buffers and fills the arrays with a tree that is ordered, parented over real links and fully explored; the root and slots out of reach have no parent and no connectors |
| PanelGeometries.ListedIffLinked | lib/Lightnet/Core/Controller/PanelGeometry.hpp:167-202 | a slot is listed exactly when some walk of links reaches it from the root |
| PanelGeometries.EverySlotListedOnce | lib/Lightnet/Core/Controller/PanelGeometry.hpp:167-202 | on a connected graph the order is a permutation of the slots |
| PanelGeometries.ParentChainIsShortest | lib/Lightnet/Core/Controller/PanelGeometry.hpp:167-202 | following parents leads to the root in exactly the shortest number of hops |
| Topologies.ConvertDiscoveredTreeToPanels | lib/Lightnet/Controller/Panels/PanelsInitializer.cpp:68-98 | one object per panel and connector, and every pointer leads where the discovered links say |
| Topologies.GetPanelByIndex | lib/Lightnet/Controller/Panels/PanelsInitializer.cpp:105-116 | the panel with an index, or none |
| TopologyProviders.FillTopology | lib/Lightnet/Controller/Scenes/PanelsTopologyProvider.hpp:23-79 | the nested loops collect the links of the pointers in scanning order, each pair of panels once |
| TopologyProviders.LinksComeBack | lib/Lightnet/Controller/Scenes/PanelsTopologyProvider.hpp:23-79 | of a discovered tree every link comes back exactly once with both connectors, and nothing else does |
| TopologyProviders.GraphSurvives | lib/Lightnet/Controller/Scenes/PanelsTopologyProvider.hpp:23-79 | the adjacency built from the links that come back is that of the discovered tree |
| Crc.BurstsAreDetected | lib/Lightnet/Utils/Crc.cpp:3-27 | messages of any equal length that differ, but only within 16 consecutive bits, have different checksums |
| Crc.SeventeenBitBurstCollides | lib/Lightnet/Utils/Crc.cpp:3-27 | the bound is tight |
| Crc.CrcIsBitwise | lib/Lightnet/Utils/Crc.cpp:3-14 | the byte loop feeds the bits of the message, least significant first |
| Crc.ComputeCrc16 | lib/Lightnet/Utils/Crc.cpp:17-27 | the loops compute that checksum |
| Crc.CheckValue | lib/Lightnet/Utils/Crc.cpp:17-27 | the checksum of "123456789" is 0x4B37, the check value of this CRC |
| Sha1Transform.SHA1Transform | lib/WebSockets/libsha1/libsha1.c:57-113 | sixteen-word ring, rotated roles and macro forms compute the compression of section 6.1.2 of FIPS 180-4 |
| Sha1Transform.RingMixes | lib/WebSockets/libsha1/libsha1.c:44-45 | four ring slots hold the words that the 80-word schedule combines |
| Sha1Transform.MixedIsF | lib/WebSockets/libsha1/libsha1.c:48-52 | the choice and majority forms of the macros are those of section 4.1.1 |
| Sha1Contexts.Sha1Context.Update | lib/WebSockets/libsha1/libsha1.c:132-151 | state, count and waiting bytes depend on the bytes given so far and not on how they were cut |
| Sha1Contexts.CountAdds | lib/WebSockets/libsha1/libsha1.c:136-139 | the two-word count is eight times the length modulo 2^64 |
| Sha1Contexts.FullBlockTestIff | lib/WebSockets/libsha1/libsha1.c:141 | where the 32-bit sum is right |
| Sha1Contexts.Sha1Context.Final | lib/WebSockets/libsha1/libsha1.c:156-198 | the digest is that of the message with the padding of section 5.1.1, and the context is wiped |
| Sha1Contexts.StateBytesAreWords | lib/WebSockets/libsha1/libsha1.c:190-193 | the twenty bytes are the five words, most significant byte first |
| Sha1.ZeroBytesAreFewest | lib/WebSockets/libsha1/libsha1.c:186-189 | the padding adds the fewest zeros that reach 448 modulo 512 bits |
| Sha1Example.AbcDigest | lib/WebSockets/libsha1/libsha1.c:57-113 | the digest of "abc" is that of the standard's example, which fixes the constants and rotations that code and standard share |
| Base64.EncoderIsRfc4648 | lib/WebSockets/libb64/cencode.c:35-117 | block encoding and block end give the encoding of section 4, a newline after every 72 characters of full groups, and a NUL |
| Base64.EncodingLengthFromStart | lib/WebSockets/libb64/cencode.c:35-117 | 4 * ceil(n / 3) characters and floor(n / 54) newlines |
| Base64.RoundTrip | lib/WebSockets/libb64/cdecode.c:34-96 | however input and output are cut into blocks, decoding the encoder's output gives the input back |
| Base64.DecodeUndoesEncoding | lib/WebSockets/libb64/cdecode.c:34-96 | decoding skips padding, newlines and NUL and undoes the encoding |
| Base64.Encoder.EncodeBlock | lib/WebSockets/libb64/cencode.c:35-94 | a block resumes at the step the last one ended with |
| Base64.Decoder.DecodeBlock | lib/WebSockets/libb64/cdecode.c:34-96 | a block resumes with the byte the last one had begun |
| Base64.LookUp | lib/WebSockets/libb64/cdecode.c:20-26 | guard and table give each character its place in the alphabet, none for the others, and the memory behind the table for `{` |
| Base64.PastTableIff | lib/WebSockets/libb64/cdecode.c:22-25 | the guard lets an index pass that the table does not have for `{` and for no other byte |
| Base64.MemoryIsReadIff | lib/WebSockets/libb64/cdecode.c:20-96 | what a message decodes to is the same for every content of that memory exactly if it holds no `{` |
| Base64.OneBraceReadsMemory | lib/WebSockets/libb64/cdecode.c:20-96 | the message `{` begins a byte or not, as that memory says |
| CircularQueues.CircularQueue.Enqueue | lib/Lightnet/Utils/CircularQueue.cpp:18-50 | a record is taken exactly when there is room in one piece, and queued behind the others, none of which is overwritten |
| CircularQueues.CircularQueue.Dequeue | lib/Lightnet/Utils/CircularQueue.cpp:52-62 | the oldest record comes out unchanged and contiguous, across the soft tail |
| CircularQueues.CircularQueue.ReadData | lib/Lightnet/Utils/CircularQueue.cpp:77-95 | at the soft tail reading goes on at the front |
| CircularQueues.EmptyQueueAlwaysTakes | lib/Lightnet/Utils/CircularQueue.cpp:22-44 | an empty queue takes a record at every place it can get to exactly if twice the record's size is at most one more than the buffer, or both are two |
| CircularQueues.ReachEmpty | lib/Lightnet/Utils/CircularQueue.cpp:18-95 | to every place but the second byte a record leads that is put into a fresh queue and taken out |
| CircularQueues.WhereEmpty | lib/Lightnet/Utils/CircularQueue.cpp:18-95 | an empty queue is at such a place |
| CircularQueues.SixByteBuffer | lib/Lightnet/Utils/CircularQueue.cpp:18-62 | a record that fits is refused by a queue that is empty again |
| Json.QuotedStringParses | lib/Lightnet/Utils/SimpleJson.hpp:181-210 | parsing a quoted string returns the original exactly when it fits the destination |
| Json.QuotedLenIsExact | lib/Lightnet/Utils/SimpleJson.hpp:252-283 | the length announced is the length written |
| JsonEscapes.StringSays | lib/Lightnet/Utils/SimpleJson.hpp:110-210 | for a string of any characters, two-character escapes and four-digit escapes, in any order: parsing gives what section 7 of RFC 8259 says it says, exactly if every escape is one of that section, those with four digits are up to U+007F, and the whole fits; otherwise it is refused |
| JsonSkips.SpinsIffStray | lib/Lightnet/Utils/SimpleJson.hpp:614-699 | skipping a value goes on for ever exactly when one pass over the text with a stack of brackets meets a closing brace inside a square bracket |
| JsonSkips.TidySkipEnds | lib/Lightnet/Utils/SimpleJson.hpp:614-699 | where brackets match and scalars are plain every skip ends, and a successful one with the same brackets open |
| JsonSkips.MatchedBracketsCanSpin | lib/Lightnet/Utils/SimpleJson.hpp:650-699 | matched brackets alone are not enough: `[a{}]` |
| JsonSkips.UpsertHangsIff | lib/Lightnet/Utils/JsonInject.hpp:40-48 | an upsert hangs exactly when the field is found and a stray brace is in its value |
| JsonSkips.UpsertReturns | lib/Lightnet/Utils/JsonInject.hpp:29-105 | on a tidy object whose nested strings hold no bracket an upsert of a plain field name always returns |
| JsonSkips.StrayBraceHangs | lib/Lightnet/Utils/JsonInject.hpp:40-48 | upserting `a` into `{"a":[}]}` never returns |
| JsonSkips.NestedBracketHangs | lib/Lightnet/Utils/SimpleJson.hpp:42-91 | nor does upserting `,` into the JSON object `{"x":["]",":[}"]}`, whose brackets match |
| SelectorSkips.ParsingReturns | lib/Lightnet/Core/Controller/PanelSelectorParser.hpp:205-288 | on a tidy text whose strings can be decoded reading a selector always returns |
| SelectorSkips.StrayBraceSpins | lib/Lightnet/Core/Controller/PanelSelectorParser.hpp:277-279 | reading the selector `{"x":[}]}` never returns |
| SelectorSkips.UnreadableKeySpins | lib/Lightnet/Utils/SimpleJson.hpp:747-780 | nor does reading a JSON text with a key that cannot be decoded, behind which strings and gaps are exchanged |
| JsonInserts.InsertKeepsOthers | lib/Lightnet/Utils/JsonInject.hpp:68-105 | inserting a field leaves every other field as it reads, whether it is there or not |
| JsonReplaces.KeepsOthersIff | lib/Lightnet/Utils/JsonInject.hpp:43-66 | replacing a value leaves all other fields there and as they read, for every new value, exactly if no colon follows the old one |
| JsonReplaces.ReplaceKeepsOthers | lib/Lightnet/Utils/JsonInject.hpp:43-66 | for each other field and each new value: it is there, and reads, as before |
| JsonReplaces.ColonTextLosesField | lib/Lightnet/Utils/JsonInject.hpp:43-66 | the text `{"f":"x":"y"}`, where a replacement of `f` does not |
| JsonReplaces.FindKeyReadsFields | lib/Lightnet/Utils/SimpleJson.hpp:42-91 | on an object whose nested strings hold no brackets, counting brackets finds the same as reading field by field: the value of the first field with the name, and never one inside a nested value |
| JsonInserts.CommaTrailsIff | lib/Lightnet/Utils/JsonInject.hpp:96-104 | the comma behind the new entry is the last thing in the object exactly if that had no fields |
| JsonInserts.EmptyObjectGetsComma | lib/Lightnet/Utils/JsonInject.hpp:96-104 | `{}` becomes `{"a":"b",}` |
| JsonUpsert.UpsertedFieldReadsBack | lib/Lightnet/Utils/JsonInject.hpp:29-105 | after any successful upsert, by replacement or insertion and for any field name, reading the field gives the value, exactly when it fits |
| JsonUpsert.LastUpsertWins | lib/Lightnet/Utils/JsonInject.hpp:29-105 | a second upsert of a field leaves no trace of the first |
| JsonUpsert.FindFromAlike | lib/Lightnet/Utils/SimpleJson.hpp:42-91 | the key search finds the same place in texts that agree up to the value |
| JsonCode.JsonFindKey | lib/Lightnet/Utils/SimpleJson.hpp:42-91 | the scanning loop is that search |
| JsonCode.JsonParseString | lib/Lightnet/Utils/SimpleJson.hpp:181-210 | the loop writes the parsed string and its NUL, or fails |
| JsonCode.JsonQuotedLen | lib/Lightnet/Utils/SimpleJson.hpp:252-283 | the loop adds up the exact length |
| JsonCode.JsonWriteQuotedString | lib/Lightnet/Utils/SimpleJson.hpp:357-375 | the quoted string is written exactly when it fits |
| JsonCode.JsonUpsertStringField | lib/Lightnet/Utils/JsonInject.hpp:29-105 | the buffer receives the upserted text, or the call is refused |

## Left out

- Registers, pins, timers, light output, debug output and counters: device input and output. Of the registers
  only the wake-interrupt mask is state of the model.
- MQTT, HTTP, WebSocket framing, TCP and WiFi; scene, palette and animation mathematics; the layout computations
  in `PanelGeometry` other than the breadth-first walk.
- Discovery itself, frame routing and packet framing. `LinkAckMatcher` is reduced to what it delivers, the
  checksum of an intact ack; a mangled ack counts as lost.
- Packets without hop acks on a panel's link: the sender returns after one transmission, and the receiver's
  duplicate filter does not see them.
- Error texts: a refusal is one outcome. Null buffers and the codecs of the database are not modelled; records
  are payloads of the record size.
- `Database::open`, and files whose last slot is torn: the map properties are proved for files that `create`
  began. The methods are specified on files of any content. Offsets are unbounded; the code keeps them in 32 bits.
- Storage failures, short reads of the firmware file and power loss: the code promises nothing about them.
- Wall-clock time-outs are choices, except in `ArqTiming`: which turns of a wait are overdue, how many polls a link
  window has, and whether a bootloader gives up are inputs, and the exact counts are functions of them. The serial upload is modelled without them.
- The host's wait for a booting controller and its skipping of other output lines; in the model the device sends
  nothing but its replies.
- A reset of a panel in the middle of its own update, and acks of one exchange that arrive in a later one.
- `LinkArq.ArqEdgeLink.SendOnEdge` requires that no other frame in flight carries the checksum of the frame to be
  sent; this is the named assumption that distinct frames in flight differ in their checksums.
- `SpscRing.StepKeepsInv` takes one load or store of an index as one step for every capacity. The code
  promises that only for indices of one byte, capacities up to 256, on 8-bit processors.
- SpscByteQueues.SpscByteQueue.Push: promises nothing about the ring behind a record of 65534 or 65535 bytes,
  because the wrapped test accepts it and it overwrites the ring.
- Sha1Contexts.Sha1Context.Update: requires that the waiting and the new bytes are fewer than 2^32, because
  behind a sum that has wrapped the code copies past the context's buffer.
- PanelGraphs.PanelGraph.Build: requires that at most 100 links are between known panels, because the code
  would write more of them past its arrays.
- PanelGraphs.PanelGraph.BuildAdjacency: requires the same.
- Fraction selectors are read as real numbers, without floating-point rounding, and a lower bound past 1 wraps
  where C++ leaves the conversion undefined. The rooted topology
  is a parameter: a slot count, predicates per slot, and an order that is a bijection.
- Reads one character past the end of a JSON text are modelled as reading NUL. Strings are NUL-free; a NUL ends
  them as in the code.
- The three parallel adjacency arrays of `PanelGraph` are one array of triples. Panel and connector numbers are
  natural numbers; the code keeps them in bytes.
- `char` is taken as signed in the base64 decoder, as its test for negative values needs. An or of disjoint bits
  is written as a sum in the base64 model.
- The host script's sending loop is a state machine on values, so that either end of the upload can move first.
- The reading helpers that only move a cursor (`jsonSkipValue`, `jsonNextElement`, `jsonNextKey`, token scanning) are
  recursive functions on the text instead of loops; the loops that write or search are methods.
- `SHA1Transform` is written as a loop over groups of five rounds, which the code unrolls.
- A record shorter than a function pointer in `MainLoopQueue::drain`: `post` never queues one.
