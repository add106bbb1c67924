# Verification of the Firewatch servers

This project models the servers of the repository (solutions to the Protohackers problems) whose
behaviour is hardest to get right, and proves properties of them:

- **Line reversal** (`LrMessage`, `LrDecoder`, `LineReversal`, `LrState`, `LrSession`, `LrNetwork`, `LrSends`,
  `LrLossy`, `LrDatagram`, with `Lines`, `Decimal` and `Ascii`): a reliable, ordered byte stream over datagrams.
  The session reverses each complete line it has accepted and sends the result one pending message at a time.
  `LrState` gives every handler as a function on the session's state together with the invariant the handlers
  keep, `LrSession` is the session object with the same handlers as methods on its fields, and `LrNetwork` puts
  one session, a network that loses, duplicates and reorders, and a peer into one transition system. `LrSends`
  says what every handler puts on the wire, in terms of what was accepted and acknowledged. `LrLossy` gives the
  network copies that can really be lost, and `LrDatagram` puts the decoder in front of the session, so that
  what arrives are encoded datagrams.
- **Job center** (`HeapOrder`, `MaxHeap`, `QueueManager`, `JobProtocol`, `JobCenter`): a generic priority heap
  updated in place, named queues with an index from job ids to queues, and the ownership protocol of any number
  of clients. `JobProtocol` has one step for each section that a handler runs under the queue manager's lock;
  `JobCenter` has the handlers themselves and proves that each performs exactly its steps.
- **Speed daemon** (`TicketBook`, `Offences`, `MessageHistory`, `CentralDispatcher`, `LoweredLimits`, `SdFormat`,
  `SdLayout`, `SdConverse`, `SdStream`, `SdCodec`, with `SdTypes` and `Sorting`): the dispatcher that tickets a
  plate at most once a day and misses no offence that can be ticketed, and the binary codec over a growing buffer.
  `MessageHistory` says what the messages processed so far amount to, limits, channels and records, and states the
  promises of a run in messages and seconds.
- **Insecure sockets layer** (`CipherOps`, `CipherCodec`, `CipherLaws`, `CipherParallel`, `SecureStream`,
  `SecureConnection`, with `ByteArithmetic`): a position-dependent stream cipher, its laws in numbers, the two
  parsers of its specification, decoding by several goroutines, the conversation that runs over it, and a whole
  connection from its raw bytes on.
- **Small cores** (`PrimeTime`, `VersionGroups`, `VersionNames`, with `Arithmetic`): trial division against the
  definition of a prime, and the grouping of stored files `name.version`.

Objects that the program updates in place are classes whose methods assign their fields; code with loops is a
method with a loop. Each such method is proved against a function or relation on values, and the properties are
lemmas and invariants about those. A method that does several things at once is divided into a few methods, one
for each of its parts.

Choices that hold throughout:

- Byte strings are sequences of bytes; slices are sequences, so sharing of backing arrays is not part of the
  model. Go's fixed-width integers are written out where they can wrap (`LimitHundredths`, the cipher's bytes,
  the message codec) or reject (`Atoi`).
- What is sent is appended to a history. In `LrNetwork` an event may happen whenever it is enabled and as often
  as it likes, so loss is an event that is never taken and duplication one that is taken twice; `LrLossy` has an
  event for each copy lost or duplicated, and every run of it is a run of `LrNetwork`.
- Queue names, job contents, plates in the dispatcher, and channels are abstract types with equality: the
  program only compares and copies them.
- A random or unordered choice of the program (the dispatcher that gets a ticket, the order in which a map is
  visited, the order of equal records in a sort, the schedule of goroutines) is a nondeterministic choice.
- `PutJob` requires that the job names the queue it is put into and that its id is not stored. Every caller
  meets this, in every interleaving: that is part of `HappenInv` and of the handlers' proofs.

## Findings

Where the code and its description differ, the model follows the code. The proofs turned up these cases, each
with the exact condition under which the code does what is intended:

- The line reversal decoder unescapes a data message and `HandleRecieveData` unescapes it again. Bytes are
  accepted unchanged if and only if they contain no backslash that is last or is followed by a slash or a
  backslash (`AcceptedUnchanged`, and `DatagramAcceptedUnchanged` for the encoded datagram);
  `EscapePairIsLost` is a run in which a line loses a byte.
- A data message is encoded but rejected by the decoder if and only if its bytes are empty or end in a backslash
  (`RoundTripData`).
- The speed limit is multiplied by 100 in sixteen bits; the product is right if and only if the limit is at most
  655 (`LimitFits`).
- A camera that changes the limit of a road does not look at the records again. The change is safe, for all
  speeds, records and days already ticketed, if and only if the sixteen-bit product that is compared with is not
  lowered (`SafeExactlyWhenNotLowered`); raising the limit from 655 to 656 lowers it, too. `LoweringMisses` runs
  a new dispatcher, for every lower product and every pair of records between the two, to a state with a missed
  offence.
- A byte that is no message type is reported but never taken out of the buffer: every later read reports it
  again and reads nothing else (`InvalidByteStays`). The result is independent of how a stream is cut into
  nonempty reads if and only if the stream is well typed or the first such byte is its last byte
  (`CuttingDoesNotMatterExactly`); it is well typed if and only if it consists of encoded messages and the
  beginning of one (`WellTypedIsWritten`).
- A dispatcher message is read back if and only if its count is the number of its roads (`RoundTrip`).
- The validity check is meant to refuse ciphers that change nothing. It encodes one text, in which every byte is 32
  more than its position, and accepts a cipher if and only if that text changes somewhere (`AcceptedExactly`).
  `RefusedThoughItChanges` gives a cipher of six operations that it refuses although it changes bytes.

## Model

| member | source | states |
|---|---|---|
| Decimal.AtoiItoa | internal/linereversal/linereversal_message.go:126-131 | printing a number and reading it back gives the same number exactly for the 64-bit numbers, and an error for all others |
| Decimal.AtoiExactly | internal/linereversal/linereversal_message.go:126-129 | a text reads as a number if and only if it is the number's digits after an optional sign and any zeros, and the number has 64 bits |
| Decimal.DigitsGrowth | internal/linereversal/linereversal_message.go:161-164 | the decimal length of a position never shrinks and grows by at most what the position grows by |
| LrMessage.UnescapeData | internal/linereversal/session.go:302-319 | the loop computes `Unescape`: it fails exactly on a trailing backslash that starts no pair |
| LrMessage.UnescapeEscape | internal/linereversal/session.go:302-319 | unescaping undoes escaping, without error, for every byte string |
| LrMessage.UnescapeAppend | internal/linereversal/session.go:302-319 | text that unescapes ends where an escape ends: what follows it unescapes by itself |
| LrMessage.UnescapeShort | internal/linereversal/session.go:302-319 | a backslash at the end is an error, before a slash or a backslash it goes, before any other byte it stays |
| LrMessage.EscapeOne | internal/linereversal/linereversal_message.go:171-187 | slash and backslash are escaped, and nothing else |
| LrMessage.SecondUnescape | internal/linereversal/session.go:204-208 | unescaping once more changes nothing exactly when the bytes are clean; otherwise it fails or loses bytes |
| LrMessage.PackDataMessage | internal/linereversal/linereversal_message.go:159-193 | the loop consumes the longest prefix whose escaping fits the budget, appends exactly its escaping and sets the position |
| LrMessage.LongestFitIsMaximal | internal/linereversal/linereversal_message.go:169-189 | no longer prefix fits than the one that greedy packing takes |
| LrMessage.GreedyIsPackCount | internal/linereversal/linereversal_message.go:169-189 | the longest fitting prefix is unique: whatever stops where the next byte does not fit has consumed the same number of bytes |
| LrMessage.PackMakesProgress | internal/linereversal/linereversal_message.go:163-180 | for ids and positions of the protocol at least one byte of a nonempty buffer is packed |
| LrMessage.RepackReachesOldEnd | internal/linereversal/session.go:149-183 | after an acknowledgement inside the pending bytes, packing from there reaches at least the old end, although the position may have more digits |
| LrMessage.PackedFits | internal/linereversal/session.go:266-280 | the encoded data message is at most 999 bytes, within the capacity the send buffer is resliced to |
| LrMessage.PackedIsLongest | internal/linereversal/linereversal_message.go:159-193 | a prefix of the data makes a datagram of at most 999 bytes if and only if it is no longer than what is packed |
| LrMessage.WireText | internal/linereversal/linereversal_message.go:61-77 | the bytes of an encoded connect, close, ack and data message |
| LrMessage.WireFails | internal/linereversal/linereversal_message.go:72-74 | encoding fails exactly for the other types |
| LrMessage.AckFits | internal/linereversal/session.go:247-300 | so are ack and close messages |
| LrDecoder.DecodeLRMessage | internal/linereversal/linereversal_message.go:79-119 | the scan computes `Decode`; session, length, position and end of the data of whatever it returns are within 0 to 2147483647 |
| LrDecoder.RoundTripControl | internal/linereversal/linereversal_message.go:61-156 | for all integers: a connect, close or ack message decodes to itself if its session and length are within 0 to 2147483647, and is rejected otherwise |
| LrDecoder.RoundTripData | internal/linereversal/linereversal_message.go:61-156 | for all integers and bytes: a data message packed from raw bytes decodes to the same session, position and bytes exactly when these are nonempty and do not end in a backslash and session, position and end are allowed; it is rejected otherwise |
| LrDecoder.ScanFramed | internal/linereversal/linereversal_message.go:88-110 | any number of escaped fields between slashes, each nonempty and not ending in a backslash, are read back |
| LrDecoder.DecodeFields | internal/linereversal/linereversal_message.go:112-156 | what any such fields decode to: ack needs exactly a length, data exactly a position and the data, connect, close and unknown types may have more fields, and every number must be allowed |
| LrDecoder.UnwrittenText | internal/linereversal/linereversal_message.go:91-109 | text that no encoder writes: a lone backslash stays, a slash behind any backslash belongs to the field, empty fields are skipped, what no slash closes is dropped |
| Lines.CutAndJoin | internal/linereversal/session.go:219-242 | cutting a buffer into lines loses nothing |
| Lines.LinesAreClean | internal/linereversal/session.go:219-242 | no line and no unfinished rest contains the terminator |
| Lines.JoinAndCut | internal/linereversal/session.go:219-242 | cutting joined lines gives back the lines and the rest |
| Lines.CutAppend | internal/linereversal/session.go:219-242 | bytes that come later only extend the unfinished rest, so cutting does not depend on how the stream arrives |
| LineReversal.ReversalAppend | internal/linereversal/session.go:219-242 | the reversal of a longer stream extends the reversal of what came before by the lines completed since |
| LineReversal.ReversalOfLine | internal/linereversal/session.go:229-239 | the output for a line has its bytes from last to first and then the newline; without a newline there is no output |
| LineReversal.ReversalLength | internal/linereversal/session.go:219-242 | reversal and unterminated rest have together the length of the stream |
| LineReversal.ReversalTwice | internal/linereversal/session.go:219-242 | reversing twice gives back the complete lines |
| LrState.AckInRange | internal/linereversal/session.go:149-155 | an acknowledgement that is not refused slices the outgoing buffer in range and always passes the comparison with the pending length |
| LrState.AcknowledgeUnpacked | internal/linereversal/session.go:149-163 | removing acknowledged bytes leaves a state from which the next pack reaches the old MaxAck |
| LrState.FlushInv | internal/linereversal/session.go:167-194 | packing the next message restores the invariant and never moves MaxAck back |
| LrState.OnAckInv | internal/linereversal/session.go:131-165 | HandleAck keeps the invariant, does not panic, and closes exactly for lengths above MaxAck |
| LrState.OnDataInv | internal/linereversal/session.go:196-245 | HandleRecieveData keeps the invariant: position, stored tail, outgoing bytes and pending message all agree with the bytes accepted |
| LrState.OnTimerInv | internal/linereversal/session.go:82-95 | retransmission keeps the invariant: whenever a message is pending, the timer is armed |
| LrSends.FlushSends | internal/linereversal/session.go:167-194 | packing sends the longest piece of output after what has been acknowledged that makes a datagram of at most 999 bytes, up to the new MaxAck, and nothing exactly when all output has been acknowledged |
| LrSends.TimerSends | internal/linereversal/session.go:82-95 | a timeout sends exactly one message, the output from the acknowledged position to MaxAck, unless all output has been acknowledged |
| LrSends.AckSends | internal/linereversal/session.go:131-165 | an ack below the acknowledged position changes nothing, one above MaxAck sends a close and closes, and any other is taken and answered with the longest piece of output after it |
| LrSends.DataSends | internal/linereversal/session.go:196-245 | data out of order is answered with an ack of exactly the bytes accepted and changes nothing else; data in order is accepted, acknowledged with exactly the bytes then accepted, and followed by the longest piece of the new output when nothing was pending; data that does not unescape is ignored |
| LrSends.ConnectSends | internal/linereversal/session.go:110-130 | a connect is answered with an ack of 0, and closing sends a close message |
| LrSends.OnlyTheseAreSent | internal/linereversal/session.go:131-300 | over every run: every ack ever sent is for at least 0 and at most the bytes accepted, a close was sent exactly when the client closed, and everything else is output at its position |
| LrSession.Session.constructor | internal/linereversal/session.go:52-69 | a new session is the initial state and satisfies the invariant |
| LrSession.Session.HandleAck | internal/linereversal/session.go:131-165 | the method does to the fields what `OnAck` does to the state; it closes exactly above MaxAck, and what it sends is the longest piece of output from the acknowledged position on; every slice and send is in range |
| LrSession.Session.HandleOutgoingBuffer | internal/linereversal/session.go:167-194 | the method does what `Flush` does |
| LrSession.Session.HandleRecieveData | internal/linereversal/session.go:196-217 | data out of order sends exactly one ack, of the bytes accepted; data in order that unescapes is accepted and acknowledged with the bytes then accepted; otherwise nothing is sent; the invariant is kept |
| LrSession.Session.CheckDataStore | internal/linereversal/session.go:219-245 | the loop moves the reversal of the complete lines to the outgoing buffer, keeps the unterminated rest, and sends |
| LrSession.Session.TimerFires | internal/linereversal/session.go:82-95 | the output from the acknowledged position to MaxAck is sent once more, and nothing else, exactly when not all output has been acknowledged |
| LrSession.ReversedLine | internal/linereversal/session.go:231-237 | the loop fills the reversed line with the newline last |
| LrNetwork.StepInv | internal/linereversal/session.go:71-194 | every enabled event keeps the system invariant without a panic, MaxAck does not decrease, and only the client's close closes the session |
| LrNetwork.Safety | internal/linereversal/session.go:131-194 | over every run: what the peer has assembled is a prefix of the reversed lines, no acknowledgement exceeds MaxAck, the closing branch of HandleAck is never taken, nothing panics |
| LrNetwork.MaxAckMonotone | internal/linereversal/session.go:149-183 | along every run MaxAck never decreases, although every pack assigns it |
| LrNetwork.SentMessagesAgree | internal/linereversal/session.go:92-95 | any two data messages ever sent, first sends, retransmissions or repacks, carry the same byte wherever both cover a position |
| LrNetwork.SentDecodes | internal/linereversal/linereversal_message.go:79-119 | decoding a data message that was sent gives the output bytes at its position exactly when they do not end in a backslash |
| LrNetwork.EndToEnd | internal/linereversal/session.go:131-245 | when clean pieces of the client's stream reach the session, decoded, the peer always has a prefix of the reversal of that stream |
| LrNetwork.AcceptedUnchanged | internal/linereversal/session.go:196-214 | data that arrives in order is accepted unchanged if and only if it is clean |
| LrNetwork.EscapePairIsLost | internal/linereversal/session.go:196-214 | a concrete run in which the client's line loses a byte |
| LrNetwork.AlwaysDeliverable | internal/linereversal/session.go:82-194 | from every state reachable with a peer that acknowledges only what it has, rounds of timeout, delivery and acknowledgement give the peer all reversed lines |
| LrNetwork.WholeStreamDeliverable | internal/linereversal/session.go:82-245 | from every such state that has accepted a beginning of a clean stream, the run can go on with pieces of at most two bytes until the peer has the reversal of the whole stream |
| LrLossy.LossyIsRun | internal/linereversal/session.go:71-129 | a network whose copies arrive once, get lost or are duplicated does nothing to session and peer that the network of `LrNetwork` cannot do |
| LrLossy.LossySafety | internal/linereversal/session.go:71-194 | so over every such run: no panic, the peer has a prefix of the reversed lines, no acknowledgement in transit exceeds MaxAck, nothing is in transit that was not sent |
| LrLossy.RecoversFromLoss | internal/linereversal/session.go:82-95 | at any moment the network may lose everything in transit: the messages that the timer sends from then on, and their acknowledgements, are enough to give the peer the reversal of all accepted lines |
| LrDatagram.PieceArrives | internal/linereversal/linereversal.go:50-66 | an encoded piece of data reaches the session it names as the same piece at the same position exactly when it is nonempty and does not end in a backslash, and no other session |
| LrDatagram.ControlArrives | internal/linereversal/linereversal.go:50-95 | encoded connects, closes and acks of every length within 0 to 2147483647 reach the session they name, and no other |
| LrDatagram.AwaitedAckArrives | internal/linereversal/linereversal.go:80-85 | the datagram of every acknowledgement from 0 to MaxAck reaches the session as that acknowledgement |
| LrDatagram.DatagramAcceptedUnchanged | internal/linereversal/linereversal.go:50-95 | through decoder and second unescape, bytes encoded at the expected position are accepted unchanged if and only if they are clean |
| LrDatagram.DatagramsEndToEnd | internal/linereversal/linereversal.go:50-95 | from encoded datagrams to the peer: for a client that encodes clean pieces of its stream, over a network that loses, duplicates and reorders, nothing panics and the peer has a prefix of the reversal of the stream |
| HeapOrder.SwapUp | internal/jobcenter/maxheap.go:300-314 | one turn of siftUp, which also swaps equal elements, moves the only possible disorder to the parent |
| HeapOrder.SwapDown | internal/jobcenter/maxheap.go:326-342 | one turn of siftDown moves the only possible disorder to the larger child |
| HeapOrder.RootIsMaximal | internal/jobcenter/maxheap.go:76-85 | in a heap over any strict weak order no element is greater than the first |
| HeapOrder.ReplacedUp | internal/jobcenter/maxheap.go:166-171 | a replaced element that is greater than its parent needs siftUp and nothing else |
| HeapOrder.ReplacedDown | internal/jobcenter/maxheap.go:172-175 | a replaced element that is not greater than its parent needs siftDown and nothing else |
| HeapOrder.ReplacedInPlace | internal/jobcenter/maxheap.go:240-244 | Update may skip siftDown when the old value is not greater than the new one |
| HeapOrder.DrainedStep | internal/jobcenter/maxheap.go:99-116 | taking a maximal element of those left keeps the taken ones in an order that never increases, above all that are left |
| MaxHeap.MaxHeap.Heapify | internal/jobcenter/maxheap.go:47-57 | the result is a heap of the same elements, for every size, with Go's truncating division |
| MaxHeap.MaxHeap.Peek | internal/jobcenter/maxheap.go:76-85 | the element shown is first and maximal; nothing is shown exactly for the empty heap |
| MaxHeap.MaxHeap.Push | internal/jobcenter/maxheap.go:89-96 | heap order is kept and the elements grow by exactly the item |
| MaxHeap.MaxHeap.Pop | internal/jobcenter/maxheap.go:99-116 | the element that Peek shows is returned and exactly it is removed |
| MaxHeap.MaxHeap.Drain | internal/jobcenter/maxheap.go:99-116 | popping until the heap is empty yields all elements in an order that never increases |
| MaxHeap.MaxHeap.Delete | internal/jobcenter/maxheap.go:130-179 | exactly the first match is removed, heap order is kept, without a match nothing changes |
| MaxHeap.MaxHeap.Update | internal/jobcenter/maxheap.go:203-247 | exactly the first match is replaced by the new value and heap order is kept |
| MaxHeap.MaxHeap.UpdateOrPush | internal/jobcenter/maxheap.go:272-280 | the first match is replaced, or the value is added when there is none |
| MaxHeap.MaxHeap.SiftUp | internal/jobcenter/maxheap.go:300-314 | terminates despite swaps of equal elements and establishes heap order |
| MaxHeap.MaxHeap.SiftDown | internal/jobcenter/maxheap.go:316-343 | terminates and establishes heap order from the given bound on |
| QueueManager.JobsOfPut | internal/jobcenter/queuemanager.go:52-53 | putting a job adds it to the jobs of the queue it names and to no other |
| QueueManager.JobsOfRemove | internal/jobcenter/queuemanager.go:83-84 | removing an id takes its job from the queue it names and from no other |
| QueueManager.QueueManager.GetNextId | internal/jobcenter/queuemanager.go:22-28 | ids are given out one after the other |
| QueueManager.QueueManager.PutJob | internal/jobcenter/queuemanager.go:40-54 | the job is stored, the index stays exact, a missing queue is created |
| QueueManager.QueueManager.GetPriorityJob | internal/jobcenter/queuemanager.go:58-86 | the job returned has maximal priority over all jobs of the requested queues and is the very one removed; None exactly when these queues are empty |
| QueueManager.QueueManager.PeekAt | internal/jobcenter/queuemanager.go:66-79 | the head of a queue is at least as urgent as every job of the queue |
| QueueManager.QueueManager.DeleteJob | internal/jobcenter/queuemanager.go:90-108 | the job goes exactly when it is in a queue; the branch that reports a failed deletion is never taken |
| QueueManager.QueueManager.DropIfEmpty | internal/jobcenter/queuemanager.go:104-106 | a queue is dropped exactly when it is empty, and the index stays exact |
| JobProtocol.MoveConserves | internal/jobcenter/queuemanager.go:22-108 | what a step takes from one place it adds to another: the account of every id stays balanced |
| JobProtocol.ClientConserves | internal/jobcenter/jobcenter.go:20-50 | a client's step changes what the client owns exactly as the shared move says, and the client has what it gives |
| JobProtocol.HappenInv | internal/jobcenter/jobcenter.go:145-270 | every step of every client keeps the account of all ids; deleted ids stay deleted; a job handed to PutJob is never stored already |
| JobProtocol.ExactlyOnePlace | internal/jobcenter/jobcenter.go:145-270 | in every run, with any number of clients and any interleaving of lock sections, each id given out is deleted, or in one queue, or owned by exactly one client; no other id is anywhere |
| JobProtocol.DeletedForEver | internal/jobcenter/jobcenter.go:171-194 | a deleted id is in no queue, owned by nobody and never given out again, however the run goes on |
| JobProtocol.ReleasingIsVisible | internal/jobcenter/jobcenter.go:150-153 | a run from the empty system in which, between PutJob and deleteJob of an abort, another client gets the job while the first still lists it, without owning it |
| JobCenter.Client.HasJob | internal/jobcenter/jobcenter.go:29-36 | the first job of the list with the id |
| JobCenter.Client.DeleteJob | internal/jobcenter/jobcenter.go:38-46 | exactly the first job with the id leaves the list, the others keep their order |
| JobCenter.Client.ReturnAllJobs | internal/jobcenter/jobcenter.go:20-27 | every job of the list is stored again under its id, unchanged, the list is empty, and the account of all ids holds |
| JobCenter.HandlePut | internal/jobcenter/jobcenter.go:196-215 | the job with exactly this priority, content and queue is stored under a fresh id; performs the protocol's two steps of a put and keeps the account |
| JobCenter.HandleGet | internal/jobcenter/jobcenter.go:217-255 | a job of one of the named queues with maximal priority leaves the stored jobs and joins the client's list, as the protocol's get; or the answer is no-job exactly when these queues are empty |
| JobCenter.HandleAbort | internal/jobcenter/jobcenter.go:145-169 | exactly when the client lists the job it leaves the list and is stored again unchanged, by the two steps of an abort; otherwise nothing changes, and not controlled is told from no-job |
| JobCenter.HandleDelete | internal/jobcenter/jobcenter.go:171-194 | the id is stored nowhere afterwards and gone from the client's list; no-job is answered, and nothing changed, exactly when neither had it |
| JobCenter.AbortSteps | internal/jobcenter/jobcenter.go:150-153 | the two steps of an abort, uninterrupted, move the job from the list to its queue |
| Sorting.SortBy | internal/speeddaemon/central_dispatcher.go:106-108 | the result is sorted by the key and a permutation |
| Sorting.SortedOneWay | internal/voraciouscodestorage/filemanager.go:184-186 | two sorted lists of the same numbers are equal |
| TicketBook.LimitFits | internal/speeddaemon/central_dispatcher.go:120 | the sixteen-bit product is the limit in hundredths exactly up to 655, and differs from it by whole wraps beyond |
| TicketBook.OffenceThreshold | internal/speeddaemon/central_dispatcher.go:126-138 | with exact arithmetic, for every limit, rounding down makes a pair an offence exactly from a hundredth of a mile per hour above the sixteen-bit product that is compared with |
| TicketBook.IssueKeepsBook | internal/speeddaemon/central_dispatcher.go:140-171 | issuing a ticket whose days are free keeps every day listed as often as it is ticketed, at most once |
| TicketBook.TicketsDisjoint | internal/speeddaemon/central_dispatcher.go:140-171 | no two tickets sent for a plate cover a common day |
| TicketBook.ListedExactlyWhenCovered | internal/speeddaemon/central_dispatcher.go:168-170 | the days listed for a plate are exactly those its tickets cover |
| TicketBook.HeldBackExactly | internal/speeddaemon/central_dispatcher.go:141-148 | a ticket is held back exactly when a ticket already sent for the plate has a day, of 86400 seconds, in common with it |
| TicketBook.TicketsApart | internal/speeddaemon/central_dispatcher.go:141-171 | of two tickets for a plate one ends on a day before the other one starts |
| Offences.NoneMissedGrows | internal/speeddaemon/central_dispatcher.go:118-130 | more days and a higher limit miss no offence that was not missed before |
| Offences.Observed | internal/speeddaemon/central_dispatcher.go:86-116 | tickets justified by the observed plate's records are justified by the records of all roads, and earlier tickets stay genuine |
| MessageHistory.LimitFromCamera | internal/speeddaemon/central_dispatcher.go:78-84 | a limit is set exactly when a camera of the road came before, and is the limit of such a camera |
| MessageHistory.LimitIsLast | internal/speeddaemon/central_dispatcher.go:78-80 | it is the limit of the last camera of the road |
| MessageHistory.SeenIsObserved | internal/speeddaemon/central_dispatcher.go:86-104 | a record is kept exactly for an observation that came after some camera of its road |
| MessageHistory.RegisteredByMessage | internal/speeddaemon/central_dispatcher.go:61-69 | a channel is registered for a road exactly when a message that lists the road registers it |
| MessageHistory.RecordsNext | internal/speeddaemon/central_dispatcher.go:78-116 | if a message changes the records as its Process does, they stay exactly the observations seen after the road's first camera |
| MessageHistory.ChannelsNext | internal/speeddaemon/central_dispatcher.go:61-69 | the channels of a road stay exactly those registered for it, in order |
| MessageHistory.IssuedNow | internal/speeddaemon/central_dispatcher.go:118-171 | a justified and delivered ticket is due after the message in hand: for neighbours in time among the records seen by then, over the limit set by then, to a channel registered by then |
| MessageHistory.IssuedMeans | internal/speeddaemon/central_dispatcher.go:118-171 | a ticket in terms of the messages: both records observed for its plate on its road, nothing between them in time, its speed theirs and above the sixteen-bit product of the limit of the road's last camera, its channel registered for the road |
| MessageHistory.ClearMeansTicketed | internal/speeddaemon/central_dispatcher.go:118-171 | where nothing is missed, every two neighbouring records over the limit on a road with a dispatcher share a day with a ticket sent for the plate |
| LoweredLimits.SafeExactlyWhenNotLowered | internal/speeddaemon/central_dispatcher.go:78-84 | changing a limit misses nothing, for all speeds, records and days, if and only if the sixteen-bit product compared with is not lowered |
| LoweredLimits.LoweringMisses | internal/speeddaemon/central_dispatcher.go:55-116 | from a new dispatcher, for every two limits of which the second has the lower product and every pair between them, a run of five messages ends with an offence missed on a road that has a dispatcher |
| CentralDispatcher.CentralDispatcher.GenerateTicket | internal/speeddaemon/central_dispatcher.go:140-171 | a ticket with exactly these records goes to one dispatcher of the road, and its days are listed; with a dispatcher it is held back exactly when a ticket already sent for the plate shares a day with it |
| CentralDispatcher.CentralDispatcher.AnyDayTaken | internal/speeddaemon/central_dispatcher.go:144-148 | the loop finds out whether some day from the first record's to the second's is listed |
| CentralDispatcher.CentralDispatcher.AddDays | internal/speeddaemon/central_dispatcher.go:168-170 | the loop appends exactly the days of the range |
| CentralDispatcher.CentralDispatcher.CalculateTickets | internal/speeddaemon/central_dispatcher.go:118-130 | with a dispatcher, no time-adjacent pair over the limit is left without a listed day; every new ticket is for such a pair |
| CentralDispatcher.CentralDispatcher.ProcessCamera | internal/speeddaemon/central_dispatcher.go:78-84 | the limit is set, records are kept, and nothing becomes missed unless the limit is lowered |
| CentralDispatcher.CentralDispatcher.ProcessObservation | internal/speeddaemon/central_dispatcher.go:86-116 | exactly the observation is added to the plate's time-sorted records, an unknown road changes nothing, new tickets are for offences of this plate, nothing becomes missed |
| CentralDispatcher.CentralDispatcher.AddDispatcher | internal/speeddaemon/central_dispatcher.go:63-69 | the channel is appended once for each time a road is listed, and to no other road |
| CentralDispatcher.CentralDispatcher.ProcessDispatcher | internal/speeddaemon/central_dispatcher.go:61-76 | the new dispatcher's roads are checked for waiting tickets: every new ticket is for an offence on record and nothing is missed |
| CentralDispatcher.CentralDispatcher.Process | internal/speeddaemon/central_dispatcher.go:55-116 | any message sets the limit, registers the channels and adds exactly the record that it calls for; it keeps the books (days listed once, every ticket at a registered dispatcher of its road); every new ticket is for neighbours in time on record whose speed exceeds the limit in force; nothing is missed unless the product is lowered |
| CentralDispatcher.CentralDispatcher.ProcessNext | internal/speeddaemon/central_dispatcher.go:55-59 | the tickets sent while a message is processed are due after that message, and limits, records and channels stay those of the messages so far |
| CentralDispatcher.CentralDispatcher.Start | internal/speeddaemon/central_dispatcher.go:55-59 | over every run of messages in any order: the limits, channels and time-sorted records at the end are exactly those the messages amount to; of two tickets for a plate one ends on a day before the other starts; every ticket is for two observations whose speed exceeds the limit, was due after one of the messages, and went to a channel registered by then; if no camera lowers the product, every two neighbouring records over the limit on a road with a dispatcher share a day with a ticket sent for the plate |
| SdFormat.RoundTrip | internal/speeddaemon/messages.go:22-298 | an encoded message followed by anything is read back with exactly the rest left, if and only if a dispatcher message counts its roads right |
| SdFormat.ParseExtend | internal/speeddaemon/codec.go:32-68 | a message that can be read is read the same when more bytes follow |
| SdFormat.ParseShrinks | internal/speeddaemon/codec.go:74-86 | reading a message uses at least one byte, so extraction ends |
| SdFormat.CutOffIsIncomplete | internal/speeddaemon/codec.go:63-65 | a message cut off anywhere is incomplete, never another message and never invalid |
| SdFormat.PrefixFree | internal/speeddaemon/messages.go:22-298 | no encoding is the beginning of another message's encoding |
| SdLayout.BigEndian16 | internal/speeddaemon/codec_primatives.go:73-78 | two bytes encode a number exactly when it is 256 times the first plus the second |
| SdLayout.BigEndian32 | internal/speeddaemon/codec_primatives.go:80-85 | the like for four bytes |
| SdLayout.RoadAt | internal/speeddaemon/messages.go:268-282 | each road takes two bytes, in order |
| SdLayout.TextLayout | internal/speeddaemon/messages.go:18-64 | the bytes of an error and of a plate message |
| SdLayout.TicketLayout | internal/speeddaemon/messages.go:90-121 | the bytes of a ticket message |
| SdLayout.CameraLayout | internal/speeddaemon/messages.go:220-239 | the bytes of a camera message |
| SdLayout.DispatcherLayout | internal/speeddaemon/messages.go:264-282 | the bytes of a dispatcher message |
| SdLayout.TypeBytes | internal/speeddaemon/codec.go:6-14 | the seven bytes that start a message |
| SdConverse.ReadWasWritten | internal/speeddaemon/messages.go:22-298 | what is read from the front of a byte string can be encoded, and its encoding is exactly the bytes that were read |
| SdConverse.IncompleteIsCutOff | internal/speeddaemon/codec.go:63-65 | bytes that the decoder waits to be completed are the beginning of some message |
| SdStream.ExtractAppend | internal/speeddaemon/codec.go:70-89 | extracting before more bytes arrive changes nothing |
| SdStream.CuttingDoesNotMatter | internal/speeddaemon/speeddaemon.go:59-76 | a well-typed stream yields the same messages and the same rest for every way it is cut into reads |
| SdStream.CuttingDoesNotMatterExactly | internal/speeddaemon/speeddaemon.go:59-76 | the result is the same for every way of cutting a stream into nonempty reads if and only if the stream is well typed or the byte that is no type is its last |
| SdStream.LastByteInvalid | internal/speeddaemon/speeddaemon.go:59-76 | a byte that is no type and comes last is reported exactly once, however the stream is cut |
| SdStream.CuttingMatters | internal/speeddaemon/speeddaemon.go:59-76 | with more bytes after it, the cut just behind the byte that is no type makes the loop report it twice |
| SdStream.WellTypedIsWritten | internal/speeddaemon/codec.go:70-89 | a stream is well typed if and only if it consists of encoded messages and the beginning of one |
| SdStream.StreamIsRecovered | internal/speeddaemon/speeddaemon.go:59-76 | encoded messages and an unfinished one, cut into any reads, yield exactly those messages in order, the unfinished one stays in the buffer |
| SdStream.InvalidByteStays | internal/speeddaemon/codec.go:76-79 | a byte that is no type stays in the buffer, is reported at every later read, and blocks all messages |
| SdCodec.Encode | internal/speeddaemon/messages.go:22-282 | the writers produce `Encoding`, or fail exactly for a text over 255 bytes |
| SdCodec.SdBuffer.Decode | internal/speeddaemon/codec.go:32-68 | the readers agree with `Parse`; ValidBytes grows by exactly the bytes the message takes |
| SdCodec.SdBuffer.ReadRoads | internal/speeddaemon/messages.go:284-298 | the loop reads exactly the counted roads |
| SdCodec.ExtractFromSbBuffer | internal/speeddaemon/codec.go:70-89 | the loop yields the complete messages and the number of bytes after which the unfinished rest starts |
| SdCodec.HandleReads | internal/speeddaemon/speeddaemon.go:59-76 | the buffer loop over any reads is `Feed` |
| CipherOps.ReversedIsBitsReversed | internal/insecuresocketslayer/codec.go:42-50 | eight turns of the table's loop reverse the bits |
| CipherOps.ReversedTwice | internal/insecuresocketslayer/codec.go:248-249 | reversing the bits twice changes nothing |
| CipherOps.DecodeAfterEncode | internal/insecuresocketslayer/codec.go:246-286 | each inverse operation undoes its operation |
| CipherOps.EncodeAfterDecode | internal/insecuresocketslayer/codec.go:246-286 | each operation undoes its inverse |
| CipherOps.ListInverse | internal/insecuresocketslayer/codec.go:74-87 | the reversed list of inverses undoes the list, and the list undoes it, for every list, position and byte |
| CipherOps.DecodingInverts | internal/insecuresocketslayer/codec.go:96-142 | decoding inverts encoding and encoding inverts decoding for every list, start position and data |
| CipherOps.ParseIsSpec | internal/insecuresocketslayer/codec.go:208-241 | bytes parse to a list of operations if and only if they start with its specification |
| CipherOps.ParsedLength | internal/insecuresocketslayer/codec.go:219-222 | the length returned is that of the specification read, and within the data |
| CipherLaws.AddPosLaw | internal/insecuresocketslayer/codec.go:260-261 | under [AddPos] byte i of a stream from position start becomes itself plus start + i, modulo 256 |
| CipherLaws.XorPosLaw | internal/insecuresocketslayer/codec.go:256-257 | under [XorPos] it changes by exactly the bits of (start + i) modulo 256 |
| CipherLaws.AddLaw | internal/insecuresocketslayer/codec.go:258-259 | under [Add] it grows by the operand, modulo 256 |
| CipherLaws.XorLaw | internal/insecuresocketslayer/codec.go:254-255 | under [Xor] it changes by exactly the bits of the operand |
| CipherLaws.ReverseBitsLaw | internal/insecuresocketslayer/codec.go:252-253 | under [ReverseBits] each bit changes places with the one as far from the other end |
| CipherLaws.EncodedInTurn | internal/insecuresocketslayer/codec.go:96-110 | the operations of two lists are applied one list after the other |
| CipherLaws.PositionsModulo256 | internal/insecuresocketslayer/codec.go:246-264 | streams from positions equal modulo 256 are encoded alike, under every list |
| CipherLaws.HelloWithTwoAddPos | internal/insecuresocketslayer/codec.go:246-264 | the specification 05 05 00 makes 68 67 70 72 77 of the text hello |
| CipherLaws.SpecText | internal/insecuresocketslayer/codec.go:14-20 | the bytes of a specification, operation by operation |
| CipherLaws.AcceptedExactly | internal/insecuresocketslayer/codec.go:192-204 | a cipher is accepted if and only if it changes one of the 95 printable characters at its own place from 0 on |
| CipherLaws.RefusedThoughItChanges | internal/insecuresocketslayer/codec.go:192-204 | a cipher of six operations that changes bytes and is refused |
| CipherCodec.InitTable | internal/insecuresocketslayer/codec.go:40-53 | every entry of the table is its index with the bits reversed |
| CipherCodec.ParseCipherSpec | internal/insecuresocketslayer/codec.go:208-241 | the loop computes `Parse`, errors included |
| CipherCodec.ReadCipherSpecBytes | internal/insecuresocketslayer/insecuresocketlayer.go:80-109 | the first parser succeeds exactly when the second does within eighty bytes, and takes exactly the bytes the second reads |
| CipherCodec.ParsedAlone | internal/insecuresocketslayer/insecuresocketlayer.go:61-66 | what was read from the stream parses by itself to the same operations |
| CipherCodec.InvertOps | internal/insecuresocketslayer/codec.go:74-87 | the loop reverses the list |
| CipherCodec.NewCipher | internal/insecuresocketslayer/codec.go:58-93 | fails exactly for bytes that do not parse; otherwise both lists, the raw specification and the validity are those of what was parsed |
| CipherCodec.NoOpIsRejected | internal/insecuresocketslayer/codec.go:192-204 | a cipher that changes no byte at any position is never accepted |
| CipherCodec.Handshake | internal/insecuresocketslayer/insecuresocketlayer.go:61-75 | a connection is served exactly when its stream starts with a specification of at most eighty bytes that passes the validity check, and then with the cipher of exactly that specification |
| CipherCodec.EncodeData | internal/insecuresocketslayer/codec.go:96-110 | the loops compute `Encoded`, whose bytes `CipherLaws` gives for every operation and position |
| CipherCodec.DecodeSequential | internal/insecuresocketslayer/codec.go:129-142 | the loops compute `Decoded` |
| CipherParallel.ChunksPartition | internal/insecuresocketslayer/codec.go:150-167 | the chunks launched divide the data: every index has exactly one owner |
| CipherParallel.CeilCovers | internal/insecuresocketslayer/codec.go:152 | the chunk size, rounded up, reaches the end of the data |
| CipherParallel.Launch | internal/insecuresocketslayer/codec.go:156-167 | exactly the nonempty chunks are launched |
| CipherParallel.Written | internal/insecuresocketslayer/codec.go:174-181 | a write of one worker disturbs no byte that another has read or will read |
| CipherParallel.DecodeParallel | internal/insecuresocketslayer/codec.go:145-187 | decodes like the sequential loop for every number of workers and every order of their reads and writes |
| CipherParallel.DecodeData | internal/insecuresocketslayer/codec.go:118-126 | both branches of the dispatcher give the same result |
| SecureStream.AnswersAppend | internal/insecuresocketslayer/insecuresocketlayer.go:129-141 | later lines are answered after the earlier ones, and not at all after a rejected one |
| SecureStream.OutputExtend | internal/insecuresocketslayer/insecuresocketlayer.go:115-142 | more plaintext extends the output by the answers to the lines it completes |
| SecureStream.Client.RespondToClient | internal/insecuresocketslayer/insecuresocketlayer.go:146-161 | exactly the answer and a newline go out, encoded at the outbound position; a rejected line sends nothing |
| SecureStream.Client.AnswerLines | internal/insecuresocketslayer/insecuresocketlayer.go:129-141 | the loop answers the complete lines of the buffer up to the first rejected one and keeps the unfinished rest |
| SecureStream.Client.HandleRead | internal/insecuresocketslayer/insecuresocketlayer.go:115-141 | after each read the output is that of the whole ciphertext received so far |
| SecureStream.Client.RecieveLoop | internal/insecuresocketslayer/insecuresocketlayer.go:112-143 | however the ciphertext is cut into reads, the output is the encoding from position 0 of the answers to the decoded lines, in order, up to the first rejected one |
| SecureStream.ConversationIsFaithful | internal/insecuresocketslayer/insecuresocketlayer.go:112-161 | a peer that encodes its lines and decodes the output, both from position 0, reads exactly the answers to its lines |
| SecureConnection.HandleConnection | internal/insecuresocketslayer/insecuresocketlayer.go:47-78 | for every connection and every way its bytes arrive, what is written back is determined by the raw bytes: nothing without an accepted specification at the front, otherwise the encoded answers to the lines after it |
| SecureConnection.PeerReadsAnswers | internal/insecuresocketslayer/insecuresocketlayer.go:47-161 | a peer that sends an acceptable specification and its encoded lines, and decodes what comes back, reads exactly the answers to its lines |
| PrimeTime.IsPrime | internal/primetime/primetime.go:141-167 | true exactly for the primes, for every integer |
| PrimeTime.NextSix | internal/primetime/primetime.go:160-164 | one turn of the loop excludes the next six possible divisors |
| PrimeTime.SmallDivisor | internal/primetime/primetime.go:155-157 | a number without a divisor up to its square root is prime |
| PrimeTime.BelowRoot | internal/primetime/primetime.go:160-163 | the overshooting divisor i + 2 is below the number, so it never rejects a prime |
| VersionGroups.ParseWritten | internal/voraciouscodestorage/versionedFile.go:41 | reading a written path gives back name and version, whatever dots and digits the name has |
| VersionNames.ParseExactly | internal/voraciouscodestorage/filemanager.go:157-173 | a path names a version of a file if and only if its base is the name, a dot, and a text without a dot that reads as the version |
| VersionNames.Skipped | internal/voraciouscodestorage/filemanager.go:160-168 | an entry whose base has no dot, or no number after the last one, adds nothing |
| VersionNames.BaseLaws | internal/voraciouscodestorage/filemanager.go:158 | the base of a path is its last element, whatever slashes follow |
| VersionNames.StoredOne | internal/voraciouscodestorage/versionedFile.go:36-46 | for every name and number of versions there is a folder as `GroupingInvertsNaming` supposes it |
| VersionGroups.GroupVersionedFiles | internal/voraciouscodestorage/filemanager.go:154-177 | the map holds, for every name, exactly the files found for it, in order; entries without a version are skipped |
| VersionGroups.HasGap | internal/voraciouscodestorage/filemanager.go:188-194 | the sorted versions have a gap exactly when they are no permutation of 1 to n |
| VersionGroups.ParseValidGroups | internal/voraciouscodestorage/filemanager.go:179-201 | a group is kept exactly when its versions are 1 to n in some order, and is then sorted |
| VersionGroups.Load | internal/voraciouscodestorage/filemanager.go:144-146 | a name is kept exactly when the versions found for it are a permutation of 1 to n |
| VersionGroups.GroupingInvertsNaming | internal/voraciouscodestorage/filemanager.go:154-201 | a folder that stores the versions 1 to n of each name, listed in any order, is loaded back as the same names with their versions in order |

## Left out

- Sockets, deadlines, logging, profiling and every `Listen` function: input and output only.
- Time: the retransmission timer is armed or not, and fires at any moment while it is; session and heartbeat timeouts, which close a connection, are not modelled.
- `internal/linereversal/sessionmanager.go`: one session at a time; the map of sessions and its monitor are not part of this model, nor is the answer to a datagram for a session that does not exist.
- LrLossy.RecoversFromLoss: the rest of the run is one that the network could take; fairness, which would make it take one, is not part of the model.
- JSON requests and responses of the job center and of the prime server: the model starts from decoded requests and ends with the status of the answer.
- The waiting loop of a get request: a waiting client is a client that performs the get step later.
- JobCenter.HandleGet: one attempt, without the waiting loop.
- `IsEmpty`, `Contains`, `Clear` and `Compact` of the heap: one line each.
- `CalculateSpeed` in floating point: the dispatcher is proved for every function from two records to a 16-bit speed.
- TicketBook.OffenceThreshold: is about exact arithmetic; the rounding of `CalculateSpeed`'s floating point is not modelled.
- `math.Sqrt` in floating point: an exact integer square root.
- The speed daemon's connection handlers (roles, heartbeats, error replies): only the buffer loop of the connection is modelled.
- Write errors of a connection: a write that fails ends the conversation early.
- The file system of the code storage (reading folders, creating and removing files, building the stored file records from the groups) and its text protocol.
- The echo, budget chat, database, proxy and price servers: short and easy.
