# The eBUS data link stack, modelled and verified

This project models a C++ library that takes part in an eBUS, a serial two-wire bus on which devices exchange short
telegrams byte by byte, and proves properties of the model for every input, every byte stream and every run. The
model follows the code in three layers that build on each other. Nothing was executed.

* **Bytes.** `Sequence` is a byte buffer with a flag that says whether it holds the wire form, in which SYN and EXP are
  escaped. `Escape.dfy` specifies the escape coding, `Crc.dfy` and `CrcTable.dfy` the checksum as long division over
  GF(2) and as a table fold, `Polynomial.dfy` the checksum as a polynomial remainder. `Sequence.dfy` is the class.
* **Telegrams.** `TelegramValues.dfy` specifies building, checking and parsing a telegram on values, `Telegram.dfy` is
  the class whose methods are proved to do that in place. `Language.dfy` and `Roundtrip.dfy` say what `parse` accepts,
  `Verdicts.dfy` what is reported of everything else, and `Addresses.dfy` which addresses are masters. `Vectors.dfy` holds
  the telegrams of the repository's test program.
* **The participant.** A ten-state machine driven by single bytes. `Bus.dfy` specifies every state method as a function
  of the whole state (device scripts, buffers, counters, messages, and a log of what an observer sees); it can end in a
  next state, in one of the two device exceptions, or in a crash. `Ebus.dfy` is the class, each of whose methods is
  proved equal to its specification, early exits included; `Queue.dfy` and `Notify.dfy` are its two helpers;
  `Running.dfy` adds the loop of `run` and the calls of other threads.

On top of these stand the properties of whole runs: `Machine.dfy` is the transition system, in which the thread's
steps and the callers' actions interleave in any order and the device may fail at any read or write. The theorems are
in `Runs.dfy` (conservation, order, state invariant, spacing, crashes), `Results.dfy` (what is handed back by which
state), `Transfers.dfy` (what a transfer puts on the bus), `Delivery.dfy` (what a result of zero means), `Online.dfy`
(when messages are taken, and that a closed participant comes back), `Devices.dfy` (reads, writes and exceptions),
`Outcomes.dfy` (what single state methods leave behind), `Monitoring.dfy` (listening and waiting for the bus),
`Framing.dfy` (what read loops consume and how messages are answered), `Responses.dfy` (responding, opening),
`Agreement.dfy` (the two ends of a transfer against a third participant that listens), `Receiving.dfy` (the two ends
against each other) and `Handshake.dfy` (callers against the thread). `Cooperation.dfy` shows that every transfer
within the rules happens on some run, and `Witnesses.dfy` gives runs for the exceptional cases.

The device is a script of reads (a byte, a timeout or a fault), write faults and open outcomes; the `process` callback
is a script of reactions; `publish` and `rawdata` are logs. Every theorem quantifies over all scripts.

## Where the code differs from what one might expect

The model keeps the code as it is. These are the places where a property holds only in part; each has its exact
condition proved for all inputs, and a run or an input that shows the failure.

* Frames are sent as they are stored, without expanding them. The participant that a frame is for, and every participant
  if it is a broadcast, counts bytes and gets the frame that was meant if and only if it is audible
  (`Receiving.FrameTaken`, `Receiving.SenderAndReceiverAgree`): a sealed frame with a plain header when it has a data byte
  or its checksum is neither SYN nor EXP, an unsealed one when it contains neither, or a single one that happens to mend
  itself (`Receiving.AudibleExactly`). A broadcast that comes back unchanged is reported as success, audible or not,
  and nobody gets an inaudible one (`Witnesses.BroadcastHappens`); an unsealed one with the data byte SYN may reach
  everybody with EXP in its place (`Witnesses.ThreeBroadcasts`, `Witnesses.SynBroadcastDistorted`).
* A response is sent as it is stored, too. It is stored by the asker as it was meant if and only if it is audible
  (`Receiving.ResponseTaken`, `Receiving.ResponseAudibleExactly`). The response in the repository's own test program
  (test/test_telegram.cpp:63) is not: its last byte SYN is acknowledged and stored as EXP, and `transmit` returns 0
  (`Witnesses.ResponseCorrupted`).
* A third participant that listens applies `parse` to what it heard. When nothing had to be repeated, it has the telegram
  of a master-master or master-slave transfer if and only if the stored frame with its checksum is already in wire form
  (`Agreement.SenderAndListenerAgree`); for what is handed to `transmit` that means a checksum other than SYN and EXP and,
  if the frame comes without it, neither of them in the frame (`Agreement.WireExactExactly`).
* A response that is accepted at the second try makes the telegram invalid for a listener, because `parse` gives up at
  the first wrong checksum (`Agreement.SenderAndListenerAgree`, `Witnesses.SecondTryHappens`, `Witnesses.MessageLost`).
* A SYN inside a received frame makes the decoded frame one byte short, which reads as a frame without a checksum: with
  exactly one SYN and at least one data byte it is acknowledged unchecked. That holds for messages
  (`Framing.AnsweredExactly`, `Framing.UncheckedWithSyn`) and for responses (`Transfers.CorrectExactly`), where `transmit`
  then returns 0 (`Witnesses.UncheckedHappens`).
* An escaped third or fourth header byte shifts the header of a received message by one byte, so that another byte is
  taken for the length (`Framing.EscapedHeader`, `Framing.ShiftedAnswered`).
* `receiveMessage` uses the active message when the length byte is too large, whether or not there is one, and the
  second byte of the decoded message even if there is none. These are the only crashes of the thread
  (`Runs.CrashExactly`, an equivalence). Five bytes crash every participant (`Witnesses.CrashHappens`). The second one
  needs the own address EXP (`Results.CrashedByLength`), and happens there (`Witnesses.ShortCrashHappens`).
* `transmit` is documented to return an error number if an error occurred (include/ebus/Ebus.h:116). A message that is
  handed back with 0 was sent if and only if it comes from `freeBus`, or from a close that replaced `freeBus`
  (`Delivery.ZeroExactly`). Closing anywhere else and `sendResponse` hand back 0 as well
  (`Delivery.ClosingHandsBack`, `Witnesses.WaitingMessageLost`, `Results.ReportedButNeverSent`).
* The number of attempts to open the device is documented as limited (include/ebus/Ebus.h:172). Opening fails with an
  exception, whose handler clears the counter, so a device that cannot be opened is tried for ever and `idleSystem` is
  never entered from there (`Responses.OpeningNeverGivesUp`).
* When no SYN comes while the input is skipped after opening, the thread goes on to listen but the participant is not
  online, and refuses every message until the device is opened once more (`Online.OnlineExactly`,
  `Online.SilentDeviceStaysOffline`). A lost device, on the other hand, leaves it online (include/ebus/Ebus.h:106).
* `wait` returns at once when the flag is already set, and then leaves it set. Closing puts the thread to sleep if and
  only if the participant was never opened while it was not asleep (`Handshake.SleepsExactly`).
* A master-master telegram is valid without an acknowledge byte (`Roundtrip.MasterOnlyLanguage`), so after a refused first
  copy the refusal can be what is left as its answer (`Roundtrip.RetryLeavesRefusal`).
* `EBUS_ERR_MASTER` is never returned: a frame from an own address that is no master is refused before
  (`Ebus.EbusImpl.Submit`).
* `crc` leaves a reduced buffer in wire form (`Sequences.Sequence.Crc`); no property depends on the representation
  (`Sequences.CrcOfLogical`, `Framing.RebuiltMaster`).

## Model

| member | source | states |
|---|---|---|
| Escape.ReduceExtend | src/Sequence.cpp:85-143 | decoding undoes encoding, for every byte string |
| Escape.ReduceExtendPrefix | src/Sequence.cpp:85-143 | the same in the middle of a stream, whatever follows |
| Escape.ExtendInjective | src/Sequence.cpp:85-111 | different frames have different wire forms |
| Escape.ExtendConcat | src/Sequence.cpp:85-111 | the wire form of a concatenation is the concatenation of the wire forms |
| Escape.ExtendShape | src/Sequence.cpp:85-111 | a wire form has no SYN, one extra byte for each SYN or EXP of the frame, and does not end inside an escape |
| Escape.ExtendFixedPoint | src/Sequence.cpp:85-111 | exactly the frames without SYN and EXP travel unchanged |
| Escape.ExtendReduce | src/Sequence.cpp:85-143 | encoding undoes decoding exactly on byte strings without SYN in which 00 or 01 follows every EXP |
| Escape.CodesExactly | src/Sequence.cpp:85-143 | SYN travels as a9 01 and EXP as a9 00 |
| Escape.ReduceLength | src/Sequence.cpp:113-143 | decoding drops one byte for each SYN or EXP and nothing else |
| Crc.TableEntry | src/Sequence.cpp:170-205 | each of the 256 table entries is its index times x^8 modulo x^8+x^7+x^4+x^3+x+1 |
| Crc.CalcCrcDivides | src/Sequence.cpp:207-210 | one table lookup is eight steps of bitwise long division |
| Crc.DivideLinear | src/Sequence.cpp:77-78 | the checksum is linear over exclusive or |
| Crc.RemainderSnoc | src/Sequence.cpp:77-78 | the remainder of a message with one more byte is one table step from the remainder of the message |
| Polynomial.DivideIsRemainder | src/Sequence.cpp:77-78 | long division leaves a polynomial that differs from the message by a multiple of the divisor |
| Polynomial.RemainderUnique | src/Sequence.cpp:77-78 | only one byte does |
| Polynomial.CrcIsRemainder | src/Sequence.cpp:71-83 | a byte is the checksum if and only if it is the remainder of the expanded message as a GF(2) polynomial |
| Polynomial.OddErrorDetected | src/Telegram.cpp:294 | any odd number of flipped bits in body and checksum breaks the checksum equality, at every length |
| Polynomial.BurstDetected | src/Telegram.cpp:294 | so does any change within eight consecutive bits |
| Polynomial.ByteErrorDetected | src/Telegram.cpp:294 | so does any change confined to one byte |
| Sequences.Sequence.Sub | src/Sequence.cpp:25-33 | the part of a buffer from an index; length 0 means up to the end |
| Sequences.Sequence.Assign | src/Sequence.cpp:35-41 | the bytes with the given representation; an empty assignment leaves the buffer reduced |
| Sequences.Sequence.PushBack | src/Sequence.cpp:43-47 | appends a byte and sets the representation of the whole buffer |
| Sequences.Sequence.Clear | src/Sequence.cpp:64-69 | empty and reduced |
| Sequences.Sequence.Crc | src/Sequence.cpp:71-83 | returns the remainder of the wire form, and leaves the buffer in wire form |
| Sequences.Sequence.ToExtended | src/Sequence.cpp:85-111 | in-place encoding, nothing when already encoded |
| Sequences.Sequence.ToReduced | src/Sequence.cpp:113-143 | in-place decoding, nothing when already decoded |
| Sequences.CrcOfLogical | src/Sequence.cpp:71-83 | the checksum of a well-formed buffer depends only on the frame it stands for |
| Sequences.RepresentationKeepsFrame | src/Sequence.cpp:85-143 | changing the representation keeps the frame; going there and back keeps the bytes exactly when they are a wire form |
| Telegrams.Telegram.Clear | src/Telegram.cpp:358-373 | an empty telegram of undefined type |
| Telegrams.Telegram.SetKind | src/Telegram.cpp:521-529 | broadcast, master-master or master-slave, by the target address |
| Telegrams.Telegram.CreateMaster | src/Telegram.cpp:233-296 | takes a frame with or without checksum, with the verdict for every malformed one, and says how the argument is left |
| Telegrams.Telegram.CreateSlave | src/Telegram.cpp:308-356 | the same for a slave frame |
| Telegrams.Telegram.CreateMasterFrom | src/Telegram.cpp:221-231 | the same for a source address and the rest of the frame |
| Telegrams.Telegram.CreateSlaveFrom | src/Telegram.cpp:298-306 | the same for the bytes of a slave frame |
| Addresses.IsMasterExactly | src/Telegram.cpp:469-478 | an address is a master if and only if each of its halves consists of ones from the low end on |
| Addresses.MasterAddresses | src/Telegram.cpp:469-478 | these are 25 addresses, by name |
| Addresses.SlaveOfMaster | src/Telegram.cpp:480-490 | a master's slave address is five higher and is a slave, no framing byte and not the broadcast address |
| Addresses.SlaveAddressExactly | src/Telegram.cpp:480-490 | every address has a slave address that is no master and no framing byte: itself, or else the one five higher |
| Addresses.KindExactly | src/Telegram.cpp:521-529 | broadcast to fe, master-master to a master, master-slave to any other address |
| Verdicts.MasterVerdict | src/Telegram.cpp:233-296 | for every byte string the result of building a master frame, as a number: accepted exactly with a master as source, a target that is no framing byte, at most 16 data bytes, and the announced size without checksum or with the right one |
| Verdicts.LongestFrame | src/Telegram.h:58 | 16 data bytes are accepted, 17 are not |
| Verdicts.SlaveVerdict | src/Telegram.cpp:308-356 | the same for a slave frame |
| Telegrams.Telegram.Parse | src/Telegram.cpp:46-219 | total on every buffer, no index or sub-sequence out of range; computes the specified telegram |
| Telegrams.Telegram.ParseMaster | src/Telegram.cpp:50-132 | its master part, up to the acknowledgement |
| Telegrams.Telegram.ParseMasterRetry | src/Telegram.cpp:89-130 | its second copy of the master frame |
| Telegrams.Telegram.ParseSlave | src/Telegram.cpp:134-172 | its slave part |
| Telegrams.Telegram.ParseSlaveRetry | src/Telegram.cpp:174-216 | its second copy of the slave frame |
| Verdicts.ArgumentLeft | src/Telegram.cpp:233-356 | the buffer handed over keeps its frame, and is left in wire form exactly after an accepted frame without checksum |
| Language.ParseTransfer | src/Telegram.cpp:46-219 | every master-slave transfer, with or without refused copies, is parsed to its last frames |
| Language.ParsedTransfer | src/Telegram.cpp:46-219 | every valid master-slave telegram comes from such a transfer |
| Language.MasterSlaveLanguage | src/Telegram.cpp:46-219 | the exact language: valid master-slave telegrams are the byte strings [M1 crc NAK] M crc ACK [S1 crc NAK b] S crc ACK tail, with an empty tail after a refused slave frame |
| Language.TransferUnique | src/Telegram.cpp:46-219 | a byte string spells out at most one pair of frames |
| Language.ValidStates | src/Telegram.cpp:425-430 | the sum of the two verdicts is zero only when both are |
| Verdicts.MasterPartReported | src/Telegram.cpp:52-59 | a wrong master part is reported as the first thing that is wrong with it |
| Verdicts.AnswerReported | src/Telegram.cpp:63-77 | after a good one: a missing and an invalid acknowledge byte |
| Verdicts.SecondMasterReported | src/Telegram.cpp:89-100 | after a refusal: a wrong second copy |
| Verdicts.SecondAnswerReported | src/Telegram.cpp:102-130 | its acknowledge byte is missing or invalid, or it is refused again, at the end or not |
| Verdicts.SlavePartReported | src/Telegram.cpp:134-147 | a wrong slave part is reported as the first thing that is wrong with it, after a refusal of the master part or not |
| Verdicts.SlaveAnswerReported | src/Telegram.cpp:149-172 | after a good one: a missing and an invalid acknowledge byte, and a refusal with less than one byte after it |
| Verdicts.SecondSlaveReported | src/Telegram.cpp:180-216 | the second copy, by its checksum, its acknowledge byte and what follows |
| Verdicts.SecondSlaveCut | src/Telegram.cpp:180-186 | a second copy that is incomplete |
| Vectors.CompleteVectors | test/test_telegram.cpp:73-110 | the four telegrams of the test program that succeed, with up to two refusals, give its message and its response |
| Vectors.WireVector | test/test_telegram.cpp:74-79 | the first of them from the bytes on the wire |
| Vectors.RefusedVectors | test/test_telegram.cpp:90-119 | the two that are refused twice are invalid |
| Vectors.ShortVector | test/test_telegram.cpp:122-127 | the defect one is too short |
| Vectors.UnansweredVector | test/test_telegram.cpp:130-135 | the last one lacks an acknowledge byte |
| Roundtrip.MasterOnlyLanguage | src/Telegram.cpp:46-138 | the exact language of valid broadcast and master-master telegrams |
| Roundtrip.RetryTransparent | src/Telegram.cpp:79-138 | a refused first copy of the master frame changes neither verdicts nor telegram |
| Roundtrip.RetryLeavesRefusal | src/Telegram.cpp:102-107 | except for a stale refusal when the second copy is not answered |
| Roundtrip.AcceptedMaster | src/Telegram.cpp:233-296 | an accepted master frame is stored in one of the two representations, with its kind and the checksum of the frame |
| Roundtrip.AcceptedSlave | src/Telegram.cpp:308-356 | the same for a slave frame |
| Roundtrip.BuildThenParse | src/Telegram.cpp:221-356 | a telegram built from accepted frames, of any kind, is read back from its wire form with the same frames and checksums |
| Queue.NQueue.Enqueue | src/NQueue.h:40-45 | appends at the end |
| Queue.NQueue.Dequeue | src/NQueue.h:47-56 | removes and returns the first item |
| Notification.Notify.WaitArrive | src/Notify.h:37-41 | the first half of `wait`: passes when the flag is set and leaves it set, otherwise sleeps |
| Notification.Notify.WaitLeave | src/Notify.h:42-45 | the second half: clears the flag |
| Notification.Notify.NotifyOne | src/Notify.h:48-53 | sets the flag and wakes the sleeper |
| Ebus.EbusImpl.constructor | src/Ebus.cpp:316-320 | the state in which the thread starts |
| Ebus.EbusImpl.Read | src/Ebus.cpp:463-473 | one byte, logged, or a device exception |
| Ebus.EbusImpl.Write | src/Ebus.cpp:475-483 | one byte sent, or a device exception |
| Ebus.EbusImpl.WriteRead | src/Ebus.cpp:485-493 | a byte sent and its echo read; a difference is no error |
| Ebus.EbusImpl.WriteAll | src/Ebus.cpp:942-944 | the loops that send a stored frame, also from its second byte |
| Ebus.EbusImpl.ReadInto | src/Ebus.cpp:721-743 | the counted read loops, whose bound grows at every EXP |
| Ebus.EbusImpl.Reset | src/Ebus.cpp:495-515 | counters, buffer, and both messages given up; the active one is published and handed back |
| Ebus.EbusImpl.IdleSystem | src/Ebus.cpp:576-598 | the state up to the wait for `open` |
| Ebus.EbusImpl.OpenDevice | src/Ebus.cpp:600-636 | opening the device, which succeeds or throws, and skipping input up to a SYN |
| Ebus.EbusImpl.MonitorBus | src/Ebus.cpp:638-688 | one byte of listening: countdown, decoding, election and claim at a SYN, otherwise one more byte |
| Ebus.EbusImpl.ReceiveMessage | src/Ebus.cpp:690-782 | a message for us or for all: header, counted body, acknowledgement, next state |
| Ebus.EbusImpl.ProcessMessage | src/Ebus.cpp:784-836 | the reaction of the callback and the response built from it |
| Ebus.EbusImpl.SendResponse | src/Ebus.cpp:838-890 | the slave frame sent at most twice, then `reset` |
| Ebus.EbusImpl.LockBus | src/Ebus.cpp:892-930 | arbitration, and the countdown after losing it |
| Ebus.EbusImpl.SendMessage | src/Ebus.cpp:932-998 | the master frame sent at most twice, and where that leads |
| Ebus.EbusImpl.ReceiveResponse | src/Ebus.cpp:1000-1070 | the slave frame received at most twice, each time answered |
| Ebus.EbusImpl.FreeBus | src/Ebus.cpp:1072-1085 | the closing SYN, then `reset` |
| Ebus.EbusImpl.HandleDeviceError | src/Ebus.cpp:1087-1106 | the result of the active message, `reset`, and the device closed after an error |
| Ebus.EbusImpl.RunState | src/Ebus.cpp:517-568 | one iteration of `run` with its exception handlers |
| Ebus.EbusImpl.Submit | src/Ebus.cpp:435-454 | a message is handed over exactly when its frame is accepted and the participant is online; otherwise the queue is unchanged and the error is `EBUS_ERR_SEQUENCE` or `EBUS_ERR_OFFLINE`, never `EBUS_ERR_MASTER` |
| Running.Participant.Step | src/Ebus.cpp:517-598 | the loop with the close flag and the wait in `idleSystem` is the thread's step of the transition system |
| Running.Participant.Open | src/Ebus.cpp:342-345 | `open` is an action of it |
| Running.Participant.Close | src/Ebus.cpp:347-350 | `close` is an action of it |
| Running.Participant.Transmit | src/Ebus.cpp:357-366 | handing over a message is an action of it; the wait and the result follow in `Handshake` |
| Machine.GuardedKeeps | src/Ebus.cpp:517-568 | every state method, exceptions included, keeps the invariant and the order of messages |
| Machine.GoodReady | src/Ebus.cpp:517-568 | wherever a state is entered its method finds the messages and bytes it uses |
| Runs.RunInvariant | src/Ebus.cpp:517-574 | the invariant holds after every interleaving of thread steps, enqueueing, opening and closing |
| Runs.Conservation | src/Ebus.cpp:495-515 | on every run: handed back, active and queued messages, in this order, are the enqueued ones in order |
| Runs.CompletedInOrder | src/NQueue.h:40-56 | on every run the k-th message handed back is the k-th one enqueued |
| Runs.StateInvariant | src/Ebus.cpp:517-574 | on every run: which states imply an active or a passive message, and that the result is 0 until the transfer fails |
| Runs.AccessSpacing | src/Ebus.cpp:646-675 | on every run: the countdown stays in range, and at least the configured number of SYN bytes passes between `reset` and the next claim |
| Runs.CrashExactly | src/Ebus.cpp:706-750 | on every run, for every own address: the thread crashes if and only if, in `receiveMessage`, an oversized length byte arrives while nobody waits or the whole message decodes to less than two bytes |
| Runs.HeaderNeverShort | src/Ebus.cpp:745-750 | the second cause needs the own address EXP, or a SYN as second byte of the message |
| Monitoring.MonitorPublishes | src/Ebus.cpp:638-688 | on every byte stream, in every state of the queue: listening publishes exactly the valid telegrams between SYN bytes, in order, up to the end, or to the SYN at which a waiting message claims the bus, which is the first one that ends its countdown, or to a header for us or for everybody |
| Monitoring.AllPublished | src/Ebus.cpp:638-688 | with nobody waiting and nothing for us: all of them, and what follows the last SYN is kept |
| Monitoring.TelegramsHeard | src/Ebus.cpp:638-688 | valid telegrams in wire form, each followed by SYN, are published exactly once each and in order, as far as listening goes |
| Monitoring.ClaimsExactly | src/Ebus.cpp:646-675 | with a message waiting, on every stream of other telegrams: the bus is claimed at exactly the SYN that ends the countdown, which each SYN lowers by one and a lone byte before it raises to two; and not at all if none does |
| Monitoring.ClaimsInTime | src/Ebus.cpp:646-675 | with a message pending and only SYN arriving, the bus is claimed at exactly the max(1, counter)-th SYN |
| Monitoring.ClaimsAgain | src/Ebus.cpp:909-925 | after a lost arbitration it is claimed again at the next SYN if and only if the winner's address ends with the same four bits, otherwise after a full countdown |
| Monitoring.CollisionDefers | src/Ebus.cpp:664 | a lone byte between SYN bytes keeps the bus free for one more SYN |
| Monitoring.MonitorThread | src/Ebus.cpp:517-574 | the byte-by-byte runs above are runs of the thread |
| Framing.TakesShortest | src/Ebus.cpp:721-743 | a counted loop consumes exactly the shortest prefix with the requested number of units, and nothing beyond |
| Framing.CompleteWithoutSyn | src/Ebus.cpp:721-743 | as many bytes as requested are decoded if and only if no SYN was among them |
| Framing.FrameConsumed | src/Ebus.cpp:1027-1036 | a frame in wire form is consumed to its last byte and what follows is left |
| Framing.AnsweredExactly | src/Ebus.cpp:745-781 | on every stream after an unescaped header: one byte is written to a message for us and none to a broadcast; it is ACK, and the message is passed on, exactly when sender and checksum are right or the checksum is left out because of a single SYN; unless a response is due the frame is then published, as it was received and with no response; of a refused one nothing is kept |
| Framing.AnsweredDecoded | src/Ebus.cpp:745-781 | the same for every header, in terms of the frame that the bytes decode to |
| Framing.CleanFrameAnswered | src/Ebus.cpp:745-765 | a frame in wire form is acknowledged exactly when its sender is a master and its checksum matches |
| Framing.CleanFramePublished | src/Ebus.cpp:768-776 | a frame in wire form that needs no response is published as it is, and passed on |
| Framing.EscapedHeader | src/Ebus.cpp:694-715 | a frame in wire form with an escape in the third or fourth byte: which byte is read as the length, and that a large one ends in a crash or in giving up the waiting message |
| Framing.ShiftedAnswered | src/Ebus.cpp:745-781 | such a message is acknowledged exactly when the byte read as length is one more than the real length and the checksum matches, or equals the real length, with the checksum left out |
| Framing.RebuiltMaster | src/Ebus.cpp:788-789 | the second `createMaster`, on the sequence that the first one changed, rebuilds the same master |
| Framing.UncheckedWithSyn | src/Ebus.cpp:745-765 | a frame whose checksum arrives as SYN is acknowledged unchecked |
| Responses.ResponseBuilt | src/Ebus.cpp:784-836 | the response is due exactly for a master-slave message with an acceptable answer, and consists of the received frame and that answer |
| Responses.ResponseSent | src/Ebus.cpp:838-890 | the response with its checksum is written once, and a second time exactly after a refusal; then message and response are published, and after them a message that was waiting |
| Responses.OpeningNeverGivesUp | src/Ebus.cpp:600-618 | a device that cannot be opened any number of times is tried again, with the counter of attempts at zero |
| Outcomes.ProcessLeaves | src/Ebus.cpp:784-836 | `processMessage` never fails and takes one reaction; without a response due it leaves an empty sequence and everything else as it was |
| Outcomes.RespondsExactly | src/Ebus.cpp:807-820 | it leads to `sendResponse` exactly for an acceptable response to a master-slave message |
| Outcomes.NotPublishedAgain | src/Ebus.cpp:833 | a message without response is not published again by the next SYN |
| Outcomes.PublishedOnce | src/Ebus.cpp:690-836 | a broadcast or master-master frame in wire form is published exactly once until then |
| Outcomes.ListeningStartsEmpty | src/Ebus.cpp:517-568 | on every run: when any other state leads to listening, nothing is left of the bytes it read, after exceptions too |
| Outcomes.FreedBySyn | src/Ebus.cpp:1072-1085 | the bus is freed by one SYN, and the countdown starts again |
| Outcomes.OpensExactly | src/Ebus.cpp:600-636 | a device that opens and delivers a SYN brings the participant online, with everything before that SYN skipped and nothing after it read |
| Outcomes.OpenedHeard | src/Ebus.cpp:622-627 | and only such a device does |
| Outcomes.FailureHandled | src/Ebus.cpp:1087-1106 | in every state: a fault leads to `openDevice` with the device closed, silence to `monitorBus` with the device as it was |
| Outcomes.AsleepIsClosed | src/Ebus.cpp:576-598 | on every run: while the thread sleeps, the device is closed, the participant offline and nothing active |
| Devices.ExecuteUsed | src/Ebus.cpp:517-568 | every state method goes on exactly as long as reads and writes work and ends with an exception at the first that fails: an error after a fault, a warning after a timeout or the end of the input |
| Devices.ErrorsHandled | src/Ebus.cpp:551-560 | and what follows the exception |
| Devices.HeardExactly | src/Ebus.cpp:463-493 | on every run: the rawdata callback sees every byte that comes in, once and in order, and nothing else |
| Transfers.LockClaims | src/Ebus.cpp:892-930 | when `lockBus` succeeds, exactly the source address was written and the same byte was read back |
| Transfers.CorrectExactly | src/Ebus.cpp:1037-1045 | a complete response is acknowledged if and only if its last decoded byte is the checksum of the rest and no SYN was in it, or exactly one SYN was in it and it announces data; and what of it is stored |
| Transfers.UncheckedResponse | src/Ebus.cpp:1037-1045 | any data byte followed by SYN in place of the checksum is such a response |
| Transfers.SendLeads | src/Ebus.cpp:932-998 | `sendMessage` ends with a transfer that is complete, or acknowledged and waiting for its response |
| Transfers.ListenLeads | src/Ebus.cpp:1000-1070 | `receiveResponse` ends with a complete transfer |
| Results.TransferResult | src/Ebus.cpp:1072-1085 | on every run: when the bus is freed, everything heard and written since the claim is a transfer with at most two copies of the frame and two responses, and the result is 0 if and only if it was a broadcast, or was acknowledged and, if a response was due, the last one is correct in the sense of `Transfers.CorrectExactly`; otherwise a failed transmission |
| Results.HandedBackBy | src/Ebus.cpp:495-515 | on every run: a step hands back at most the active message, which is published as the last thing; with a device error after an exception, with the result it had in `idleSystem`, `sendResponse` and `freeBus`, and as a failed transmission elsewhere |
| Results.ResultNumbers | src/Ebus.cpp:454-457 | on every run the results handed back are 0, -3 for a failed transmission and -4 for a device error |
| Results.CrashedByLength | src/Ebus.cpp:681-715 | on every run, for every own address but EXP: the thread crashes if and only if an oversized length byte arrives while nobody waits |
| Results.ExecuteEffect | src/Ebus.cpp:517-574 | the transitions between the ten states, in which no state leads to `idleSystem`, what is handed back, and when the participant is online |
| Results.WaitingMessageReportedSent | src/Ebus.cpp:887 | `sendResponse` reports a waiting message as sent and publishes it |
| Results.ReportedButNeverSent | src/Ebus.cpp:576-598 | for every acceptable message there is a run that reports it as sent without writing a byte |
| Delivery.ExchangeUnique | src/Ebus.cpp:892-1070 | the log since the claim can be read as a transfer in at most one way |
| Delivery.SentExactly | src/Ebus.cpp:892-1085 | on every run: the log shows a successful transfer of the active message if and only if the bus is about to be freed and its result is still 0 |
| Delivery.ClosingHandsBack | src/Ebus.cpp:570-593 | on every run, in every state: a close request hands back the active message as it is and writes nothing; with result 0 in every state but `FreeBus`, where the transfer is complete |
| Delivery.ZeroExactly | src/Ebus.cpp:495-515 | on every run: exactly when a turn hands back a message with 0, and that it was sent if and only if that was in `FreeBus` |
| Online.OnlineExactly | src/Ebus.cpp:592 | on every run: online if and only if an `openDevice` was completed after the last `idleSystem` |
| Online.SilentDeviceStaysOffline | src/Ebus.cpp:622-629 | a timeout while the input is skipped leads to `monitorBus` without becoming online |
| Online.ClosesInTime | src/Ebus.cpp:570 | a close request leads to `idleSystem` right after the state method that is running |
| Online.ReachesOpenDevice | src/Ebus.cpp:576-598 | a closed participant that falls asleep reaches `openDevice` after it is opened, with the close request forgotten, whatever is enqueued meanwhile |
| Online.OnlineAgain | src/Ebus.cpp:576-636 | and is online again on a device that opens and delivers a SYN |
| Online.AwakeReopens | src/Ebus.cpp:576-598 | one that does not fall asleep opens the device at once |
| Agreement.PlainIsExact | src/Ebus.cpp:940-947 | a stored frame and checksum without SYN and EXP are in wire form |
| Agreement.WireExactExactly | src/Ebus.cpp:357-366 | what is handed to `transmit` is sent in wire form if and only if its checksum is neither SYN nor EXP and an unsealed frame contains neither |
| Agreement.BroadcastParsed | src/Telegram.cpp:46-138 | `parse` reads the bytes of a sent broadcast correctly if and only if it was stored in wire form; no participant applies it to them |
| Agreement.SenderAndListenerAgree | src/Ebus.cpp:892-1070 | on every run, after a successful transfer to one participant with responses without SYN: stored in wire form, a third participant has the telegram, with the sender's frames and checksums, if and only if no response was repeated, and nothing valid otherwise; with nothing repeated, it has the telegram if and only if the frame was stored in wire form |
| Agreement.ZeroIsSuccess | src/Ebus.cpp:1072-1085 | every transfer about to be freed with result 0 and unchanged echoes is such a success |
| Agreement.ListenerPublishes | src/Ebus.cpp:638-688 | another participant that hears the bytes of such a master-master or master-slave transfer publishes exactly the sender's telegram |
| Receiving.RawDecoded | src/Sequence.cpp:113-143 | bytes that were not encoded decode to themselves if and only if they contain neither SYN nor EXP, and to all but the last if and only if the single one among them mends itself |
| Receiving.FrameTaken | src/Ebus.cpp:690-782 | every stored frame, sent as it is and followed by enough SYN bytes: each participant for a broadcast, the addressed one otherwise, passes it on as the frame that was meant if and only if it is audible; on every other frame it gives up, or acts on another one |
| Receiving.FrameStarves | src/Ebus.cpp:717-743 | with fewer bytes after it, receiving it ends with an exception |
| Receiving.AudibleExactly | src/Ebus.cpp:357-366 | what audible means for the bytes handed to `transmit`: unsealed, without checksum or with, with a plain or an escaped header |
| Receiving.SenderAndReceiverAgree | src/Ebus.cpp:638-998 | on every run, after a successful transfer: a listening participant that the frame is for takes it for the sender's frame if and only if it is audible |
| Receiving.ResponseTaken | src/Ebus.cpp:1000-1070 | every stored response, sent as it is and followed by enough SYN bytes: the asker acknowledges it and stores the frame that was meant if and only if it is audible |
| Receiving.ResponseStarves | src/Ebus.cpp:1027-1036 | without enough bytes after it, receiving it ends with an exception |
| Receiving.ResponseAudibleExactly | src/Telegram.cpp:308-356 | what that means for the data that the callback supplies |
| Receiving.AskerAndAnswererAgree | src/Ebus.cpp:690-1070 | two participants of this kind: the answer is built for the asker's frame if and only if that is audible, and stored as it was meant if and only if it is |
| Handshake.MovesSane | src/Notify.h:37-53 | in every interleaving the latch of a message agrees with whether it was handed back |
| Handshake.BlockedIsPending | src/Ebus.cpp:453-457 | a sleeping caller's message is still active or queued and not yet signalled |
| Handshake.NoLostWakeUp | src/Notify.h:37-53 | once its message was handed back a caller needs only its own steps to get the result, whether the signal came before or after `wait` began |
| Handshake.FetchedIsFinal | src/Ebus.cpp:453-457 | a caller passes `wait` only after its message was handed back, and reads the final result |
| Handshake.BellBeforeWait | src/Notify.h:37-53 | a signal before `wait` lets this and every later `wait` pass |
| Handshake.BellDuringWait | src/Notify.h:37-53 | a signal that ends a sleep is used up, so a second `wait` sleeps |
| Handshake.BellAfterWait | src/Notify.h:37-53 | a signal after it is kept for the next one, and several count as one |
| Handshake.StuckExactly | src/Notify.h:37-46 | the flag is set while the thread is awake if and only if the participant was opened while it was not asleep; then it stays set for good |
| Handshake.SleepsExactly | src/Ebus.cpp:595 | `idleSystem` puts the thread to sleep if and only if that never happened |
| Handshake.QueuedWhileAsleep | src/Ebus.cpp:576-598 | a message still queued when the thread sleeps is neither handed back nor signalled before the participant is opened again |
| Cooperation.EveryTransferHappens | src/Ebus.cpp:892-1085 | for every accepted message and every exchange within the rules there is a run in which exactly that exchange is on the bus and the message is handed back with the result it deserves |
| Cooperation.EveryMessageCanBeSent | src/Ebus.cpp:435-461 | for every accepted message there is a run in which it is sent and handed back with 0 |
| Witnesses.CrashHappens | src/Ebus.cpp:706-715 | five bytes crash a participant, whatever its address |
| Witnesses.ShortCrashHappens | src/Ebus.cpp:745-750 | a run in which six bytes crash a participant with the address EXP by decoding to one |
| Witnesses.WaitingMessageLost | src/Ebus.cpp:838-890 | for every accepted message there is a run in which `sendResponse` hands it back with 0 although it was not sent |
| Witnesses.SecondTryHappens | src/Ebus.cpp:1008-1070 | a run with result 0 after a repeated response, which no listener finds valid |
| Witnesses.MessageLost | test/test_telegram.cpp:56 | such a run for the message of the test program |
| Witnesses.BroadcastHappens | src/Ebus.cpp:940-954 | for every accepted broadcast a run with result 0; every participant that hears it gets it if it is audible, and none otherwise |
| Witnesses.ThreeBroadcasts | src/Ebus.cpp:357-366 | none of ff fe 05 07 01 aa, ff fe 05 77 01 aa and ff fe 05 07 01 4f aa is stored in wire form; the second and third are audible, the first is not |
| Witnesses.SynBroadcastDistorted | src/Ebus.cpp:690-782 | every participant that hears the first receives ff fe 05 07 01 a9 instead |
| Witnesses.AcceptedResponseHappens | src/Ebus.cpp:1000-1070 | a run with result 0 for every complete response within the rules, which stores what it decodes to |
| Witnesses.ResponseDistorted | test/test_telegram.cpp:63 | the response of the test program is accepted, goes out as 03 b0 fb aa d0, and decodes to 03 b0 fb a9 |
| Witnesses.ResponseCorrupted | src/Ebus.cpp:845-854 | a run with result 0 that stores 03 b0 fb a9 for it |
| Witnesses.UncheckedHappens | src/Ebus.cpp:1008-1070 | a run with result 0 for a response whose checksum was never compared |
| Witnesses.MessageChecksum | test/test_telegram.cpp:56 | the checksum of the message in the test program is the one given there |

## Left out

- The serial device itself (src/Device.cpp): ports, polling and file descriptors. A script of outcomes stands for it.
- Time: sleeps, the access timeout and read timeouts. A timeout is one of the outcomes of a read.
- Logging, error texts, hexadecimal conversion, `range`, and the forwarding class `Ebus`.
- The bodies of the callbacks, and what `process` is given: reactions are a script, so a reaction may depend on anything.
- Setters: the two counter limits are constants of a run, with any value in the transition system and the defaults in the class.
- The telegram of a message is a value that the message owns. In the source it is a reference to the caller's object, so
  lifetimes and the response that `transmit` copies out afterwards are not modelled.
- Shutting down: the destructor drops the messages that are still queued.
- Ebus.EbusImpl.IdleSystem: ends before the wait, which `Running.Participant.Step` adds as a step of its own.
- Queue.NQueue.Dequeue: the wait on an empty queue is left out; the only caller has checked the size, and nobody else removes.
- Granularity: callers interleave with whole state methods. A message enqueued during a state method counts as enqueued
  before or after it, and only `monitorBus` looks at the queue, once.
- Spurious wake-ups of condition variables: `wait` would return early on them.
- Several participants competing for the bus: only the byte read back in `lockBus` is modelled.
- Running.Participant.Step: requires what a state method takes for granted; `Machine.GoodReady` shows that every run provides it.
- `openDevice` flushes until a SYN; a stream without SYN ends with the exception at the end of the script.
- Agreement.SenderAndListenerAgree: says nothing of a frame that is not in wire form when its first copy was refused or the
  response repeated; the repetitions of a frame that comes out too short could spell it by accident.
- Running.Participant.Transmit: ends where the caller starts to wait. The wait and the fetched result are in `Handshake`;
  the response is not copied out.
- The limit of attempts to open the device is kept as a constant of a run, but nothing depends on it.
