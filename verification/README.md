# Verified model of a DTLS 1.3 stack

This project models the reliability and record-protection machinery of a Go implementation of DTLS 1.3 (RFC 9147) in
Dafny and proves what it keeps over whole runs: a network that loses, duplicates and reorders, acknowledgements that
arrive late, keys that rotate, buffers that are reused in place.

Every mutex-held method of the source is one atomic step. Code that changes fields or buffers step by step is a class
or a method with loops, proved equal to a function on values; the theorems over runs are about those functions. Hashes,
MACs, AEADs, the sequence mask, random bytes and the clock are parameters: the AEAD is only assumed to open what it
sealed, the hash and the MAC only to return results of their length.

| area | files |
|---|---|
| KeyUpdate and epochs | `SendingTraffic`, `ReceivingTraffic`, `ReceivingObject`, `EpochSets`, `KeyUpdateRun`, `SealedNonces`, `CidUpdates` |
| Handshake reliability | `Fragments`, `Bits`, `Bitmaps`, `Reassembly`, `ReassemblyObject`, `Inbox`, `Delivery`, `FullDelivery`, `SmoothDelivery`, `Flights`, `FlightRun`, `FlightProgress`, `FlightCopies`, `FlightWindow`, `Acks`, `AckRecords` |
| Record layer | `RecordCipher`, `RecordRoundTrip`, `RecordFormat`, `CipherObject`, `SequenceNumbers`, `Replay`, `ConnectionIds`, `RecordNumbers` |
| Indexes and state machines | `Routes`, `Listener`, `PathValidation`, `Amplification`, `ReplayCache`, `Cookies` |
| Key schedule and exporter | `Hkdf`, `KeySchedule`, `KeyLabels` |
| Session tickets | `WireCodec`, `Tickets`, `EndlessTickets`, `TicketFormat`, `TicketObject` |
| Shared vocabulary | `Wire` |

## Conditions under which the properties hold

- A run delivers a prefix of the handshake messages exactly when it hands out no more messages than were sent. It can
  hand out more only when the list fills all 65536 numbers from 0: the 16-bit counter of the receiver then comes back to
  0 after the last message, and the list starts over (`Delivery.DeliversAPrefix`, `Delivery.FullWrapRepeatsAMessage`).
- A fragment that brings the last missing bytes of a message and then contradicts a later byte fails, and leaves the
  full message in the reassembler. `Reassembly.AddHoldsOnlyIncomplete` gives the exact condition.
- Reconstruction of a truncated sequence number is exact on one half-open half window, and on more where the ends of the
  48-bit space cut that window (`SequenceNumbers.ReconstructExactly`).
- A cookie is honoured for half a lifetime counted from the first clock reading of the sealing call, or for anything
  less than half a lifetime counted from the last one. The exact deadline depends on the previous rotation
  (`Cookies.HonouredBeforeDeadline`, `Cookies.LostAfterDeadline`).
- Parsing a ticket does not end when the vector of verified chains stops inside an entry: the parser latches its error
  without moving, and the loop waits for it to move. `EndlessTickets.EndlessTicketExists` gives such a ticket and
  `EndlessTickets.ParseIsEndlessExactly` all of them. Marshalling never produces one. The model returns the outcome
  `Endless` there.
- The bytes of an unfinished write are not counted against the budget of a candidate path, and an answer to a challenge
  that is written in part leaves the check running. The bound of three times the received bytes holds of finished writes
  always, and of all bytes as long as no such answer was written in part during the check. Otherwise there is no bound
  (`PathValidation.CandidateIsNeverAmplified`, `PathValidation.CutAnswersAmplify`).
- A timer of an older generation is ignored because the generation differs, which needs fewer than 2^64 generations in
  between (`PathValidation.OlderTimersChangeNothing`).
- The replay cache reads the clock before it takes its lock, so readings may go back between callers. An identity can
  then be admitted again before its expiry, exactly when a call in between read the expiry or later and there is room
  (`ReplayCache.ReadingsMayGoBack`, `ReplayCache.AdmittedAgainExactly`). `ReplayCache.AdmissionUnderAnyClock` says what
  is admitted whatever the readings are.

## Model

| member | source | states |
|---|---|---|
| `KeyUpdateRun.EpochsMoveInLockstep` | traffic_update.go:85-345 | in every run with loss, duplication and reordering of KeyUpdates and ACKs, the receiver is at the sender's epoch, or one ahead and then only while an update is pending; every cipher the sender holds, current, pending or retired, whose epoch the receiver has installed carries the receiver's secret for it, the iterate of the update function, and its header bits select only that epoch |
| `KeyUpdateRun.NumbersAreNeverReused` | traffic_update.go:32-149 | over every run no (epoch, sequence) pair is sealed twice, retired ciphers of retransmitting flights included; sequences stay below 2^48 and the AEAD limit; no two committed messages share a message_seq up to and including 65535 |
| `KeyUpdateRun.AckMeansProcessed` | conn_dispatch.go:96-125 | an ACK that promotes the pending cipher names a record the receiver processed, so the receiver is already one epoch ahead |
| `KeyUpdateRun.DeliveryCompletes` | traffic_update.go:150-162 | from any reachable state any transmission of the pending update that arrives, first or repeated, and its ACK, complete the update: the sender moves to the next epoch and the derived secret, where the receiver already is |
| `KeyUpdateRun.BegunUpdateCompletes` | traffic_update.go:85-134 | a sender with no update pending, numbers left and a next epoch can begin one; the record asks for what was requested, and its arrival and ACK complete the update |
| `KeyUpdateRun.ResentUpdateCompletes` | traffic_update.go:135-149 | a pending update can be sent again with the same content, and the ACK of that transmission completes it too |
| `KeyUpdateRun.RequestArrives` | traffic_update.go:294-303 | the first transmission that arrives is processed with the requested answer bit, and later ones are ignored with the same bit |
| `KeyUpdateRun.RememberedKeeps` | post_handshake.go:173-195 | every step keeps all transmissions of the pending update on record, with its message number and request |
| `KeyUpdateRun.StepKeeps` | conn_dispatch.go:318-359 | every step of both sides and of the network keeps agreement of all secrets, those of retired ciphers included, lockstep, honest ACKs, number bounds and the record of all transmissions |
| `SealedNonces.NoncesNeverRepeat` | protected_record.go:188-195 | over every run no two records of one epoch are sealed under the same nonce |
| `SealedNonces.SealingTakesTheNumber` | protected_record.go:226-240 | the record cipher takes and refuses numbers exactly as the cipher of the key update model does, and takes none on any failure |
| `SendingTraffic.SendingState.Begin` | traffic_update.go:85-134 | the fields after starting an update are those of the specified step; a refused start changes nothing |
| `SendingTraffic.SendingState.Prepare` | traffic_update.go:109-134 | the pending update holds the number it was sent under and a cipher for the next epoch derived from the current secret |
| `SendingTraffic.SendingState.DeriveNext` | traffic_update.go:118-121 | the derived secret is the update of the current one, in a reused or fresh buffer distinct from it |
| `SendingTraffic.SendingState.Retransmit` | traffic_update.go:135-149 | a retransmission takes a new number under the old cipher and remembers it; a refused one changes nothing |
| `SendingTraffic.SendingState.ApplyACK` | traffic_update.go:150-162 | an ACK of any transmission of the update promotes the pending cipher and secret although the two buffers are swapped and the old one is zeroed; any other ACK changes nothing |
| `SendingTraffic.SendingState.Commit` | traffic_update.go:42-49 | committed message numbers advance the counter, and the last 16-bit number is used once and then marks exhaustion |
| `SendingTraffic.CommittedNumbersAreSpent` | traffic_update.go:32-49 | exactly 65536 message numbers can be allocated, however they are grouped |
| `SendingTraffic.TxCipherState.Seal` | protected_record.go:226-240 | a number is taken exactly when the epoch, the 48-bit space and the AEAD limit allow one |
| `ReceivingTraffic.KeyUpdateMeaning` | traffic_update.go:294-345 | on a coherent connection a KeyUpdate is refused only for a malformed body, ignored only when it is not newer than the last one, and otherwise moves to the next epoch |
| `ReceivingTraffic.KeyUpdateBodies` | post_handshake.go:155-163 | the two accepted bodies and what each asks for |
| `ReceivingTraffic.KeyUpdateKeepsCoherence` | traffic_update.go:294-345 | the installed epochs, their secrets and their accepted IDs stay coherent through every KeyUpdate |
| `ReceivingTraffic.AddThenRestore` | traffic_update.go:252-285 | IDs can be added exactly when the union is prefix-free, every installed cipher then accepts the new list, and restoring the old list undoes the addition completely |
| `ReceivingTraffic.AppendMissingIsMerge` | traffic_update.go:263-274 | appending the missing IDs gives the same list, in the same order, as merging them |
| `ReceivingTraffic.InitialIsCoherent` | conn.go:1418-1464 | the traffic state installed at the end of a handshake is coherent |
| `ReceivingObject.ReceivingState.ProcessUpdate` | traffic_update.go:294-345 | the fields after a KeyUpdate are those of the specified step, whatever the outcome; the arrays of retired secrets are zeroed and no retained one is touched, although the current secret is held twice |
| `ReceivingObject.ReceivingState.AddIDs` | traffic_update.go:252-276 | adding IDs cipher by cipher with an early exit is all-or-nothing |
| `ReceivingObject.ExtendCiphers` | traffic_update.go:256-262 | extending the installed ciphers in any order extends all of them, or none when the union is not prefix-free |
| `ReceivingObject.AppendIDs` | traffic_update.go:263-274 | the loop that appends unknown IDs computes the specified list |
| `ReceivingObject.ForgetSecrets` | traffic_update.go:330-341 | exactly the secrets of retained epochs survive with their contents, and every dropped one is zeroed |
| `ReceivingObject.RenewSecrets` | traffic_update.go:327-341 | the new secret is held beside the previous one, and no two epochs share an array |
| `EpochSets.UpdatesInstall` | epoch.go:18-41 | from the installed epochs {2, 3} any number of updates succeeds and leaves a known set of installed epochs |
| `EpochSets.InstalledAreDistinct` | epoch.go:104-112 | installed epochs are at most the current one, include it and its predecessor, and differ in their low two bits |
| `EpochSets.SelectionIsUnambiguous` | epoch.go:48-67 | after any number of updates, the selection by two header bits returns the one installed epoch that matches |
| `EpochSets.AdvanceInstalls` | traffic_update.go:318-341 | one update installs the new epoch, retires what is too old and changes no other cipher |
| `EpochSets.EpochSet.SelectCipher` | epoch.go:48-67 | the search returns the current epoch if its bits match, otherwise the newest older one that does, otherwise nothing |
| `EpochSets.EpochSet.InstallCipher` | epoch.go:18-29 | installation happens exactly when the specification allows it and otherwise changes nothing |
| `EpochSets.EpochSet.MoveTo` | epoch.go:30-41 | the current epoch moves exactly when the specification allows it and otherwise nothing changes |
| `EpochSets.EpochSet.Discard` | epoch.go:104-112 | the loop drops exactly the epochs older than the retained range |
| `CidUpdates.AdvertiseIsAtomic` | connection_id.go:101-180 | an advertisement succeeds exactly when it merges, fits the bound, is registered and is written; every failure after the IDs were added is rolled back to the state before |
| `CidUpdates.EpochsAcceptOneList` | connection_id.go:132-174 | over any run of advertisements and KeyUpdates every installed epoch accepts exactly the connection's prefix-free list, within its bound |
| `CidUpdates.ProcessNewHolds` | connection_id.go:284-329 | whatever the peer advertises, the active ID and the spares stay distinct, prefix-free and within the bound |
| `CidUpdates.SparesAreComplete` | connection_id.go:307-315 | while there is room, every advertised ID other than the active one becomes a spare |
| `CidUpdates.NewIdsExactly` | connection_id.go:284-329 | a newer NewConnectionId is an error exactly when its IDs clash with those held; an immediate one makes its first ID active and gives up the old; no other spare is lost, and what is advertised is held while there is room |
| `CidUpdates.SwitchTakesTheNext` | connection_id.go:255-267 | a switch gives up the active ID for the first spare, in order |
| `CidUpdates.ValidatedTakesTheProbe` | return_routability.go:191-213 | a validated path takes the ID it was probed with if that is still a spare, and gives up the active one |
| `CidUpdates.PeerIdsStayWellHeld` | connection_id.go:255-329 | over any run of advertisements, switches and validated paths the peer's IDs stay well held |
| `CidUpdates.PeerIdState.ProcessNewConnectionID` | connection_id.go:284-329 | the fields after a NewConnectionId are those of the specified step; a refused one changes nothing |
| `CidUpdates.RemoveSpare` | connection_id.go:317-323 | removal of a spare in the list keeps the others in order |
| `Delivery.DeliversAPrefix` | handshake_inbox.go:92-138 | fragments of the sent messages cut at any sizes, arriving in any order with repeats and omissions: a run that is not rejected delivers them in order with identical bodies, and a prefix, each once, exactly when it hands out no more messages than were sent; only a list of all 65536 numbers can exceed that, and then it starts over |
| `Delivery.FullWrapRepeatsAMessage` | handshake_inbox.go:120-136 | after all 65536 messages from number 0 were delivered, a late copy of the first one is delivered again, for every such list of messages that fits the limits |
| `Delivery.FullWrapExists` | handshake_inbox.go:120-136 | such a list exists for any limits that admit one message |
| `Delivery.InOrderIsDelivered` | handshake_inbox.go:92-138 | messages that arrive whole and in order are all delivered |
| `Delivery.FragmentsAreGenuine` | flight.go:434-451 | what the fragmentation produces at any size is a genuine part of the message |
| `FullDelivery.EverythingIsDelivered` | handshake_inbox.go:92-138 | when every byte of every message has arrived, in any pieces and order, and no fragment was rejected, every message has been delivered, and nothing else unless the numbers started over |
| `FullDelivery.FragmentsArrive` | flight.go:434-451 | a message has arrived once all fragments it was cut into, at any size, have |
| `SmoothDelivery.NothingIsRejected` | handshake_inbox.go:92-138 | genuine fragments of messages that fit the limits together, each message under one epoch, are never rejected, in any order, pieces and number of repeats |
| `SmoothDelivery.ArrivedIsDelivered` | handshake_inbox.go:92-138 | so once every byte has arrived, every message has been delivered |
| `SmoothDelivery.NothingIsLeft` | handshake_inbox.go:92-112 | short of the end of the number space, fragments of delivered messages change nothing, and after the last message the inbox is empty |
| `InOrderInbox.ReceiveKeepsAccounts` | handshake_inbox.go:92-138 | the byte accounts of ready and incomplete messages stay exact and every limit holds after each fragment, accepted or not |
| `InOrderInbox.HandshakeInbox.ReceiveFragment` | handshake_inbox.go:92-138 | the fields, the buffers of the reassembler and the batch after a fragment are those of the specified step; a rejected fragment leaves the batch |
| `InOrderInbox.HandshakeInbox.TakeMessage` | handshake_inbox.go:113-138 | a message ahead of its turn is kept, the awaited one is delivered with every ready successor, and the limits are checked first |
| `Reassembly.FillMeaning` | handshake.go:212-233 | filling succeeds exactly when the overlap agrees, then writes exactly the fragment, and never changes a received byte |
| `Reassembly.CoveredIsFull` | handshake.go:234-240 | the count of covered bytes reaches the length exactly when every byte is covered |
| `Reassembly.AddKeepsAccount` | handshake.go:168-242 | the reserved bytes equal the sum of the lengths of incomplete messages and all limits hold, whatever arrives |
| `Reassembly.AddHoldsOnlyIncomplete` | handshake.go:212-241 | after a call no complete message is held back, except exactly when the fragment brings the last missing bytes before one that contradicts |
| `Reassembly.AddExactly` | handshake.go:168-242 | a call fails exactly for an unacceptable fragment or one that contradicts a known byte, completes exactly when every byte is then known, with exactly those bytes, and otherwise holds them under the same type and protection |
| `Reassembly.FailureMayHoldFullMessage` | handshake.go:219-232 | a concrete fragment for which a failing call leaves a full message |
| `Reassembly.AddedPartsComplete` | handshake.go:168-242 | parts of one message complete it only as itself and leave every other message alone |
| `ReassemblyObject.PartialMessage.AddBytes` | handshake.go:212-233 | the word-mask path and the per-byte path on arrays both compute the byte-by-byte fill |
| `ReassemblyObject.PartialMessage.AddFresh` | handshake.go:214-217 | copying a range of which no byte was received, with one bitmap update, is the byte-by-byte fill |
| `ReassemblyObject.PartialMessage.AddOverlapping` | handshake.go:218-233 | the overlap loop stops at the first differing byte and has stored what came before it |
| `ReassemblyObject.Reassembler.AddFragment` | handshake.go:168-242 | the store of messages, each with its own buffer and bitmap, stands after a fragment for the specified store, and the outcome is the specified one |
| `ReassemblyObject.Reassembler.AddToExisting` | handshake.go:192-241 | a fragment for a held message is checked, filled into its arrays and completes it exactly as specified |
| `ReassemblyObject.Reassembler.Insert` | handshake.go:188-190 | a new message gets buffers that no other message uses |
| `ReassemblyObject.Reassembler.Finish` | handshake.go:234-241 | a message is handed out and released exactly when the count of received bytes reaches its length, and the buffer is then its body |
| `ReassemblyObject.AddBytesAt` | handshake.go:212-233 | bytes added to one message change no other message |
| `Bitmaps.RangeClear` | handshake.go:112-126 | the word-by-word test says whether no bit of the range is set |
| `Bitmaps.SetRange` | handshake.go:128-139 | the word-by-word update sets exactly the bits of the range |
| `Bitmaps.BitOfRangeMask` | handshake.go:112-139 | the mask for the part of a range in one word has exactly the bits of that part |
| `Fragments.CutsAddUp` | flight.go:414-451 | fragments at any size fit it, are parts of the message, concatenate to its body and number what the builder counts beforehand |
| `Fragments.EveryByteIsCarried` | flight.go:434-451 | every byte of the body lies in some fragment |
| `Fragments.FragmentMessage` | flight.go:434-451 | the loop computes the specified fragments, one empty fragment for an empty body |
| `Fragments.ParsePutAll` | handshake.go:15-87 | any run of valid fragments parses back to itself |
| `Fragments.PutAllParse` | handshake.go:63-87 | accepted bytes are exactly the encoding of what was parsed |
| `Fragments.ParseFragments` | handshake.go:63-87 | the parsing loop computes the specified result, errors included |
| `Fragments.FragmentLayout` | handshake.go:42-49 | type, length, message number, offset, fragment length and body lie at their places in the header |
| `FlightRun.CompletionIsSound` | flight.go:453-502 | if ACKs name only received records, a complete flight means the peer received every byte of every message, through any mix of ACKs, retransmissions, combined flights and refragmentation |
| `FlightRun.NumbersBelongToOneRecord` | flight.go:25-53 | in every reachable state a record number belongs to at most one record, and was issued for the fragment of that record |
| `FlightRun.StaleAcksMatchNothing` | flight.go:154-205 | after refragmentation, and after any further sends, retransmissions, ACKs and refragmentations, an ACK of anything sent before it acknowledges nothing |
| `FlightProgress.EveryTransmissionCounts` | flight.go:34-53 | in every run, for every number issued since the last refragmentation, first transmission or repeat: once received, its ACK acknowledges the one record whose fragment it carried and changes no other |
| `FlightProgress.EveryFirstTransmissionCounts` | flight.go:34-53 | the same from the first transmission on |
| `FlightProgress.AnsweredIsAcknowledged` | flight.go:453-467 | an honest ACK of any number a record was ever sent under acknowledges it for good, however many steps lie between |
| `FlightProgress.AnsweredFlightIsComplete` | flight.go:493-502 | when each record was so acknowledged, under whichever of its numbers, the flight is complete |
| `FlightProgress.PendingIsResent` | flight.go:479-492 | a retransmission gives every pending record of both parts a number never used before, in order, and leaves acknowledged ones alone |
| `FlightProgress.SendsFromTheFront` | flight.go:516-551 | no record is sent while an earlier one is unsent, unless the window is used up |
| `FlightProgress.FragmentsCarryTheMessages` | flight.go:414-451 | the bodies of all fragments of a flight, put together, are those of its messages |
| `FlightProgress.FragmentSizeIsLargest` | flight.go:209-357 | the fragment size is the largest that fits the MTU and the content limit |
| `FlightRun.RecordsFit` | flight.go:209-357 | no built record exceeds the MTU or the content limit |
| `FlightRun.StepKeeps` | flight.go:371-405 | every step on a combined flight keeps numbers disjoint, issued for their own fragment, and acknowledged only if received |
| `FlightCopies.CopiesStayInStep` | flight.go:371-405 | over every run the combined flight, which has its own copy of the records and synchronises the two parts only when it is rebuilt, holds what one shared copy would |
| `FlightCopies.CombineStands` | flight.go:359-373 | two flights that have just been combined are in step |
| `FlightWindow.AtMostTenOutstanding` | flight.go:516-551 | over every run a flight with protected records has at most ten records sent and unacknowledged |
| `Flights.WindowIsTen` | flight.go:516-551 | a send fills the window of ten and stops short of it only when nothing unsent is left |
| `Flights.ReplaceKeepsNumbers` | flight.go:25-42 | a retransmission adds one number to a record and forgets none |
| `Flights.Flight.ApplyACK` | flight.go:453-467 | exactly the records one of whose numbers, current or earlier, is named become acknowledged, and the count tells whether any did |
| `Flights.Flight.RefreshPending` | flight.go:479-492 | unacknowledged records take consecutive fresh numbers in order; acknowledged ones are left |
| `Flights.Flight.IsComplete` | flight.go:493-502 | complete means every record is acknowledged |
| `Flights.Flight.NextUnsent` | flight.go:516-551 | the records marked as sent are the first unsent ones, within the window |
| `Acks.CanonicalNumbers` | ack.go:46-74 | the result is strictly increasing with the same elements, and an increasing list comes back unchanged |
| `Acks.CanonicalIsUnique` | ack.go:46-74 | there is one canonical list with given elements |
| `Acks.ParseMarshal` | ack.go:20-44 | a canonical list of at most 4095 numbers parses back to itself |
| `Acks.MarshalParse` | ack.go:155-180 | accepted bytes are the one encoding of a canonical list |
| `Acks.AckLayout` | ack.go:20-44 | the list length, then 8 bytes of epoch and 8 of sequence number for each record, lie at their places |
| `Acks.MaxEntriesIsLargest` | ack.go:82-96 | the entry limit is the largest count that fits the MTU and the content limit, and is below one exactly when one entry does not fit |
| `Acks.BuildRecords` | ack.go:80-136 | the records carry the acknowledged numbers in order, once each, all but the last full, each within the MTU, under consecutive sequence numbers; an empty list gives one empty ACK; the oversize error never occurs, the MTU error occurs exactly when one entry has no room, and any other failure means numbers ran out |
| `Acks.Divide` | ack.go:113-135 | the cutting loop partitions the list and fails only when numbers run out |
| `AckRecords.AcksArrive` | ack.go:113-135 | every protected record of a batch of ACKs has the stated length within the MTU, and a receiver that finds its number reachable and fresh reads exactly the numbers the record was built for |
| `RecordRoundTrip.RoundTrip` | protected_record.go:226-430 | every record that can be sealed, with any CID of a prefix-free accepted set, either sequence form and trailing coalesced bytes, opens to the same content and type and is consumed exactly, when its number is reachable and fresh |
| `RecordRoundTrip.OpensNeverRepeat` | protected_record.go:320-430 | whatever datagrams arrive, one cipher never returns the same number twice |
| `RecordRoundTrip.OpenStep` | protected_record.go:383-422 | a failing open leaves the replay window; a successful one accepts a number that passed the check |
| `RecordRoundTrip.OpensTrack` | protected_record.go:418-422 | over any run the replay window is the bitmap of the numbers returned so far |
| `RecordFormat.SealedLayout` | protected_record.go:226-301 | a sealed record, byte by byte: flags, connection ID, the low bytes of the number under the mask of the first 16 ciphertext bytes, the length, and the ciphertext of content and type under the unmasked header |
| `RecordFormat.SealsExactly` | protected_record.go:226-301 | a record is sealed, and a number taken, exactly within the stated bounds on epoch, number, type and length |
| `RecordFormat.LocatesExactly` | protected_record.go:320-382 | a record is found exactly where flags, accepted connection ID, length and remaining bytes fit |
| `RecordFormat.OpensExactly` | protected_record.go:383-430 | a found record opens exactly when it decrypts under the nonce of its number, holds a padded content within the limits, and is fresh |
| `RecordFormat.OpensPaddedContent` | protected_record.go:401-417 | an authentic plaintext is a content exactly when it is that content, an allowed type and zeros, within the limits |
| `RecordFormat.FailuresAreCounted` | protected_record.go:391-400 | each failure to authenticate is counted once, and the limit is told apart exactly when it is reached |
| `RecordCipher.NonceBytes` | protected_record.go:188-195 | the nonce is the IV with byte i of the number, from the least significant, folded into byte i from the end, and nothing else |
| `RecordCipher.MaskBytes` | protected_record.go:292-298 | the first mask byte changes the first sequence byte, the second the second, and no other byte changes |
| `RecordCipher.NoncesDiffer` | protected_record.go:188-195 | two sequence numbers never give the same nonce under one IV |
| `CipherObject.CipherState.SealInto` | protected_record.go:226-301 | sealing in one buffer, ciphertext over plaintext and mask over header, computes the specified record and takes the next number only on success |
| `CipherObject.CipherState.OpenRecord` | protected_record.go:320-430 | in-place and copying opens have the same outcome and state; the copying one leaves the datagram, the in-place one leaves everything after the record |
| `CipherObject.NonceInto` | protected_record.go:188-195 | the loop over the last eight bytes computes the nonce whose bytes `RecordCipher.NonceBytes` gives |
| `SequenceNumbers.ReconstructExactly` | protected_record.go:440-451 | the nearest-value reconstruction returns the number sent if and only if it is reachable from the expected one |
| `Replay.WindowRefinesSet` | replay.go:13-48 | over any run of opens the bitmap accepts exactly what the set of accepted numbers would |
| `Replay.NeverAcceptedTwice` | replay.go:13-48 | no number is accepted twice |
| `Replay.UnseenNumbersStayAcceptable` | replay.go:19-25 | an unaccepted number passes exactly when it is above the highest or less than `size` behind it |
| `Replay.CheckIsFresh` | replay.go:19-25 | the check on the bitmap is freshness in the set |
| `Replay.AcceptTracks` | replay.go:26-48 | sliding and marking the bitmap tracks adding to the set |
| `Replay.ReplayWindow.CheckSequence` | replay.go:19-25 | the method computes the specified check |
| `Replay.ReplayWindow.AcceptSequence` | replay.go:26-48 | the fields after acceptance are those of the specified window |
| `ConnectionIds.MergeMeaning` | protected_record.go:99-124 | a merge succeeds exactly when all entries fit and are equal or incomparable; the result extends the list in order, is prefix-free and holds exactly the union |
| `ConnectionIds.MergeConnectionIDs` | protected_record.go:99-124 | the nested loops compute the specified merge |
| `ConnectionIds.MatchIsUnique` | protected_record.go:126-133 | the matched ID is the only accepted one that starts the datagram, and none matches only if none does |
| `ConnectionIds.DifferenceIsMergedTail` | connection_id.go:182-197 | what is registered for an advertisement is exactly the tail the merge appended |
| `Routes.OwnerIsUnique` | listener.go:199-224 | prefix-freedom leaves at most one owner for a datagram, so all correct lookups agree |
| `Routes.LookupByLength` | listener.go:199-215 | the lookup by registered lengths finds that owner |
| `Routes.LookupByScan` | listener.go:217-224 | the linear scan in any order finds that owner |
| `Routes.LengthsMeaning` | listener.go:237-249 | the rebuilt length index is increasing and holds exactly the lengths of registered IDs |
| `Routes.LengthsAreUnique` | listener.go:226-249 | any sorted list of the key lengths equals the rebuilt one |
| `Routes.RegisterManyMeaning` | listener.go:276-301 | a registration keeps every existing route, adds only the requested ones for the session, and keeps the IDs prefix-free |
| `Listeners.ReachableTablesAreSound` | listener.go:199-388 | in every reachable state registered IDs are non-empty, at most 255 bytes and prefix-free, no session is listed under two addresses, and lookup has one answer |
| `Listeners.RouteChangesExactlyWhenGivenUp` | listener.go:251-388 | a route disappears exactly when its owner withdraws it, is removed or displaced, or the listener closes; otherwise it stays with its owner |
| `Listeners.RouteAppearsExactlyWhenGained` | listener.go:251-301 | a route appears exactly when a session registers the ID and it clashes with nothing registered or requested |
| `Listeners.AddressesChangeExactly` | listener.go:315-388 | which session each address leads to after any step |
| `Listeners.WaitingChangesExactly` | listener.go:339-388 | which session waits for validation at each address, and which address each session has, after any step |
| `Listeners.GoneIsUnreachable` | listener.go:315-388 | a removed or displaced session is reached by no address and no ID |
| `Listeners.DatagramsKeepReachingTheOwner` | listener.go:199-224 | over any run in which the owner keeps an ID, every datagram carrying it reaches the owner |
| `Listeners.Listener.SessionForCID` | listener.go:199-224 | whichever strategy the index chooses, the owner is found |
| `Listeners.Listener.AddCID` | listener.go:226-235 | the incremental index update equals a full rebuild |
| `Listeners.RebuildLengths` | listener.go:237-249 | the table-driven rebuild computes the specified index |
| `Listeners.Listener.RegisterSessionCID` | listener.go:251-274 | the scan in any order accepts exactly what is specified; a refused registration changes no route |
| `Listeners.Listener.RegisterSessionCIDs` | listener.go:276-301 | everything is checked before the first ID is added; a refused registration changes no route |
| `Listeners.Listener.UnregisterSessionCIDs` | listener.go:303-313 | exactly the listed IDs that still belong to the session are withdrawn |
| `Listeners.Listener.RemoveSession` | listener.go:315-334 | every route and address of the session is removed and nothing else |
| `Listeners.Listener.RebindSession` | listener.go:358-388 | the session moves to the new address, and a displaced session loses its address and its routes |
| `Listeners.Listener.ConnectionValidated` | listener.go:339-356 | a pending session is promoted to its address exactly when it is the pending one there |
| `PathValidation.RebindIsEarned` | return_routability.go:101-231 | in every run the address becomes A only on a response from A with the cookie drawn for the new-path phase, after a record from A started the check and the old path dropped it or the current timer expired |
| `PathValidation.RebindExactly` | return_routability.go:180-213 | the address changes exactly on a response from the new address with the cookie of the new-path phase when the switch could be made, and then the check is over |
| `PathValidation.CheckGoesThrough` | return_routability.go:101-231 | a record from a new address, the loss of the old path and the answer of the new one move the connection, with a cookie drawn for each phase |
| `PathValidation.OldPathAnswerEndsCheck` | return_routability.go:171-179 | the right answer of the old path ends the check where it began, and any other changes nothing |
| `PathValidation.ReceivedIsCounted` | return_routability.go:119-127 | every record from the candidate, and no other, adds to its budget |
| `PathValidation.CandidateIsNeverAmplified` | return_routability.go:256-313 | the count of bytes sent to the candidate is the true total exactly when no answer to its challenge was written in part during the check; then at most three times the received bytes have left, and any one further write keeps to that |
| `PathValidation.FinishedWritesStayInBudget` | return_routability.go:287-313 | in every run the bytes of finished writes to the candidate are at most three times those received from it, those of unfinished writes come on top, and neither 64-bit counter wraps |
| `PathValidation.CutAnswersAmplify` | return_routability.go:256-262 | a run in which the answers to a candidate are each cut by one byte sends it any number of bytes for ten received |
| `PathValidation.TimerActsExactlyWhenCurrent` | return_routability.go:330-347 | a timer changes the state exactly when it carries the current generation of a running check |
| `PathValidation.OlderTimersChangeNothing` | return_routability.go:315-347 | a timer armed earlier in the run changes nothing, as long as fewer than 2^64 generations passed |
| `PathValidation.StepKeeps` | return_routability.go:101-231 | every event keeps the byte accounts, the two addresses of the check and the generation count |
| `PathValidation.MessageRoundTrip` | return_routability.go:21-45 | messages and accepted wires are mutually inverse |
| `PathValidation.MessageBytes` | return_routability.go:9-30 | the type codes and the place of the cookie |
| `PathValidation.PathValidator.ObserveRecord` | return_routability.go:101-143 | the fields and the error after a record from some address are those of the specified step |
| `PathValidation.PathValidator.HandleMessage` | return_routability.go:145-213 | the fields after a message, the error and the reply are those of the specified step; a challenge is confirmed only from the current address |
| `PathValidation.PathValidator.SendMessage` | return_routability.go:233-313 | a send beyond the budget is dropped, an unfinished one is an error, and only a finished send to the candidate is counted |
| `PathValidation.PathValidator.StartBasic` | return_routability.go:215-231 | the new-path phase starts with a new cookie, or the check is abandoned |
| `PathValidation.PathValidator.TimerExpired` | return_routability.go:330-347 | the fields and the error after an expiry are those of the specified step |
| `PathValidation.PathValidator.ClearCheck` | return_routability.go:355-372 | clearing empties the check and advances the generation |
| `Amplification.NeverMoreThanThreeTimes` | amplification.go:16-49 | over any run the bytes passed before validation are at most three times the bytes received, and the counter fits 64 bits |
| `Amplification.CountersAreTotals` | amplification.go:16-49 | the received counter is the saturated total and the sent counter the exact total |
| `Amplification.AllowsExactly` | amplification.go:28-48 | a send passes exactly when the address was validated or three times the received bytes leave room for it |
| `Amplification.AmplificationGuard.AllowSend` | amplification.go:28-48 | the decision and the new counter are the specified ones, and the subtraction never wraps |
| `Amplification.AmplificationGuard.RecordReceived` | amplification.go:16-27 | the received counter saturates |
| `ReplayCache.AdmissionIsExact` | session.go:187-201 | under a non-decreasing clock a call is admitted exactly when its identity is not live and fewer than `max` identities are |
| `ReplayCache.StoredIsLive` | session.go:187-201 | under a non-decreasing clock the cache holds exactly the identities admitted and not yet expired: none is evicted to make room |
| `ReplayCache.NeverAdmittedTwice` | session.go:187-201 | no identity is admitted again while every reading in between is before its expiry |
| `ReplayCache.AdmissionUnderAnyClock` | session.go:187-201 | whatever the readings are, a call is admitted exactly when its identity is not held, that is, admitted with no reading since that reached its expiry, and fewer than `max` are |
| `ReplayCache.AdmittedAgainExactly` | session.go:187-201 | with no other call for the identity in between, a second call before the expiry is admitted exactly when a call in between read the expiry or later and there is room |
| `ReplayCache.ReadingsMayGoBack` | session.go:187-201 | three calls that admit one identity twice before its expiry |
| `ReplayCache.SizeIsBounded` | session.go:187-201 | the cache never exceeds its capacity |
| `ReplayCache.RootIsLeast` | session.go:191-194 | the root of the heap expires first |
| `ReplayCache.SiftUp` | session.go:158-163 | sifting up the appended entry restores heap order and permutes the entries |
| `ReplayCache.SiftDown` | session.go:158-170 | sifting down the new root restores heap order and permutes the entries |
| `ReplayCache.Pop` | session.go:164-170 | popping removes the entry that expires first and no other |
| `ReplayCache.Push` | session.go:161-163 | pushing adds one entry and keeps heap order |
| `ReplayCache.EarlyDataReplayCache.CheckAndStore` | session.go:187-201 | the decision and the new contents are the specified ones; map and heap name the same identities, the heap each once |
| `ReplayCache.EarlyDataReplayCache.DropExpired` | session.go:191-194 | the loop removes exactly the expired entries |
| `Cookies.CookieIsHonoured` | cookie.go:57-120 | with a lifetime of at least two seconds a cookie opened for the same address within half a lifetime of sealing is accepted, whatever calls, rotations and key-id wraps come between |
| `Cookies.HonouredBeforeDeadline` | cookie.go:57-120 | before the deadline a cookie is accepted exactly when its recorded second is within the lifetime |
| `Cookies.LostAfterDeadline` | cookie.go:46-66 | from the deadline on there is always a run of rotations after which the cookie is refused |
| `Cookies.AcceptedIsTimelyAndAuthentic` | cookie.go:89-120 | what is accepted is well-formed, recorded within the lifetime, and authenticated under the current or the previous key |
| `Cookies.SealedFields` | cookie.go:73-88 | the sealed fields parse back: key id, second, hash and MAC |
| `Cookies.CookieLayout` | cookie.go:67-88 | a cookie is sealed exactly for a hash of 1 to 255 bytes and a key at hand; key number, second, length, hash and MAC lie at their places |
| `Cookies.OpensExactly` | cookie.go:89-120 | a cookie is opened exactly when it is whole, authenticated for the address by the key its first byte names, and timely |
| `Cookies.CookieProtector.RotateIfNeeded` | cookie.go:46-66 | rotation happens exactly when half a lifetime has passed and a secret could be drawn |
| `Cookies.CookieProtector.SealCookie` | cookie.go:73-88 | the method computes the specified cookie and state |
| `Cookies.CookieProtector.OpenCookie` | cookie.go:89-120 | the method computes the specified verdict and state |
| `KeySchedules.FullSchedule` | key_schedule.go:38-188 | all secrets of a handshake, derived in one storage with every root overwritten in place, are those of the TLS 1.3 definitions |
| `KeySchedules.KeySchedule.DeriveHandshake` | key_schedule.go:64-79 | the root slot holds the handshake secret, the two traffic slots its derivations, the others are untouched; a second call is refused and changes nothing |
| `KeySchedules.KeySchedule.DeriveApplication` | key_schedule.go:106-126 | likewise for the master secret, the application secrets and the exporter secret |
| `KeySchedules.KeySchedule.DeriveResumption` | key_schedule.go:176-188 | the root slot is replaced by the resumption secret derived from the master secret that lay there |
| `KeySchedules.KeySchedule.EarlyTrafficSecret` | key_schedule.go:58-62 | the 0-RTT secret is put into the slot the client handshake secret will overwrite |
| `KeySchedules.ExportKeying` | key_schedule.go:139-164 | exported keying material is that of section 7.5 of RFC 8446 for every label, context and length up to 255 blocks, and the error cases are exactly the stated ones |
| `KeySchedules.FinishedInto` | key_schedule.go:91-101 | the verify data is right although its buffer first holds the finished key |
| `KeyLabels.ScheduleInHmacs` | key_schedule.go:38-188 | every secret of the schedule as nested HMACs of plain bytes |
| `KeyLabels.LabelsAreSpelled` | cipher_suite.go:82-92 | each label by its characters |
| `KeyLabels.ExportInHmacs` | key_schedule.go:139-164 | exported keying material as an expansion under plain bytes |
| `Hkdf.ExpandInto` | cipher_suite.go:249-265 | the block loop with its one-byte counter computes HKDF-Expand for every length up to 255 blocks, touches only its window and clears its buffer |
| `Hkdf.ExpandLabelWithScratchInto` | cipher_suite.go:304-338 | the result is HKDF-Expand-Label of the secret and context that lay in the scratch, although building the info overwrites both |
| `Hkdf.BuildInfo` | cipher_suite.go:311-319 | the info is built over the secret while the context is moved down over itself |
| `Hkdf.ExpandOver` | cipher_suite.go:321-337 | full blocks chained through the output and a last partial block put over the info give HKDF-Expand |
| `Hkdf.ExpandLabelHash` | cipher_suite.go:359-384 | the single-block form is HKDF-Expand-Label for one hash length |
| `Hkdf.ExpandFromFewer` | cipher_suite.go:249-265 | a prefix of enough blocks does not depend on how many blocks are made |
| `KeyLabels.InfoLayout` | cipher_suite.go:267-280 | the HkdfLabel byte by byte, with the prefix dtls13 by its characters |
| `KeyLabels.ExpandChains` | cipher_suite.go:249-265 | block i of an expansion is the HMAC of the block before it, the info and i |
| `KeyLabels.DerivedByOneHmac` | cipher_suite.go:359-384 | a derived secret is one HMAC of the spelled-out label |
| `Tickets.TicketRoundTrip` | session.go:426-666 | every state that is marshalled, in all its layouts, parses back to itself up to a defaulted size limit and a dropped authentication time |
| `Tickets.EncodingIsInjective` | session.go:426-565 | states with the same encoding agree on everything their layout keeps |
| `Tickets.OverlongIsAnError` | session.go:426-565 | marshalling succeeds exactly when the state is acceptable and every vector fits its length field |
| `TicketFormat.ParsesExactly` | session.go:567-666 | parsing returns a state exactly for its encodings, in any layout that can hold it, with nothing behind them |
| `TicketFormat.TicketLayout` | session.go:426-565 | the bytes of every layout, field by field, and which layout is chosen |
| `Tickets.EndlessExactlyWhenCutShort` | session.go:610-631 | the loop over the chains never ends exactly when the vector stops inside an entry after well-formed chains, other than right behind that entry's length |
| `EndlessTickets.ParseIsEndlessExactly` | session.go:567-666 | parsing never ends exactly on the tickets made of readable fields, accepted certificates and such a vector, whatever follows it |
| `EndlessTickets.EndlessTicketExists` | session.go:610-631 | for every accepted certificate that fits there is such a ticket |
| `Tickets.StuckForever` | session.go:611-615 | no number of turns of that loop moves a parser that has failed with bytes left |
| `TicketObject.MarshalTicket` | session.go:426-565 | building with latched errors and backpatched lengths computes the specified encoding or error |
| `TicketObject.ChooseVersion` | session.go:426-488 | the layout is chosen, and a state refused, exactly as specified |
| `TicketObject.ParseTicket` | session.go:567-666 | parsing with a latched error computes the specified outcome |
| `TicketObject.ReadCertificates` | session.go:599-609 | the loop over certificates computes the specified list |
| `TicketObject.ReadChains` | session.go:610-631 | the loop over chains computes the specified chains, and says when it would not end |
| `WireCodec.WireBuilder.EndVector` | hello.go:274-324 | closing a vector writes its length over the reserved bytes, or fails when it is too long |
| `WireCodec.WireBuilder.PutVector` | hello.go:241-272 | a byte string is appended behind its length, or the builder fails |
| `WireCodec.WireBuilder.PutNumber` | hello.go:205-240 | a number is appended, or the builder fails when it does not fit |
| `WireCodec.VectorReads` | hello.go:344-374 | reading a vector gives back what was put and leaves the rest |
| `WireCodec.FailureIsLatched` | hello.go:332-343 | a failed parser returns nothing and stays where it is |
| `WireCodec.WireParser.TakeBytes` | hello.go:332-343 | bytes are taken, or the error is latched and nothing moves |
| `WireCodec.WireParser.TakeVector` | hello.go:344-374 | the method computes the specified read |
| `Wire.GetPut` | record.go:122-132 | a big-endian integer that fits its width reads back |
| `Wire.LeadingDigit` | record.go:122-132 | bytes are digits in base 256, the most significant first |
| `Wire.ByteOfUint` | record.go:122-132 | each byte of an encoded integer is its digit |
| `Wire.PutGet` | record.go:122-132 | bytes are the encoding of the integer they read as |

## Left out

- Cryptographic primitives: hashes, HMAC, AEADs, the sequence mask, key exchange and signatures are parameters.
- X.509, delegated credentials and raw public keys: library parsers are predicates on the bytes they accept.
- ECH, hello and extension parsing, HelloRetryRequest negotiation, certificate compression, cached information: only the wire builder and parser they share are modelled.
- Sockets, deadlines, goroutines, buffer pools and error texts: locks are atomic steps, timers are events, errors are outcomes.
- Retransmission timing, backoff and RTT sampling: only safety is stated.
- Plaintext record framing and the small post-handshake message codecs: they would only add easy members.
- KeyUpdateRun: an ACK the source would refuse because it names a later epoch counts as lost.
- Reassembly.Add: does not track the first and last record number of a message, which only feed ACK scheduling.
- InOrderInbox.HandshakeInbox: the batch of delivered messages is a sequence, without the inline storage of its first entries.
- ReplayCache.EarlyDataReplayCache: heap entries are values in a sequence; the heap operations are those of Go's container/heap.
- PathValidation: addresses are compared as equal values, where the source compares UDP addresses field by field; which spare ID a probe uses is in `CidUpdates`. A failed write may still have let some of its bytes out.
- Acks.BuildRecords: gives the length of each record and its numbers; its bytes are in `AckRecords.AcksArrive` for protected records, and plaintext framing is not modelled.
- Listeners: accepting datagrams and closing are steps of the run and not methods of the object; session queues are not modelled.
- TicketObject.ReadChains: returns an outcome where the source loops forever, since the model's loops terminate.
- Tickets.TicketRoundTrip: layout 2 is parsed and never produced, as in the source.
