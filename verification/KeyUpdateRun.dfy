/** One direction of a connection while the network loses, repeats and reorders KeyUpdates and ACKs. */
module KeyUpdateRun {
  import opened Wire
  import opened RecordNumbers
  import opened EpochSets
  import opened SendingTraffic
  import opened ReceivingTraffic

  /** Sender, receiver and everything that was ever put on the wire, which may be delivered again at any time. */
  datatype World = World(
    sender: Sender,
    retired: map<nat, TxCipher>,        // earlier ciphers, still held by unacknowledged flights
    receiver: Receiver,
    updates: set<KeyUpdateRecord>,      // KeyUpdate records sent
    others: set<RecordNumber>,          // numbers of all other records sent
    acked: set<RecordNumber>,           // numbers the receiver acknowledged
    sealed: seq<RecordNumber>,          // every number used for sealing, in order
    messages: seq<nat>)                 // every message_seq committed, in order

  datatype Step =
    | Begin(requestUpdate: bool)
    | Retransmit
    | SealOther
    | SealRetired(epoch: nat)
    | SendMessages(count: nat)
    | DeliverUpdate(record: KeyUpdateRecord)
    | AckOther(number: RecordNumber)
    | DeliverACK(numbers: seq<RecordNumber>)

  function Start(secret: Bytes, handshakeSecret: Bytes, negotiated: Option<Bytes>, messageSequence: nat,
                 recordLimit: nat): World {
    World(Sender(secret, TxCipher(3, secret, 0, recordLimit), None, messageSequence, false), map[],
          Initial(secret, handshakeSecret, negotiated), {}, {}, {}, [], [])
  }

  /** The receiver opens a record exactly when the header bits lead it to the record's own epoch and secret. */
  ghost predicate Opens(r: Receiver, u: KeyUpdateRecord) {
    && Selects(r.epochs, u.number.epoch % 4, Some(u.number.epoch))
    && r.epochs.ciphers[u.number.epoch].secret == u.secret
  }

  /** A step that is not enabled changes nothing. */
  ghost function Next(w: World, step: Step, derive: Bytes -> Bytes): World {
    match step
    case Begin(requestUpdate) =>
      (match BeginKeyUpdate(w.sender, requestUpdate, derive)
       case None => w
       case Some(result) =>
         w.(sender := result.0, updates := w.updates + {result.1}, sealed := w.sealed + [result.1.number],
            messages := w.messages + [result.1.messageSequence]))
    case Retransmit =>
      (match RetransmitKeyUpdate(w.sender)
       case None => w
       case Some(result) =>
         w.(sender := result.0, updates := w.updates + {result.1}, sealed := w.sealed + [result.1.number]))
    case SealOther =>
      if !CanSeal(w.sender.cipher) then w
      else
        var number := NextNumber(w.sender.cipher);
        w.(sender := w.sender.(cipher := AfterSealing(w.sender.cipher)), others := w.others + {number},
           sealed := w.sealed + [number])
    case SealRetired(epoch) =>
      if epoch !in w.retired || !CanSeal(w.retired[epoch]) then w
      else
        var number := NextNumber(w.retired[epoch]);
        w.(retired := w.retired[epoch := AfterSealing(w.retired[epoch])], others := w.others + {number},
           sealed := w.sealed + [number])
    case SendMessages(count) =>
      if !CanAllocate(w.sender, count) then w
      else w.(sender := CommitSequences(w.sender, count),
              messages := w.messages + Range(w.sender.messageSequence, count))
    case DeliverUpdate(u) =>
      if u !in w.updates || !Opens(w.receiver, u) then w
      else
        var (after, outcome) := ProcessKeyUpdate(w.receiver, u.messageSequence, Body(u.requestUpdate), derive);
        if outcome == Refused then w.(receiver := after) else w.(receiver := after, acked := w.acked + {u.number})
    case AckOther(number) =>
      if number in w.others then w.(acked := w.acked + {number}) else w
    case DeliverACK(numbers) =>
      if (exists n :: n in numbers && n !in w.acked) || !Acknowledges(w.sender, numbers) then w
      else w.(sender := ProcessACK(w.sender, numbers), retired := w.retired[w.sender.cipher.epoch := w.sender.cipher])
  }

  function Range(first: nat, count: nat): seq<nat> {
    seq(count, i requires 0 <= i < count => first + i)
  }

  ghost function Run(w: World, steps: seq<Step>, derive: Bytes -> Bytes): World {
    if steps == [] then w else Next(Run(w, steps[..|steps| - 1], derive), steps[|steps| - 1], derive)
  }

  /** The traffic secret of epoch 3 + n. */
  function Iterate(derive: Bytes -> Bytes, secret: Bytes, n: nat): Bytes {
    if n == 0 then secret else derive(Iterate(derive, secret, n - 1))
  }

  // ---------------------------------------------------------------- the invariant

  ghost predicate ReceiverAgrees(r: Receiver, root: Bytes, derive: Bytes -> Bytes) {
    Coherent(r) && EpochsAgree(r.epochs, root, derive)
  }

  ghost predicate EpochsAgree(s: Epochs<RxCipher>, root: Bytes, derive: Bytes -> Bytes) {
    forall e :: e in s.ciphers && e >= 3 ==> s.ciphers[e].secret == Iterate(derive, root, e - 3)
  }

  ghost predicate SecretsAgree(w: World, root: Bytes, derive: Bytes -> Bytes) {
    && w.sender.cipher.epoch >= 3
    && w.sender.secret == w.sender.cipher.secret == Iterate(derive, root, w.sender.cipher.epoch - 3)
    && (w.sender.pending.Some? ==>
          var next := w.sender.pending.value.next;
          next.epoch == w.sender.cipher.epoch + 1 && next.nextSequence == 0
            && next.secret == Iterate(derive, root, next.epoch - 3)
          && next.recordLimit == w.sender.cipher.recordLimit)
    && ReceiverAgrees(w.receiver, root, derive)
    && (forall u :: u in w.updates ==> 3 <= u.number.epoch && u.secret == Iterate(derive, root, u.number.epoch - 3))
  }

  /** Ciphers that flights still hold keep the secret of their epoch. */
  ghost predicate RetiredAgree(w: World, root: Bytes, derive: Bytes -> Bytes) {
    forall e :: e in w.retired ==> OfEpoch(w.retired[e], e, root, derive)
  }

  ghost predicate OfEpoch(c: TxCipher, epoch: nat, root: Bytes, derive: Bytes -> Bytes) {
    epoch >= 3 && c.epoch == epoch && c.secret == Iterate(derive, root, epoch - 3)
  }

  /** The receiver's epoch is the sender's, or one more while an update is pending; which of the two is told by the last
      processed message. Updates of earlier epochs were all processed. */
  ghost predicate Lockstep(w: World) {
    var epoch, last := w.sender.cipher.epoch, w.receiver.last;
    && (match w.sender.pending
        case None => w.receiver.current == epoch
        case Some(update) =>
          || (w.receiver.current == epoch && (last.None? || last.value < update.messageSequence))
          || (w.receiver.current == epoch + 1 && last == Some(update.messageSequence)))
    && (forall u :: u in w.updates ==> u.number.epoch <= epoch)
    && (forall u :: u in w.updates && u.number.epoch == epoch ==>
          w.sender.pending.Some? && u.messageSequence == w.sender.pending.value.messageSequence)
    && (forall u :: u in w.updates && u.number.epoch < epoch ==> last.Some? && u.messageSequence <= last.value)
  }

  /** Only processed KeyUpdates and received other records are acknowledged. */
  ghost predicate AcksAreHonest(w: World) {
    && (forall n :: n in w.acked ==> n in w.others || exists u :: u in w.updates && u.number == n && Processed(w, u))
    && (w.sender.pending.Some? ==>
          forall n :: n in w.sender.pending.value.records
            ==> n.epoch == w.sender.cipher.epoch && n !in w.others && n in w.sealed)
  }

  ghost predicate Processed(w: World, u: KeyUpdateRecord) {
    w.receiver.last.Some? && u.messageSequence <= w.receiver.last.value
  }

  /** Every used number lies below the counter of its epoch's cipher. */
  ghost predicate NumbersBounded(w: World) {
    && (forall e :: e in w.retired ==>
          e < w.sender.cipher.epoch && w.retired[e].epoch == e
            && w.retired[e].recordLimit == w.sender.cipher.recordLimit)
    && (forall n :: n in w.sealed ==> Used(w, n) && n.sequence < U48_LIMIT && n.sequence < w.sender.cipher.recordLimit)
    && (forall n :: n in w.others ==> n in w.sealed)
    && (forall u :: u in w.updates ==> u.number in w.sealed && u.number !in w.others)
  }

  ghost predicate Used(w: World, n: RecordNumber) {
    if n.epoch == w.sender.cipher.epoch then n.sequence < w.sender.cipher.nextSequence
    else n.epoch in w.retired && n.sequence < w.retired[n.epoch].nextSequence
  }

  ghost predicate Distinct<T>(s: seq<T>) {
    forall i, j :: 0 <= i < j < |s| ==> s[i] != s[j]
  }

  /** Committed message numbers are 16-bit, and below the next one until the space is exhausted. */
  ghost predicate MessagesBounded(w: World) {
    && w.sender.messageSequence < U16_LIMIT
    && (forall m :: m in w.messages ==> m < U16_LIMIT && (w.sender.exhausted || m < w.sender.messageSequence))
    && Distinct(w.messages)
    && (w.receiver.last.Some? ==> w.receiver.last.value in w.messages)
    && (forall u :: u in w.updates ==> u.messageSequence in w.messages)
    && (w.sender.pending.Some? ==> w.sender.pending.value.messageSequence in w.messages)
  }

  ghost predicate Core(w: World, root: Bytes, derive: Bytes -> Bytes) {
    SecretsAgree(w, root, derive) && Lockstep(w) && AcksAreHonest(w) && NumbersBounded(w) && Distinct(w.sealed)
      && MessagesBounded(w)
  }

  /** Every transmission of the pending update is on record, so an ACK of any of them will be recognised. */
  ghost predicate Remembered(w: World) {
    w.sender.pending.Some? ==>
      forall u :: u in w.updates && u.number.epoch == w.sender.cipher.epoch ==> Transmits(u, w.sender.pending.value)
  }

  ghost predicate Transmits(u: KeyUpdateRecord, update: Update) {
    u.number in update.records && u.messageSequence == update.messageSequence && u.requestUpdate == update.requestUpdate
  }

  ghost predicate Inv(w: World, root: Bytes, derive: Bytes -> Bytes) {
    Core(w, root, derive) && RetiredAgree(w, root, derive) && Remembered(w)
  }

  lemma RememberedKeeps(w: World, step: Step, derive: Bytes -> Bytes)
    requires Lockstep(w) && Remembered(w)
    ensures Remembered(Next(w, step, derive))
  {
    var w' := Next(w, step, derive);
    if w'.sender.pending.Some? {
      forall u | u in w'.updates && u.number.epoch == w'.sender.cipher.epoch
        ensures Transmits(u, w'.sender.pending.value) {
        assert u in w.updates && w.sender.pending.Some? ==> Transmits(u, w.sender.pending.value);
      }
    }
  }

  /**
   * The ciphers that flights hold after a step: sealing moves counters only, and a promotion retires the current one.
   */
  lemma RetiredForm(w: World, step: Step, derive: Bytes -> Bytes, e: nat)
    requires e in Next(w, step, derive).retired
    ensures var c := Next(w, step, derive).retired[e];
            || (e in w.retired && c.epoch == w.retired[e].epoch && c.secret == w.retired[e].secret)
            || (e == w.sender.cipher.epoch && c == w.sender.cipher)
  {}

  lemma RetiredKeeps(w: World, step: Step, root: Bytes, derive: Bytes -> Bytes)
    requires OfEpoch(w.sender.cipher, w.sender.cipher.epoch, root, derive) && RetiredAgree(w, root, derive)
    ensures RetiredAgree(Next(w, step, derive), root, derive)
  {
    var w' := Next(w, step, derive);
    forall e | e in w'.retired ensures OfEpoch(w'.retired[e], e, root, derive) {
      RetiredForm(w, step, derive, e);
      assert e in w.retired ==> OfEpoch(w.retired[e], e, root, derive);
    }
  }

  // ---------------------------------------------------------------- every step keeps it

  lemma DistinctAppend<T>(s: seq<T>, t: seq<T>)
    requires Distinct(s) && Distinct(t) && forall x :: x in t ==> x !in s
    ensures Distinct(s + t)
  {
    var all := s + t;
    forall i, j | 0 <= i < j < |all| ensures all[i] != all[j] {
      if i < |s| <= j { assert all[j] in t; assert all[i] in s; }
    }
  }

  /** The current cipher seals one more record, a KeyUpdate `u` or another one. */
  ghost predicate SealsOne(w: World, w': World, u: Option<KeyUpdateRecord>) {
    var number := NextNumber(w.sender.cipher);
    && w'.sender.cipher == AfterSealing(w.sender.cipher) && w'.retired == w.retired && w'.sealed == w.sealed + [number]
    && (match u
        case None => w'.others == w.others + {number} && w'.updates == w.updates
        case Some(update) => update.number == number && w'.others == w.others && w'.updates == w.updates + {update})
  }

  lemma SealingKeepsNumbers(w: World, w': World, u: Option<KeyUpdateRecord>)
    requires NumbersBounded(w) && Distinct(w.sealed) && SealsOne(w, w', u) && CanSeal(w.sender.cipher)
    ensures NextNumber(w.sender.cipher) !in w.sealed
    ensures NumbersBounded(w') && Distinct(w'.sealed)
  {
    var number := NextNumber(w.sender.cipher);
    assert number in w.sealed ==> Used(w, number);
    DistinctAppend(w.sealed, [number]);
    forall n | n in w'.sealed ensures Used(w', n) { assert n in w.sealed || n == number; }
  }

  lemma SealingKeepsAcks(w: World, w': World, u: Option<KeyUpdateRecord>)
    requires AcksAreHonest(w) && SealsOne(w, w', u) && w'.acked == w.acked && w'.receiver == w.receiver
    requires NextNumber(w.sender.cipher) !in w.sealed
    requires forall n :: n in w.others ==> n in w.sealed
    requires w'.sender.pending.Some? ==>
               forall n :: n in w'.sender.pending.value.records ==>
                 (w.sender.pending.Some? && n in w.sender.pending.value.records) || (u.Some? && n == u.value.number)
    ensures AcksAreHonest(w')
  {
    forall n | n in w'.acked && n !in w'.others
      ensures exists v :: v in w'.updates && v.number == n && Processed(w', v)
    {
      var v :| v in w.updates && v.number == n && Processed(w, v);
      assert v in w'.updates && Processed(w', v);
    }
  }

  lemma BeginSecrets(w: World, requestUpdate: bool, root: Bytes, derive: Bytes -> Bytes)
    requires SecretsAgree(w, root, derive)
    ensures SecretsAgree(Next(w, Begin(requestUpdate), derive), root, derive)
  {
    hide ReceiverAgrees;
  }

  lemma BeginLock(w: World, requestUpdate: bool, root: Bytes, derive: Bytes -> Bytes)
    requires Core(w, root, derive)
    ensures Lockstep(Next(w, Begin(requestUpdate), derive))
  {}

  lemma BeginMessages(w: World, requestUpdate: bool, root: Bytes, derive: Bytes -> Bytes)
    requires MessagesBounded(w)
    ensures MessagesBounded(Next(w, Begin(requestUpdate), derive))
  {
    if BeginKeyUpdate(w.sender, requestUpdate, derive).Some? {
      DistinctAppend(w.messages, [w.sender.messageSequence]);
    }
  }

  lemma BeginKeeps(w: World, requestUpdate: bool, root: Bytes, derive: Bytes -> Bytes)
    requires Core(w, root, derive)
    ensures Core(Next(w, Begin(requestUpdate), derive), root, derive)
  {
    BeginSecrets(w, requestUpdate, root, derive);
    BeginLock(w, requestUpdate, root, derive);
    BeginMessages(w, requestUpdate, root, derive);
    match BeginKeyUpdate(w.sender, requestUpdate, derive)
    case None =>
    case Some(result) =>
      SealingKeepsNumbers(w, Next(w, Begin(requestUpdate), derive), Some(result.1));
      SealingKeepsAcks(w, Next(w, Begin(requestUpdate), derive), Some(result.1));
  }

  lemma RetransmitSecrets(w: World, root: Bytes, derive: Bytes -> Bytes)
    requires SecretsAgree(w, root, derive)
    ensures SecretsAgree(Next(w, Retransmit, derive), root, derive)
  {}

  lemma RetransmitLock(w: World, root: Bytes, derive: Bytes -> Bytes)
    requires Lockstep(w) && MessagesBounded(w)
    ensures Lockstep(Next(w, Retransmit, derive)) && MessagesBounded(Next(w, Retransmit, derive))
  {}

  lemma RetransmitKeeps(w: World, root: Bytes, derive: Bytes -> Bytes)
    requires Core(w, root, derive)
    ensures Core(Next(w, Retransmit, derive), root, derive)
  {
    RetransmitSecrets(w, root, derive);
    RetransmitLock(w, root, derive);
    match RetransmitKeyUpdate(w.sender)
    case None =>
    case Some(result) =>
      SealingKeepsNumbers(w, Next(w, Retransmit, derive), Some(result.1));
      SealingKeepsAcks(w, Next(w, Retransmit, derive), Some(result.1));
  }

  /** Sealing other records and committing other messages change neither the keys nor the pending update. */
  ghost predicate SameKeys(w: World, w': World) {
    && w'.receiver == w.receiver && w'.updates == w.updates
    && w'.sender.pending == w.sender.pending && w'.sender.secret == w.sender.secret
    && w'.sender.cipher == w.sender.cipher.(nextSequence := w'.sender.cipher.nextSequence)
  }

  lemma KeysFrame(w: World, w': World, root: Bytes, derive: Bytes -> Bytes)
    requires SecretsAgree(w, root, derive) && Lockstep(w) && SameKeys(w, w')
    ensures SecretsAgree(w', root, derive) && Lockstep(w')
  {}

  lemma MessagesFrame(w: World, w': World)
    requires MessagesBounded(w) && SameKeys(w, w')
    requires w'.messages == w.messages && w'.sender.messageSequence == w.sender.messageSequence
             && w'.sender.exhausted == w.sender.exhausted
    ensures MessagesBounded(w')
  {}

  lemma SealOtherKeeps(w: World, root: Bytes, derive: Bytes -> Bytes)
    requires Core(w, root, derive)
    ensures Core(Next(w, SealOther, derive), root, derive)
  {
    if CanSeal(w.sender.cipher) {
      var w' := Next(w, SealOther, derive);
      SealingKeepsNumbers(w, w', None);
      SealingKeepsAcks(w, w', None);
      KeysFrame(w, w', root, derive);
      MessagesFrame(w, w');
    }
  }

  lemma RetiredNumbers(w: World, epoch: nat, derive: Bytes -> Bytes)
    requires NumbersBounded(w) && Distinct(w.sealed) && AcksAreHonest(w) && epoch in w.retired
             && CanSeal(w.retired[epoch])
    ensures var w' := Next(w, SealRetired(epoch), derive);
            NumbersBounded(w') && Distinct(w'.sealed) && AcksAreHonest(w')
  {
    var number, w' := NextNumber(w.retired[epoch]), Next(w, SealRetired(epoch), derive);
    assert number in w.sealed ==> Used(w, number);
    DistinctAppend(w.sealed, [number]);
    forall n | n in w'.sealed ensures Used(w', n) { assert n == number || Used(w, n); }
    forall n | n in w'.acked && n !in w'.others
      ensures exists v :: v in w'.updates && v.number == n && Processed(w', v)
    {
      var v :| v in w.updates && v.number == n && Processed(w, v);
      assert v in w'.updates && Processed(w', v);
    }
  }

  lemma SealRetiredKeeps(w: World, epoch: nat, root: Bytes, derive: Bytes -> Bytes)
    requires Core(w, root, derive)
    ensures Core(Next(w, SealRetired(epoch), derive), root, derive)
  {
    if epoch in w.retired && CanSeal(w.retired[epoch]) {
      RetiredNumbers(w, epoch, derive);
      KeysFrame(w, Next(w, SealRetired(epoch), derive), root, derive);
      MessagesFrame(w, Next(w, SealRetired(epoch), derive));
    }
  }

  lemma CommittedMessages(w: World, count: nat, derive: Bytes -> Bytes)
    requires MessagesBounded(w) && CanAllocate(w.sender, count)
    ensures MessagesBounded(Next(w, SendMessages(count), derive))
  {
    DistinctAppend(w.messages, Range(w.sender.messageSequence, count));
  }

  lemma SendMessagesKeeps(w: World, count: nat, root: Bytes, derive: Bytes -> Bytes)
    requires Core(w, root, derive)
    ensures Core(Next(w, SendMessages(count), derive), root, derive)
  {
    if CanAllocate(w.sender, count) {
      CommittedMessages(w, count, derive);
      KeysFrame(w, Next(w, SendMessages(count), derive), root, derive);
    }
  }

  lemma AdvancedAgrees(r: Receiver, sequence: nat, root: Bytes, derive: Bytes -> Bytes)
    requires ReceiverAgrees(r, root, derive)
    ensures Advance(r.epochs, NextCipher(r, derive)).Some?
    ensures ReceiverAgrees(Advanced(r, sequence, derive), root, derive)
  {
    AdvancedKeys(r, sequence, derive);
    AdvancedCids(r, sequence, derive);
    EpochsStillAgree(r.epochs, NextCipher(r, derive), root, derive);
  }

  lemma EpochsStillAgree(s: Epochs<RxCipher>, cipher: RxCipher, root: Bytes, derive: Bytes -> Bytes)
    requires EpochsAgree(s, root, derive) && s.current >= 3 && s.ciphers.Keys == InstalledAt(s.current)
    requires s.current in s.ciphers ==> cipher.secret == derive(s.ciphers[s.current].secret)
    ensures Advance(s, cipher).Some? && EpochsAgree(Advance(s, cipher).value, root, derive)
  {
    AdvanceInstalls(s, cipher);
    InstalledAreDistinct(s.current, s.current, s.current);
  }

  /**
   * Delivering a KeyUpdate that opens acknowledges it, and advances the receiver exactly when it is newer than the
   * last.
   */
  lemma DeliverForm(w: World, u: KeyUpdateRecord, root: Bytes, derive: Bytes -> Bytes)
    requires ReceiverAgrees(w.receiver, root, derive) && u in w.updates && Opens(w.receiver, u)
    ensures Advance(w.receiver.epochs, NextCipher(w.receiver, derive)).Some?
    ensures Next(w, DeliverUpdate(u), derive)
         == w.(acked := w.acked + {u.number},
               receiver := if w.receiver.last.None? || u.messageSequence > w.receiver.last.value
                           then Advanced(w.receiver, u.messageSequence, derive) else w.receiver)
  {
    KeyUpdateMeaning(w.receiver, u.messageSequence, Body(u.requestUpdate), derive);
  }

  lemma AcksAfterUpdate(w: World, w': World, u: KeyUpdateRecord)
    requires AcksAreHonest(w) && u in w.updates
    requires w' == w.(receiver := w'.receiver, acked := w.acked + {u.number}) && Processed(w', u)
    requires w.receiver.last.Some? ==> w'.receiver.last.Some? && w.receiver.last.value <= w'.receiver.last.value
    ensures AcksAreHonest(w')
  {
    forall n | n in w'.acked && n !in w'.others
      ensures exists v :: v in w'.updates && v.number == n && Processed(w', v)
    {
      if n in w.acked {
        var v :| v in w.updates && v.number == n && Processed(w, v);
        assert v in w'.updates && Processed(w', v);
      } else {
        assert u in w'.updates && u.number == n;
      }
    }
  }

  lemma DeliverUpdateKeeps(w: World, u: KeyUpdateRecord, root: Bytes, derive: Bytes -> Bytes)
    requires Core(w, root, derive)
    ensures Core(Next(w, DeliverUpdate(u), derive), root, derive)
  {
    if u in w.updates && Opens(w.receiver, u) {
      DeliverForm(w, u, root, derive);
      AdvancedAgrees(w.receiver, u.messageSequence, root, derive);
      UpdateKeeps(w, Next(w, DeliverUpdate(u), derive), u, root, derive);
    }
  }

  ghost predicate Advances(w: World, w': World, u: KeyUpdateRecord) {
    && w' == w.(receiver := w'.receiver, acked := w.acked + {u.number})
    && if w.receiver.last.None? || u.messageSequence > w.receiver.last.value
       then w'.receiver.last == Some(u.messageSequence) && w'.receiver.current == w.receiver.current + 1
       else w'.receiver == w.receiver
  }

  /** A record that opens and is newer than the last processed one is the pending update's. */
  lemma UpdateLock(w: World, w': World, u: KeyUpdateRecord)
    requires Lockstep(w) && MessagesBounded(w) && u in w.updates && Advances(w, w', u)
    ensures Lockstep(w') && MessagesBounded(w')
  {}

  lemma UpdateIsProcessed(w: World, w': World, u: KeyUpdateRecord)
    requires Advances(w, w', u)
    ensures Processed(w', u)
    ensures w.receiver.last.Some? ==> w'.receiver.last.Some? && w.receiver.last.value <= w'.receiver.last.value
  {}

  lemma UpdateKeeps(w: World, w': World, u: KeyUpdateRecord, root: Bytes, derive: Bytes -> Bytes)
    requires Core(w, root, derive) && u in w.updates && Advances(w, w', u)
    requires ReceiverAgrees(w'.receiver, root, derive)
    ensures Core(w', root, derive)
  {
    hide Lockstep, MessagesBounded, AcksAreHonest, ReceiverAgrees;
    UpdateLock(w, w', u);
    UpdateIsProcessed(w, w', u);
    AcksAfterUpdate(w, w', u);
  }

  /** An acknowledgement that promotes the pending cipher finds the receiver already one epoch ahead. */
  lemma AckMeansProcessed(w: World, numbers: seq<RecordNumber>)
    requires Lockstep(w) && AcksAreHonest(w) && Acknowledges(w.sender, numbers)
    requires forall n :: n in numbers ==> n in w.acked
    ensures w.receiver.current == w.sender.cipher.epoch + 1
            && w.receiver.last == Some(w.sender.pending.value.messageSequence)
  {
    var n :| n in numbers && n in w.sender.pending.value.records;
    var u :| u in w.updates && u.number == n && Processed(w, u);
  }

  lemma PromotionLock(w: World, numbers: seq<RecordNumber>)
    requires Lockstep(w) && AcksAreHonest(w) && Acknowledges(w.sender, numbers)
    requires forall n :: n in numbers ==> n in w.acked
    requires w.sender.pending.value.next.epoch == w.sender.cipher.epoch + 1
    ensures Lockstep(w.(sender := ProcessACK(w.sender, numbers),
                        retired := w.retired[w.sender.cipher.epoch := w.sender.cipher]))
  {
    AckMeansProcessed(w, numbers);
  }

  lemma PromotionNumbers(w: World, numbers: seq<RecordNumber>)
    requires NumbersBounded(w) && Acknowledges(w.sender, numbers)
             && w.sender.pending.value.next.epoch == w.sender.cipher.epoch + 1
    requires w.sender.pending.value.next.recordLimit == w.sender.cipher.recordLimit
    ensures NumbersBounded(w.(sender := ProcessACK(w.sender, numbers),
                              retired := w.retired[w.sender.cipher.epoch := w.sender.cipher]))
  {
    var w' := w.(sender := ProcessACK(w.sender, numbers),
                 retired := w.retired[w.sender.cipher.epoch := w.sender.cipher]);
    forall n | n in w'.sealed ensures Used(w', n) { assert Used(w, n); }
  }

  lemma DeliverACKKeeps(w: World, numbers: seq<RecordNumber>, root: Bytes, derive: Bytes -> Bytes)
    requires Core(w, root, derive)
    ensures Core(Next(w, DeliverACK(numbers), derive), root, derive)
  {
    if Acknowledges(w.sender, numbers) && forall n :: n in numbers ==> n in w.acked {
      PromotionLock(w, numbers);
      PromotionNumbers(w, numbers);
    }
  }

  /** Acknowledging a received record other than a KeyUpdate. */
  lemma OtherAcksAreHonest(w: World, w': World)
    requires AcksAreHonest(w) && w' == w.(acked := w'.acked)
    requires forall n :: n in w'.acked ==> n in w.acked || n in w.others
    ensures AcksAreHonest(w')
  {
    forall n | n in w'.acked && n !in w'.others
      ensures exists v :: v in w'.updates && v.number == n && Processed(w', v)
    {
      var v :| v in w.updates && v.number == n && Processed(w, v);
      assert v in w'.updates && Processed(w', v);
    }
  }

  lemma AckOtherKeeps(w: World, number: RecordNumber, root: Bytes, derive: Bytes -> Bytes)
    requires Core(w, root, derive)
    ensures Core(Next(w, AckOther(number), derive), root, derive)
  {
    var w' := Next(w, AckOther(number), derive);
    assert w' == w.(acked := w'.acked);
    OtherAcksAreHonest(w, w');
    KeysFrame(w, w', root, derive);
    MessagesFrame(w, w');
  }

  lemma StepKeepsCore(w: World, step: Step, root: Bytes, derive: Bytes -> Bytes)
    requires Core(w, root, derive)
    ensures Core(Next(w, step, derive), root, derive)
  {
    match step
    case Begin(requestUpdate) => BeginKeeps(w, requestUpdate, root, derive);
    case Retransmit => RetransmitKeeps(w, root, derive);
    case SealOther => SealOtherKeeps(w, root, derive);
    case SealRetired(epoch) => SealRetiredKeeps(w, epoch, root, derive);
    case SendMessages(count) => SendMessagesKeeps(w, count, root, derive);
    case DeliverUpdate(u) => DeliverUpdateKeeps(w, u, root, derive);
    case AckOther(number) => AckOtherKeeps(w, number, root, derive);
    case DeliverACK(numbers) => DeliverACKKeeps(w, numbers, root, derive);
  }

  lemma StepKeeps(w: World, step: Step, root: Bytes, derive: Bytes -> Bytes)
    requires Inv(w, root, derive)
    ensures Inv(Next(w, step, derive), root, derive)
  {
    StepKeepsCore(w, step, root, derive);
    RetiredKeeps(w, step, root, derive);
    RememberedKeeps(w, step, derive);
  }

  lemma {:induction false} RunKeeps(w: World, steps: seq<Step>, root: Bytes, derive: Bytes -> Bytes)
    requires Inv(w, root, derive)
    ensures Inv(Run(w, steps, derive), root, derive)
  {
    if steps != [] {
      RunKeeps(w, steps[..|steps| - 1], root, derive);
      StepKeeps(Run(w, steps[..|steps| - 1], derive), steps[|steps| - 1], root, derive);
    }
  }

  lemma StartIsGood(secret: Bytes, handshakeSecret: Bytes, negotiated: Option<Bytes>, messageSequence: nat,
                    recordLimit: nat, derive: Bytes -> Bytes)
    requires messageSequence < U16_LIMIT && (negotiated.Some? ==> |negotiated.value| <= 255)
    ensures Inv(Start(secret, handshakeSecret, negotiated, messageSequence, recordLimit), secret, derive)
  {
    InitialIsCoherent(secret, handshakeSecret, negotiated);
  }

  /** The ciphers the sender may still seal with, or will: the current one, the pending one and those flights hold. */
  ghost predicate Holds(w: World, c: TxCipher) {
    || c == w.sender.cipher
    || (w.sender.pending.Some? && c == w.sender.pending.value.next)
    || (c.epoch in w.retired && c == w.retired[c.epoch])
  }

  /**
   * At an epoch both sides have, they have the same secret, the iterate of that epoch, and the header bits lead to
   * it.
   */
  ghost predicate SharesEpoch(w: World, c: TxCipher, root: Bytes, derive: Bytes -> Bytes) {
    var ciphers := w.receiver.epochs.ciphers;
    c.epoch in ciphers ==>
      && c.epoch >= 3 && c.secret == ciphers[c.epoch].secret == Iterate(derive, root, c.epoch - 3)
      && forall choice :: Selects(w.receiver.epochs, c.epoch % 4, choice) ==> choice == Some(c.epoch)
  }

  /** The receiver is at the sender's epoch, which it holds, or one ahead while an update is pending, and then it holds
      the pending epoch too; the secrets agree at every shared epoch. */
  ghost predicate InStep(w: World, root: Bytes, derive: Bytes -> Bytes) {
    var epoch := w.sender.cipher.epoch;
    && 3 <= epoch <= w.receiver.current <= epoch + 1
    && (w.receiver.current == epoch + 1
        ==> w.sender.pending.Some? && w.sender.pending.value.next.epoch == w.receiver.current)
    && w.receiver.secret == Iterate(derive, root, w.receiver.current - 3)
    && {epoch, w.receiver.current} <= w.receiver.epochs.ciphers.Keys
    && w.sender.secret == w.sender.cipher.secret
    && forall c :: Holds(w, c) ==> SharesEpoch(w, c, root, derive)
  }

  lemma InstalledIsSelected(r: Receiver, epoch: nat, choice: Option<nat>)
    requires KeysCoherent(r) && epoch in r.epochs.ciphers && Selects(r.epochs, epoch % 4, choice)
    ensures choice == Some(epoch)
  {
    assert Candidate(r.epochs, epoch % 4, epoch);
    InstalledAreDistinct(r.current, epoch, choice.value);
  }

  lemma InstalledSelects(r: Receiver, epoch: nat)
    requires KeysCoherent(r) && epoch in r.epochs.ciphers
    ensures Selects(r.epochs, epoch % 4, Some(epoch))
  {
    InstalledAreDistinct(r.current, epoch, epoch);
    forall e: nat | Candidate(r.epochs, epoch % 4, e) ensures e <= epoch { InstalledAreDistinct(r.current, epoch, e); }
  }

  lemma HeldCiphersAgree(w: World, c: TxCipher, root: Bytes, derive: Bytes -> Bytes)
    requires SecretsAgree(w, root, derive) && RetiredAgree(w, root, derive) && Holds(w, c)
    ensures SharesEpoch(w, c, root, derive)
  {
    hide CidCoherent, Candidate;
    if c.epoch in w.receiver.epochs.ciphers {
      forall choice | Selects(w.receiver.epochs, c.epoch % 4, choice) ensures choice == Some(c.epoch) {
        InstalledIsSelected(w.receiver, c.epoch, choice);
      }
    }
  }

  lemma GoodIsInStep(w: World, root: Bytes, derive: Bytes -> Bytes)
    requires Inv(w, root, derive)
    ensures InStep(w, root, derive)
  {
    InstalledAreDistinct(w.receiver.current, w.receiver.current, w.receiver.current);
    forall c | Holds(w, c) ensures SharesEpoch(w, c, root, derive) { HeldCiphersAgree(w, c, root, derive); }
  }

  /** Every reachable state is in step. */
  lemma EpochsMoveInLockstep(secret: Bytes, handshakeSecret: Bytes, negotiated: Option<Bytes>, messageSequence: nat,
                             recordLimit: nat, steps: seq<Step>, derive: Bytes -> Bytes)
    requires messageSequence < U16_LIMIT && (negotiated.Some? ==> |negotiated.value| <= 255)
    ensures InStep(Run(Start(secret, handshakeSecret, negotiated, messageSequence, recordLimit), steps, derive), secret,
                   derive)
  {
    var start := Start(secret, handshakeSecret, negotiated, messageSequence, recordLimit);
    StartIsGood(secret, handshakeSecret, negotiated, messageSequence, recordLimit, derive);
    RunKeeps(start, steps, secret, derive);
    GoodIsInStep(Run(start, steps, derive), secret, derive);
  }

  /** No number is sealed twice at one epoch, whichever ciphers retransmitting flights still hold; all stay inside the
      48-bit space and the AEAD limit; and no two committed messages share a message_seq, up to and including 65535. */
  lemma NumbersAreNeverReused(secret: Bytes, handshakeSecret: Bytes, negotiated: Option<Bytes>, messageSequence: nat,
                              recordLimit: nat, steps: seq<Step>, derive: Bytes -> Bytes)
    requires messageSequence < U16_LIMIT && (negotiated.Some? ==> |negotiated.value| <= 255)
    ensures var w := Run(Start(secret, handshakeSecret, negotiated, messageSequence, recordLimit), steps, derive);
            && Distinct(w.sealed) && Distinct(w.messages)
            && (forall n :: n in w.sealed ==> n.sequence < U48_LIMIT && n.sequence < w.sender.cipher.recordLimit)
            && (forall m :: m in w.messages ==> m < U16_LIMIT)
  {
    StartIsGood(secret, handshakeSecret, negotiated, messageSequence, recordLimit, derive);
    RunKeeps(Start(secret, handshakeSecret, negotiated, messageSequence, recordLimit), steps, secret, derive);
  }

  // ---------------------------------------------------------------- an update can complete

  /** The receiver still opens every transmission of the pending update, also after it processed one of them. */
  lemma PendingOpens(w: World, u: KeyUpdateRecord, root: Bytes, derive: Bytes -> Bytes)
    requires SecretsAgree(w, root, derive) && Lockstep(w) && u in w.updates && u.number.epoch == w.sender.cipher.epoch
    ensures Opens(w.receiver, u)
  {
    InstalledAreDistinct(w.receiver.current, w.receiver.current, w.receiver.current);
    InstalledSelects(w.receiver, u.number.epoch);
  }

  lemma ArrivalIsAcked(w: World, u: KeyUpdateRecord, root: Bytes, derive: Bytes -> Bytes)
    requires Core(w, root, derive) && u in w.updates && u.number.epoch == w.sender.cipher.epoch
    ensures var w' := Next(w, DeliverUpdate(u), derive);
            w'.sender == w.sender && u.number in w'.acked && Core(w', root, derive)
  {
    PendingOpens(w, u, root, derive);
    DeliverForm(w, u, root, derive);
    DeliverUpdateKeeps(w, u, root, derive);
  }

  lemma AckPromotes(w: World, n: RecordNumber, derive: Bytes -> Bytes)
    requires Lockstep(w) && AcksAreHonest(w) && w.sender.pending.Some? && n in w.acked
             && n in w.sender.pending.value.records
    ensures var w' := Next(w, DeliverACK([n]), derive);
            && w'.sender
              == w.sender.(secret := w.sender.pending.value.next.secret, cipher := w.sender.pending.value.next,
                           pending := None)
            && w'.receiver == w.receiver && w.receiver.current == w.sender.cipher.epoch + 1
  {
    assert n in [n] && Acknowledges(w.sender, [n]);
    AckMeansProcessed(w, [n]);
  }

  /**
   * From any reachable state, any transmission of the pending update that arrives, and its ACK, complete the update.
   */
  lemma DeliveryCompletes(w: World, u: KeyUpdateRecord, root: Bytes, derive: Bytes -> Bytes)
    requires Inv(w, root, derive) && w.sender.pending.Some? && u in w.updates
    requires u.number.epoch == w.sender.cipher.epoch
    ensures Completed(w, Next(Next(w, DeliverUpdate(u), derive), DeliverACK([u.number]), derive), derive)
  {
    assert Transmits(u, w.sender.pending.value);
    ArrivalIsAcked(w, u, root, derive);
    AckPromotes(Next(w, DeliverUpdate(u), derive), u.number, derive);
  }

  /**
   * A sender with no update pending, a message number and a record number left, and a next epoch, can complete an
   * update: the record it sends asks for what was requested, and its arrival and ACK move both sides on.
   */
  lemma BegunUpdateCompletes(w: World, requestUpdate: bool, root: Bytes, derive: Bytes -> Bytes)
    requires Inv(w, root, derive) && w.sender.pending.None? && w.sender.cipher.epoch < MAX_SENDING_EPOCH
    requires !w.sender.exhausted && CanSeal(w.sender.cipher)
    ensures var u := KeyUpdateRecord(NextNumber(w.sender.cipher), w.sender.cipher.secret, w.sender.messageSequence,
                                     requestUpdate);
            var sent := Next(w, Begin(requestUpdate), derive);
            && sent.updates == w.updates + {u} && sent.messages == w.messages + [u.messageSequence]
            && Completed(w, Next(Next(sent, DeliverUpdate(u), derive), DeliverACK([u.number]), derive), derive)
  {
    hide SecretsAgree, Lockstep, AcksAreHonest, NumbersBounded, Distinct, Completed;
    var u := KeyUpdateRecord(NextNumber(w.sender.cipher), w.sender.cipher.secret, w.sender.messageSequence,
                             requestUpdate);
    var sent := Next(w, Begin(requestUpdate), derive);
    StepKeeps(w, Begin(requestUpdate), root, derive);
    DeliveryCompletes(sent, u, root, derive);
    SameStart(w, sent, Next(Next(sent, DeliverUpdate(u), derive), DeliverACK([u.number]), derive), derive);
  }

  lemma SameStart(w: World, sent: World, w': World, derive: Bytes -> Bytes)
    requires Completed(sent, w', derive)
    requires sent.sender.cipher.epoch == w.sender.cipher.epoch && sent.sender.secret == w.sender.secret
    ensures Completed(w, w', derive)
  {}

  /** A pending update can be sent again, and the arrival and ACK of that transmission complete it as well. */
  lemma ResentUpdateCompletes(w: World, root: Bytes, derive: Bytes -> Bytes)
    requires Inv(w, root, derive) && w.sender.pending.Some? && CanSeal(w.sender.cipher)
    ensures var update := w.sender.pending.value;
            var u := KeyUpdateRecord(NextNumber(w.sender.cipher), w.sender.cipher.secret, update.messageSequence,
                                     update.requestUpdate);
            var sent := Next(w, Retransmit, derive);
            && sent.updates == w.updates + {u} && sent.messages == w.messages
            && Completed(w, Next(Next(sent, DeliverUpdate(u), derive), DeliverACK([u.number]), derive), derive)
  {
    hide Core, Completed;
    var update := w.sender.pending.value;
    var u := KeyUpdateRecord(NextNumber(w.sender.cipher), w.sender.cipher.secret, update.messageSequence,
                             update.requestUpdate);
    var sent := Next(w, Retransmit, derive);
    StepKeeps(w, Retransmit, root, derive);
    DeliveryCompletes(sent, u, root, derive);
    SameStart(w, sent, Next(Next(sent, DeliverUpdate(u), derive), DeliverACK([u.number]), derive), derive);
  }

  /** Whichever transmission arrives first tells the receiver what was requested; later ones tell it again. */
  lemma RequestArrives(w: World, u: KeyUpdateRecord, root: Bytes, derive: Bytes -> Bytes)
    requires Inv(w, root, derive) && w.sender.pending.Some? && u in w.updates
    requires u.number.epoch == w.sender.cipher.epoch
    ensures Opens(w.receiver, u)
    ensures var request := w.sender.pending.value.requestUpdate;
            ProcessKeyUpdate(w.receiver, u.messageSequence, Body(u.requestUpdate), derive).1
            == if w.receiver.current == w.sender.cipher.epoch then Updated(request) else Ignored(request)
  {
    assert Transmits(u, w.sender.pending.value);
    PendingOpens(w, u, root, derive);
    KeyUpdateMeaning(w.receiver, u.messageSequence, Body(u.requestUpdate), derive);
    KeyUpdateBodies(Body(u.requestUpdate));
  }

  /** The sender has moved to the next epoch and the derived secret, where the receiver already is. */
  ghost predicate Completed(w: World, w': World, derive: Bytes -> Bytes) {
    && w'.sender.pending == None && w'.sender.cipher.epoch == w.sender.cipher.epoch + 1 == w'.receiver.current
    && w'.sender.secret == w'.sender.cipher.secret == derive(w.sender.secret) == w'.receiver.secret
    && w'.sender.cipher.nextSequence == 0
  }
}
