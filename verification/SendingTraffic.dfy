/** The sending side of key updates: the next epoch is not used until the peer acknowledges the KeyUpdate. */
module SendingTraffic {
  import opened Wire
  import opened RecordNumbers

  /** A sending cipher: the secret its keys were derived from, and how many records it sealed. */
  datatype TxCipher = TxCipher(epoch: nat, secret: Bytes, nextSequence: nat, recordLimit: nat)

  predicate CanSeal(c: TxCipher) {
    c.epoch <= MAX_SENDING_EPOCH && c.nextSequence < U48_LIMIT && c.nextSequence < c.recordLimit
  }

  function NextNumber(c: TxCipher): RecordNumber {
    RecordNumber(c.epoch, c.nextSequence)
  }

  function AfterSealing(c: TxCipher): TxCipher {
    c.(nextSequence := c.nextSequence + 1)
  }

  /**
   * A KeyUpdate awaiting acknowledgement: the records it was sent in and the cipher that will replace the current
   * one.
   */
  datatype Update = Update(records: seq<RecordNumber>, messageSequence: nat, requestUpdate: bool, next: TxCipher)

  datatype Sender = Sender(
    secret: Bytes,
    cipher: TxCipher,
    pending: Option<Update>,
    messageSequence: nat,
    exhausted: bool)

  /** A KeyUpdate on the wire: its number, the secret it is protected under, and its content. */
  datatype KeyUpdateRecord = KeyUpdateRecord(number: RecordNumber, secret: Bytes, messageSequence: nat,
                                             requestUpdate: bool)

  predicate CanAllocate(s: Sender, count: nat) {
    count == 0 || (!s.exhausted && s.messageSequence + count <= U16_LIMIT)
  }

  /** The last 16-bit number is used once; after it only the exhausted flag moves. */
  function CommitSequences(s: Sender, count: nat): Sender {
    var next := s.messageSequence + count;
    if next == U16_LIMIT then s.(exhausted := true) else s.(messageSequence := next % U16_LIMIT)
  }

  /** There are exactly 65536 message numbers: after committing some, just as many remain as were not yet used. */
  lemma CommittedNumbersAreSpent(s: Sender, count: nat, more: nat)
    requires s.messageSequence < 0x1_0000 && CanAllocate(s, count)
    ensures var after := CommitSequences(s, count);
            && after == s.(messageSequence := after.messageSequence, exhausted := after.exhausted)
            && (!s.exhausted
                ==> (CanAllocate(after, more) <==> more == 0 || s.messageSequence + count + more <= 0x1_0000))
            && (s.exhausted ==> (CanAllocate(after, more) <==> more == 0))
            && (!after.exhausted ==> after.messageSequence == s.messageSequence + count)
  {}

  function BeginKeyUpdate(s: Sender, requestUpdate: bool, derive: Bytes -> Bytes): Option<(Sender, KeyUpdateRecord)> {
    if s.pending.Some? || s.cipher.epoch >= MAX_SENDING_EPOCH || !CanAllocate(s, 1) || !CanSeal(s.cipher) then None
    else
      var number := NextNumber(s.cipher);
      var next := TxCipher(s.cipher.epoch + 1, derive(s.secret), 0, s.cipher.recordLimit);
      var update := Update([number], s.messageSequence, requestUpdate, next);
      Some((CommitSequences(s.(cipher := AfterSealing(s.cipher), pending := Some(update)), 1),
            KeyUpdateRecord(number, s.cipher.secret, s.messageSequence, requestUpdate)))
  }

  function RetransmitKeyUpdate(s: Sender): Option<(Sender, KeyUpdateRecord)> {
    if s.pending.None? || !CanSeal(s.cipher) then None
    else
      var number, update := NextNumber(s.cipher), s.pending.value;
      Some((s.(cipher := AfterSealing(s.cipher), pending := Some(update.(records := update.records + [number]))),
            KeyUpdateRecord(number, s.cipher.secret, update.messageSequence, update.requestUpdate)))
  }

  predicate Acknowledges(s: Sender, numbers: seq<RecordNumber>) {
    s.pending.Some? && exists n :: n in numbers && n in s.pending.value.records
  }

  function ProcessACK(s: Sender, numbers: seq<RecordNumber>): Sender {
    if !Acknowledges(s, numbers) then s
    else s.(secret := s.pending.value.next.secret, cipher := s.pending.value.next, pending := None)
  }

  class TxCipherState {
    const epoch: nat
    const secret: Bytes
    const recordLimit: nat
    var nextSequence: nat

    function View(): TxCipher
      reads this
    {
      TxCipher(epoch, secret, nextSequence, recordLimit)
    }

    constructor (epoch: nat, secret: Bytes, recordLimit: nat)
      ensures View() == TxCipher(epoch, secret, 0, recordLimit)
    {
      this.epoch, this.secret, this.recordLimit, nextSequence := epoch, secret, recordLimit, 0;
    }

    method Seal() returns (ok: bool)
      modifies this
      ensures ok == CanSeal(old(View()))
      ensures View() == if ok then AfterSealing(old(View())) else old(View())
    {
      if epoch > MAX_SENDING_EPOCH || nextSequence >= U48_LIMIT || nextSequence >= recordLimit { return false; }
      nextSequence := nextSequence + 1;
      return true;
    }
  }

  /** The sending object: two secret buffers that trade places when an update is acknowledged. */
  class SendingState {
    const derive: Bytes -> Bytes
    const hashSize: nat
    var secret: array<Byte>
    var nextSecret: array<Byte>
    var cipher: TxCipherState
    var pendingCipher: TxCipherState?
    var pending: bool
    var records: seq<RecordNumber>
    var fragmentSequence: nat
    var fragmentRequest: bool
    var messageSequence: nat
    var exhausted: bool

    ghost predicate Valid()
      reads this, secret, nextSecret, cipher, pendingCipher
    {
      && secret != nextSecret
      && secret.Length == hashSize
      && (forall s :: |derive(s)| == hashSize)
      && secret[..] == cipher.secret
      && (pending ==>
            && pendingCipher != null && pendingCipher != cipher && nextSecret[..] == pendingCipher.secret
            && nextSecret.Length == hashSize)
    }

    function View(): Sender
      requires pending ==> pendingCipher != null
      reads this, secret, cipher, pendingCipher
    {
      Sender(secret[..], cipher.View(),
             if pending then Some(Update(records, fragmentSequence, fragmentRequest, pendingCipher.View())) else None,
             messageSequence, exhausted)
    }

    constructor (derive: Bytes -> Bytes, hashSize: nat, secret: array<Byte>, epoch: nat, messageSequence: nat,
                 recordLimit: nat)
      requires (forall s :: |derive(s)| == hashSize) && secret.Length == hashSize
      ensures Valid() && !pending
      ensures View() == Sender(secret[..], TxCipher(epoch, secret[..], 0, recordLimit), None, messageSequence, false)
    {
      this.derive, this.hashSize, this.secret := derive, hashSize, secret;
      this.messageSequence, exhausted := messageSequence, false;
      cipher := new TxCipherState(epoch, secret[..], recordLimit);
      pendingCipher, pending, records, fragmentSequence, fragmentRequest := null, false, [], 0, false;
      nextSecret := new Byte[0];
    }

    method Commit(count: nat)
      requires messageSequence + count <= U16_LIMIT
      modifies this`messageSequence, this`exhausted
      ensures messageSequence == if old(messageSequence) + count == U16_LIMIT then old(messageSequence)
              else (old(messageSequence) + count) % U16_LIMIT
      ensures exhausted == (old(exhausted) || old(messageSequence) + count == U16_LIMIT)
    {
      if messageSequence + count == U16_LIMIT {
        exhausted := true;
        return;
      }
      messageSequence := messageSequence + count;
    }

    /** The spare buffer is reused when it has the right size. */
    method DeriveNext()
      requires secret != nextSecret && forall s :: |derive(s)| == hashSize
      modifies this`nextSecret, nextSecret
      ensures nextSecret == old(nextSecret) || fresh(nextSecret)
      ensures nextSecret.Length == hashSize && nextSecret[..] == derive(old(secret[..]))
    {
      if nextSecret.Length != hashSize {
        nextSecret := new Byte[hashSize];
      }
      var derived := derive(secret[..]);
      forall i | 0 <= i < hashSize { nextSecret[i] := derived[i]; }
      assert nextSecret[..] == derived;
    }

    /** Records the update as pending and derives the cipher that will follow it. */
    method Prepare(number: RecordNumber, requestUpdate: bool)
      requires Valid() && !pending
      modifies this, nextSecret
      ensures Valid() && cipher == old(cipher) && messageSequence == old(messageSequence) && exhausted == old(exhausted)
      ensures var s := old(View());
              View() == s.(pending := Some(Update([number], s.messageSequence, requestUpdate,
                                                  TxCipher(s.cipher.epoch + 1, derive(s.secret), 0,
                                                           s.cipher.recordLimit))))
    {
      fragmentSequence, fragmentRequest, records := messageSequence, requestUpdate, [number];
      DeriveNext();
      pendingCipher := new TxCipherState(cipher.epoch + 1, nextSecret[..], cipher.recordLimit);
      pending := true;
    }

    method Begin(requestUpdate: bool) returns (sent: Option<KeyUpdateRecord>)
      requires Valid()
      modifies this, cipher, nextSecret
      ensures Valid()
      ensures match BeginKeyUpdate(old(View()), requestUpdate, derive)
              case None => sent == None && View() == old(View())
              case Some(result) => sent == Some(result.1) && View() == result.0
    {
      if pending || cipher.epoch >= MAX_SENDING_EPOCH || exhausted || messageSequence + 1 > U16_LIMIT { return None; }
      var number := RecordNumber(cipher.epoch, cipher.nextSequence);
      var sealed := cipher.Seal();
      if !sealed { return None; }
      sent := Some(KeyUpdateRecord(number, cipher.secret, messageSequence, requestUpdate));
      Prepare(number, requestUpdate);
      Commit(1);
    }

    method Retransmit() returns (sent: Option<KeyUpdateRecord>)
      requires Valid()
      modifies this, cipher
      ensures Valid()
      ensures match RetransmitKeyUpdate(old(View()))
              case None => sent == None && View() == old(View())
              case Some(result) => sent == Some(result.1) && View() == result.0
    {
      if !pending { return None; }
      var number := RecordNumber(cipher.epoch, cipher.nextSequence);
      var sealed := cipher.Seal();
      if !sealed { return None; }
      records := records + [number];
      return Some(KeyUpdateRecord(number, cipher.secret, fragmentSequence, fragmentRequest));
    }

    /** The buffers are swapped and the old secret is cleared; the promoted secret must survive both. */
    method ApplyACK(numbers: seq<RecordNumber>) returns (promoted: bool)
      requires Valid()
      modifies this, secret
      ensures Valid()
      ensures promoted == Acknowledges(old(View()), numbers)
      ensures View() == ProcessACK(old(View()), numbers)
      ensures promoted ==> forall i :: 0 <= i < nextSecret.Length ==> nextSecret[i] == 0
    {
      if !pending { return false; }
      var k := 0;
      while k < |numbers| && numbers[k] !in records
        invariant k <= |numbers|
        invariant forall i :: 0 <= i < k ==> numbers[i] !in records
      {
        k := k + 1;
      }
      if k == |numbers| { return false; }
      assert numbers[k] in numbers;
      pending, records := false, [];
      var oldSecret := secret;
      secret := nextSecret;
      forall i | 0 <= i < oldSecret.Length { oldSecret[i] := 0; }
      nextSecret := oldSecret;
      cipher := pendingCipher;
      pendingCipher := null;
      return true;
    }
  }
}
