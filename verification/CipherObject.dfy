/** The record cipher as the object that seals into, and opens from, caller buffers. */
module CipherObject {
  import opened Wire
  import opened SequenceNumbers
  import opened RecordCipher
  import ConnectionIds
  import Replay

  class CipherState {
    const epoch: nat
    const keys: Keys
    const replay: Replay.ReplayWindow
    const recordLimit: nat
    const authFailureLimit: nat
    var nextSequence: nat
    var lastOpened: nat
    var authFailures: nat
    var connectionID: Bytes
    var hasConnectionID: bool
    var plaintextLimit: nat
    var acceptedCIDs: seq<Bytes>
    var lastConnectionID: Bytes

    function View(): Cipher
      reads this, replay
    {
      Cipher(epoch, keys, nextSequence, lastOpened, replay.View(), authFailures, connectionID, hasConnectionID,
             plaintextLimit, acceptedCIDs, lastConnectionID, recordLimit, authFailureLimit)
    }

    constructor (keys: Keys, epoch: nat, replaySize: nat, recordLimit: nat, authFailureLimit: nat)
      ensures View()
              == Cipher(epoch, keys, 0, 0, Replay.NewWindow(replaySize), 0, [], false, 0, [], [], recordLimit,
                        authFailureLimit)
      ensures fresh(replay)
    {
      this.epoch, this.keys := epoch, keys;
      this.recordLimit, this.authFailureLimit := recordLimit, authFailureLimit;
      nextSequence, lastOpened, authFailures := 0, 0, 0;
      connectionID, hasConnectionID, plaintextLimit, acceptedCIDs, lastConnectionID := [], false, 0, [], [];
      replay := new Replay.ReplayWindow(replaySize);
    }

    /** Seals in one buffer: header, plaintext over which the ciphertext is written, then the masked sequence bytes. */
    method SealInto(dst: array<Byte>, contentType: Byte, content: Bytes, sequence16: bool, lengthPresent: bool)
      returns (outcome: Sealing, packet: array<Byte>)
      requires 8 <= |keys.iv| && CorrectAead(keys)
      modifies this`nextSequence, dst
      ensures outcome == Seal(old(View()), contentType, content, sequence16, lengthPresent)
      ensures View() == AfterSeal(old(View()), outcome)
      ensures outcome.Sealed? ==> packet.Length >= |outcome.packet| && packet[..|outcome.packet|] == outcome.packet
      ensures packet == dst || fresh(packet)
    {
      packet := dst;
      var refusal := SealRefusal(View(), contentType, |content|);
      if refusal.Some? {
        return SealFailed(refusal.value), dst;
      }
      packet := Reserve(dst, |PlainHeader(View(), sequence16, lengthPresent, 0)| + |content| + 1 + keys.overhead);
      outcome := SealPacket(View(), packet, contentType, content, sequence16, lengthPresent);
      if outcome.Sealed? { nextSequence := nextSequence + 1; }
    }

    /**
     * Opens the record at `from`. Opening in place writes the plaintext over the ciphertext and touches nothing else.
     */
    method OpenRecord(datagram: array<Byte>, from: nat, inPlace: bool) returns (outcome: Opening, contentAt: nat)
      requires 8 <= |keys.iv| && from <= datagram.Length && Shrinks(keys)
      modifies this, replay, datagram
      ensures (outcome, View()) == Open(old(View()), old(datagram[from..]))
      ensures !inPlace ==> datagram[..] == old(datagram[..])
      ensures outcome.Opened? ==> from + outcome.consumed <= datagram.Length
      ensures outcome.Opened? ==> datagram[from + outcome.consumed..] == old(datagram[from + outcome.consumed..])
      ensures outcome.Opened? && inPlace ==>
                contentAt + |outcome.content| <= datagram.Length
                  && datagram[contentAt..contentAt + |outcome.content|] == outcome.content
    {
      var input := datagram[from..];
      var located := Locate(View(), input);
      if located.Rejected? {
        return OpenFailed(located.error), from;
      }
      LocateBounds(View(), input);
      var l := located.layout;
      contentAt := from + l.headerLen;
      var header := UnmaskedHeader(View(), l, input);
      assert CiphertextOf(l, input) == datagram[contentAt..contentAt + l.ciphertextLen];
      outcome := DecryptAt(l, header, datagram, contentAt, inPlace);
    }

    /** Decrypts the ciphertext at `at`, and commits the record if it is acceptable. */
    method DecryptAt(l: Layout, header: Bytes, datagram: array<Byte>, at: nat, inPlace: bool) returns (outcome: Opening)
      requires 8 <= |keys.iv| && at + l.ciphertextLen <= datagram.Length && Shrinks(keys)
      requires 1 + |l.cid| + SequenceWidth(l.sequence16) <= |header|
      modifies this, replay, datagram
      ensures (outcome, View()) == Decrypt(old(View()), l, header, old(datagram[at..at + l.ciphertextLen]))
      ensures !inPlace ==> datagram[..] == old(datagram[..])
      ensures datagram[at + l.ciphertextLen..] == old(datagram[at + l.ciphertextLen..])
      ensures outcome.Opened?
              ==> outcome.consumed == l.headerLen + l.ciphertextLen && |outcome.content| <= l.ciphertextLen
      ensures outcome.Opened? && inPlace ==> datagram[at..at + |outcome.content|] == outcome.content
    {
      hide Nonce, SequenceOf, Commit;
      var sequence := SequenceOf(View(), l, header);
      if sequence >= U48_LIMIT {
        return OpenFailed(BadSequence);
      }
      var nonce := new Byte[|keys.iv|];
      NonceInto(keys.iv, sequence, nonce);
      assert nonce[..] == Nonce(keys.iv, sequence);
      var decrypted := keys.open(nonce[..], datagram[at..at + l.ciphertextLen], header);
      if decrypted.None? {
        if authFailures < U64_LIMIT - 1 { authFailures := authFailures + 1; }
        return OpenFailed(if authFailures >= authFailureLimit then AuthenticationLimit else AuthenticationFailed);
      }
      if inPlace {
        Write(datagram, at, decrypted.value);
        assert datagram[at + l.ciphertextLen..]
               == datagram[at + |decrypted.value|..][l.ciphertextLen - |decrypted.value|..];
      }
      outcome := CommitRecord(l, sequence, decrypted.value);
      if inPlace && outcome.Opened? {
        assert datagram[at..at + |outcome.content|] == datagram[at..at + |decrypted.value|][..|outcome.content|];
      }
    }

    method CommitRecord(l: Layout, sequence: nat, plain: Bytes) returns (outcome: Opening)
      modifies this, replay
      ensures (outcome, View()) == Commit(old(View()), l, sequence, plain)
      ensures outcome.Opened? ==> outcome.consumed == l.headerLen + l.ciphertextLen && outcome.content <= plain
    {
      outcome := Inner(View(), plain, l.headerLen + l.ciphertextLen);
      if outcome.OpenFailed? { return; }
      var unseen := replay.CheckSequence(sequence);
      if !unseen {
        return OpenFailed(Replayed);
      }
      replay.AcceptSequence(sequence);
      lastOpened := sequence;
      if hasConnectionID { lastConnectionID := l.cid; }
    }
  }

  /** The given buffer, or a new one when it is too small. */
  method Reserve(dst: array<Byte>, n: nat) returns (packet: array<Byte>)
    ensures packet.Length >= n && (packet == dst || fresh(packet))
  {
    packet := dst;
    if dst.Length < n { packet := new Byte[n]; }
  }

  lemma SealForm(c: Cipher, contentType: Byte, content: Bytes, sequence16: bool, lengthPresent: bool)
    requires 8 <= |c.keys.iv| && CorrectAead(c.keys) && SealRefusal(c, contentType, |content|) == None
    ensures var n := |content| + 1 + c.keys.overhead;
            var header := PlainHeader(c, sequence16, lengthPresent, n);
            var ciphertext := c.keys.seal(Nonce(c.keys.iv, c.nextSequence), content + [contentType], header);
            var at, width := 1 + |c.connectionID|, SequenceWidth(sequence16);
            && |ciphertext| == n && at + width <= |header|
            && Seal(c, contentType, content, sequence16, lengthPresent)
               == if n < SAMPLE_SIZE then SealFailed(SealSampleTooShort)
                  else Sealed(MaskAt(header, at, width, c.keys.mask(ciphertext[..SAMPLE_SIZE])) + ciphertext)
  {}

  /** A plaintext is never longer than its ciphertext. */
  ghost predicate Shrinks(k: Keys) {
    forall nonce, ciphertext, header :: k.open(nonce, ciphertext, header).Some?
      ==> |k.open(nonce, ciphertext, header).value| <= |ciphertext|
  }

  /** The IV is copied and the eight sequence bytes are folded in from the end. */
  method NonceInto(iv: Bytes, sequence: nat, nonce: array<Byte>)
    requires 8 <= |iv| <= nonce.Length
    modifies nonce
    ensures nonce[..|iv|] == Nonce(iv, sequence)
  {
    hide PutUint, Xor, Radix;
    var n := |iv|;
    Write(nonce, 0, iv);
    assert forall k :: 0 <= k < n ==> nonce[k] == nonce[0..n][k];
    ghost var target := PutUint(sequence, 8);
    for i := 0 to 8
      invariant forall k :: 0 <= k < n - i ==> nonce[k] == iv[k]
      invariant forall k :: n - i <= k < n ==> nonce[k] == Xor(iv[k], target[k - (n - 8)])
    {
      ByteOfUint(sequence, 8, i);
      nonce[n - 1 - i] := Xor(nonce[n - 1 - i], sequence / Radix(i) % 256);
    }
    assert nonce[..n] == Nonce(iv, sequence);
  }

  method SealPacket(c: Cipher, packet: array<Byte>, contentType: Byte, content: Bytes, sequence16: bool,
                    lengthPresent: bool)
    returns (outcome: Sealing)
    requires 8 <= |c.keys.iv| && CorrectAead(c.keys) && SealRefusal(c, contentType, |content|) == None
    requires packet.Length >= |PlainHeader(c, sequence16, lengthPresent, 0)| + |content| + 1 + c.keys.overhead
    modifies packet
    ensures outcome == Seal(c, contentType, content, sequence16, lengthPresent)
    ensures outcome.Sealed? ==> packet.Length >= |outcome.packet| && packet[..|outcome.packet|] == outcome.packet
  {
    hide Nonce, FirstByte, MaskAt, Seal;
    var ciphertextLen := |content| + 1 + c.keys.overhead;
    var header := PlainHeader(c, sequence16, lengthPresent, ciphertextLen);
    SealForm(c, contentType, content, sequence16, lengthPresent);
    var nonce := new Byte[|c.keys.iv|];
    NonceInto(c.keys.iv, c.nextSequence, nonce);
    assert nonce[..] == Nonce(c.keys.iv, c.nextSequence);
    var long := BuildPacket(c.keys, packet, header, 1 + |c.connectionID|, SequenceWidth(sequence16), nonce[..],
                            content + [contentType]);
    if !long {
      return SealFailed(SealSampleTooShort);
    }
    outcome := Sealed(packet[..|header| + ciphertextLen]);
  }

  /** Writes header and plaintext, encrypts over the plaintext and masks the header, all in `packet`. */
  method BuildPacket(keys: Keys, packet: array<Byte>, header: Bytes, at: nat, width: nat, nonce: Bytes, plain: Bytes)
    returns (long: bool)
    requires CorrectAead(keys) && packet.Length >= |header| + |plain| + keys.overhead
    requires 1 <= width <= 2 && at + width <= |header|
    modifies packet
    ensures var ciphertext := keys.seal(nonce, plain, header);
            && (long <==> |ciphertext| >= SAMPLE_SIZE)
            && (long ==>
                  packet[..|header| + |plain| + keys.overhead]
                  == MaskAt(header, at, width, keys.mask(ciphertext[..SAMPLE_SIZE])) + ciphertext)
  {
    var n, m := |header|, |header| + |plain| + keys.overhead;
    Write(packet, 0, header);
    Write(packet, n, plain);
    assert packet[..n] == header;
    var ciphertext := keys.seal(nonce, packet[n..n + |plain|], packet[..n]);
    Write(packet, n, ciphertext);
    assert packet[..n] == header && packet[n..m] == ciphertext;
    if |ciphertext| < SAMPLE_SIZE { return false; }
    var mask := keys.mask(ciphertext[..SAMPLE_SIZE]);
    Write(packet, 0, MaskAt(packet[..n], at, width, mask));
    assert packet[n..m] == packet[n..][..m - n];
    assert packet[..m] == packet[0..n] + packet[n..m];
    return true;
  }

  method Write(a: array<Byte>, at: nat, bytes: Bytes)
    requires at + |bytes| <= a.Length
    modifies a
    ensures a[at..at + |bytes|] == bytes
    ensures a[..at] == old(a[..at]) && a[at + |bytes|..] == old(a[at + |bytes|..])
  {
    for k := 0 to |bytes|
      invariant a[at..at + k] == bytes[..k]
      invariant a[..at] == old(a[..at]) && a[at + k..] == old(a[at + k..])
    {
      a[at + k] := bytes[k];
      assert a[at..at + k + 1] == a[at..at + k] + [bytes[k]];
    }
  }
}
