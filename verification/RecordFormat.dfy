/** The bytes of a protected record, field by field (section 4 of RFC 9147). */
module RecordFormat {
  import opened Wire
  import opened ConnectionIds
  import opened RecordCipher
  import RecordRoundTrip
  import Replay

  lemma {:induction false} LowBytesOfUint(value: nat)
    ensures PutUint(value, 1) == [value % 256]
    ensures PutUint(value, 2) == [value / 256 % 256, value % 256]
  {
    assert PutUint(value, 1) == PutUint(value / 256, 0) + [value % 256];
    assert PutUint(value, 2) == PutUint(value / 256, 1) + [value % 256];
    assert PutUint(value / 256, 1) == PutUint(value / 256 / 256, 0) + [value / 256 % 256];
  }

  /** What is authenticated: flags, connection ID, the low bytes of the number and, if wanted, the length. */
  function Header(c: Cipher, sequence16: bool, lengthPresent: bool, length: nat): Bytes {
    [FirstByte(c.epoch, c.hasConnectionID, sequence16, lengthPresent)] + c.connectionID
    + (if sequence16 then [c.nextSequence / 256 % 256, c.nextSequence % 256] else [c.nextSequence % 256])
    + (if lengthPresent then [length / 256 % 256, length % 256] else [])
  }

  lemma HeaderBytes(c: Cipher, sequence16: bool, lengthPresent: bool, length: nat)
    ensures PlainHeader(c, sequence16, lengthPresent, length) == Header(c, sequence16, lengthPresent, length)
  {
    LowBytesOfUint(c.nextSequence);
    LowBytesOfUint(length);
  }

  /**
   * A sealed record is its header, with the sequence bytes masked by the two bytes that belong to the first 16 bytes of
   * the ciphertext, and then the ciphertext of the content followed by its type.
   */
  lemma SealedLayout(c: Cipher, contentType: Byte, content: Bytes, sequence16: bool, lengthPresent: bool,
                     packet: Bytes)
    requires |c.keys.iv| >= 8 && CorrectAead(c.keys)
    requires Seal(c, contentType, content, sequence16, lengthPresent) == Sealed(packet)
    ensures var header := Header(c, sequence16, lengthPresent, |content| + 1 + c.keys.overhead);
            var ciphertext := c.keys.seal(Nonce(c.keys.iv, c.nextSequence), content + [contentType], header);
            var at, n := 1 + |c.connectionID|, |header|;
            && |ciphertext| >= 16 && |packet| == n + |ciphertext| && packet[n..] == ciphertext
            && at + (if sequence16 then 2 else 1) <= n
            && var mask := c.keys.mask(ciphertext[..16]);
            && packet[..at] == header[..at] && Xor(packet[at], header[at]) == mask.0
            && (sequence16 ==> Xor(packet[at + 1], header[at + 1]) == mask.1)
            && (forall k :: at + (if sequence16 then 2 else 1) <= k < n ==> packet[k] == header[k])
  {
    hide Nonce, FirstByte, SealRefusal;
    HeaderBytes(c, sequence16, lengthPresent, |content| + 1 + c.keys.overhead);
    var ciphertext := RecordRoundTrip.SealedForm(c, contentType, content, sequence16, lengthPresent, packet);
    var header := Header(c, sequence16, lengthPresent, |content| + 1 + c.keys.overhead);
    MaskBytes(header, 1 + |c.connectionID|, SequenceWidth(sequence16), c.keys.mask(ciphertext[..SAMPLE_SIZE]));
  }

  /** Content types that may be protected: alert, handshake, application data, heartbeat, ACK, return routability. */
  predicate Inside(contentType: Byte) {
    contentType in {21, 22, 23, 24, 26, 27}
  }

  /** Empty handshake and alert records are refused on both sides. */
  predicate Carries(contentType: Byte, content: Bytes) {
    Inside(contentType) && (content == [] ==> contentType != 21 && contentType != 22)
  }

  /** When a record can be sealed, in numbers. A number is taken exactly then. */
  lemma SealsExactly(c: Cipher, contentType: Byte, content: Bytes, sequence16: bool, lengthPresent: bool)
    requires |c.keys.iv| >= 8 && CorrectAead(c.keys)
    ensures var outcome := Seal(c, contentType, content, sequence16, lengthPresent);
            && (outcome.Sealed? <==>
                  && c.epoch < 0x1_0000_0000_0000 && c.nextSequence < 0x1_0000_0000_0000
                  && c.nextSequence < c.recordLimit
                  && Carries(contentType, content) && |content| <= 16384
                  && (c.plaintextLimit != 0 ==> |content| < c.plaintextLimit)
                  && 16 <= |content| + 1 + c.keys.overhead <= 16384 + 256)
            && AfterSeal(c, outcome).nextSequence == c.nextSequence + (if outcome.Sealed? then 1 else 0)
  {}

  /** A plaintext: the content, its type, and any number of zero bytes. */
  predicate Pads(plain: Bytes, content: Bytes, contentType: Byte) {
    && |content| < |plain| && plain[..|content|] == content && plain[|content|] == contentType != 0
    && forall k :: |content| < k < |plain| ==> plain[k] == 0
  }

  lemma {:induction false} UnpaddedExactly(plain: Bytes, n: nat)
    ensures UnpaddedLength(plain) == n + 1
            <==> n < |plain| && plain[n] != 0 && forall k :: n < k < |plain| ==> plain[k] == 0
  {
    if plain != [] && plain[|plain| - 1] == 0 {
      UnpaddedExactly(plain[..|plain| - 1], n);
    }
  }

  /** An authentic plaintext is opened exactly when it is a content of an allowed type, padded, within the limits. */
  lemma OpensPaddedContent(c: Cipher, plain: Bytes, consumed: nat, content: Bytes, contentType: Byte)
    ensures Inner(c, plain, consumed) == Opened(content, contentType, consumed)
            <==>
              && Pads(plain, content, contentType) && Carries(contentType, content)
              && |plain| <= 16384 + 1 && (c.plaintextLimit != 0 ==> |plain| <= c.plaintextLimit)
  {
    UnpaddedExactly(plain, |content|);
    if UnpaddedLength(plain) > 0 { UnpaddedExactly(plain, UnpaddedLength(plain) - 1); }
  }

  /** Failures to authenticate are counted, each once, and the last one allowed is told apart. */
  lemma FailuresAreCounted(c: Cipher, datagram: Bytes)
    requires |c.keys.iv| >= 8 && c.authFailures < 0xFFFF_FFFF_FFFF_FFFF
    ensures var (outcome, after) := Open(c, datagram);
            var failed := outcome == OpenFailed(AuthenticationFailed) || outcome == OpenFailed(AuthenticationLimit);
            && after.authFailures == c.authFailures + (if failed then 1 else 0)
            && (failed ==> (outcome.error == AuthenticationLimit <==> after.authFailures >= c.authFailureLimit))
  {
    if Locate(c, datagram).Located? { LocateBounds(c, datagram); }
  }

  predicate Flag(first: Byte, value: nat)
    requires value > 0
  {
    first / value % 2 == 1
  }

  /** The layout fits the start of the datagram: flags, connection ID, sequence bytes, length and enough bytes. */
  ghost predicate LaidOut(c: Cipher, datagram: Bytes, l: Layout) {
    && |datagram| >= 2 && datagram[0] / 32 == 1 && datagram[0] % 4 == c.epoch % 4
    && Flag(datagram[0], 16) == c.hasConnectionID && Flag(datagram[0], 8) == l.sequence16
    && (if c.hasConnectionID then l.cid in c.acceptedCIDs && l.cid <= datagram[1..] else l.cid == [])
    && var lengthAt := 1 + |l.cid| + (if l.sequence16 then 2 else 1);
    && l.headerLen == lengthAt + (if Flag(datagram[0], 4) then 2 else 0) <= |datagram|
    && l.ciphertextLen == (if Flag(datagram[0], 4) then GetUint(datagram[lengthAt..lengthAt + 2])
                           else |datagram| - l.headerLen)
    && c.keys.overhead + 1 <= l.ciphertextLen <= 16640 && 16 <= l.ciphertextLen
    && l.headerLen + l.ciphertextLen <= |datagram|
  }

  /** A record is found exactly where it is laid out. */
  lemma LocatesExactly(c: Cipher, datagram: Bytes, l: Layout)
    requires PrefixFree(c.acceptedCIDs)
    ensures Locate(c, datagram) == Located(l) <==> LaidOut(c, datagram, l)
  {
    if |datagram| >= 2 && c.hasConnectionID { MatchIsUnique(c.acceptedCIDs, datagram[1..]); }
    LocatedIsLaidOut(c, datagram, l);
    if LaidOut(c, datagram, l) {
      if c.hasConnectionID {
        assert MatchConnectionID(c.acceptedCIDs, datagram[1..]) == Some(l.cid);
      }
      LaidOutIsLocated(c, datagram, l);
    }
  }

  lemma LocatedIsLaidOut(c: Cipher, datagram: Bytes, l: Layout)
    requires PrefixFree(c.acceptedCIDs)
    ensures Locate(c, datagram) == Located(l) ==> LaidOut(c, datagram, l)
  {
    if |datagram| >= 2 && c.hasConnectionID { MatchIsUnique(c.acceptedCIDs, datagram[1..]); }
  }

  lemma LaidOutIsLocated(c: Cipher, datagram: Bytes, l: Layout)
    requires LaidOut(c, datagram, l)
    requires c.hasConnectionID ==> MatchConnectionID(c.acceptedCIDs, datagram[1..]) == Some(l.cid)
    ensures Locate(c, datagram) == Located(l)
  {}

  /**
   * A record that was found opens exactly when it decrypts under the nonce of its number, holds a padded content within
   * the limits, and the number is fresh. Where none is found nothing opens and nothing changes.
   */
  lemma OpensExactly(c: Cipher, datagram: Bytes, l: Layout, content: Bytes, contentType: Byte, consumed: nat)
    requires |c.keys.iv| >= 8
    ensures Locate(c, datagram).Rejected? ==> Open(c, datagram).0.OpenFailed? && Open(c, datagram).1 == c
    ensures Locate(c, datagram) == Located(l) ==>
              && 1 + |l.cid| + SequenceWidth(l.sequence16) <= l.headerLen
              && l.headerLen + l.ciphertextLen <= |datagram| && SAMPLE_SIZE <= l.ciphertextLen
              && var header := UnmaskedHeader(c, l, datagram);
              var sequence := SequenceOf(c, l, header);
              var decrypted := c.keys.open(Nonce(c.keys.iv, sequence), CiphertextOf(l, datagram), header);
              Open(c, datagram).0 == Opened(content, contentType, consumed)
              <==>
                && sequence < 0x1_0000_0000_0000 && decrypted.Some? && Replay.Check(c.replay, sequence)
                && consumed == l.headerLen + l.ciphertextLen
                && Pads(decrypted.value, content, contentType) && Carries(contentType, content)
                && |decrypted.value| <= 16384 + 1
                && (c.plaintextLimit != 0 ==> |decrypted.value| <= c.plaintextLimit)
  {
    if Locate(c, datagram) == Located(l) {
      LocateBounds(c, datagram);
      hide Locate, UnmaskedHeader, SequenceOf, Nonce, Inner;
      var header := UnmaskedHeader(c, l, datagram);
      var sequence := SequenceOf(c, l, header);
      var decrypted := c.keys.open(Nonce(c.keys.iv, sequence), CiphertextOf(l, datagram), header);
      if decrypted.Some? {
        OpensPaddedContent(c, decrypted.value, l.headerLen + l.ciphertextLen, content, contentType);
      }
    }
  }
}
