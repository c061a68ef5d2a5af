/** Opening what was sealed: the same content and type come back and exactly the record is consumed. */
module RecordRoundTrip {
  import opened Wire
  import opened ConnectionIds
  import opened SequenceNumbers
  import opened RecordCipher
  import Replay

  /** A receiving cipher that belongs to a sending one: same keys and epoch bits, and it accepts the sender's ID. */
  ghost predicate Paired(sender: Cipher, receiver: Cipher) {
    && sender.keys == receiver.keys && CorrectAead(sender.keys) && |sender.keys.iv| >= 8
    && sender.epoch % 4 == receiver.epoch % 4
    && sender.hasConnectionID == receiver.hasConnectionID
    && WellFormed(sender)
    && PrefixFree(receiver.acceptedCIDs)
    && (sender.hasConnectionID ==> sender.connectionID in receiver.acceptedCIDs)
  }

  lemma FirstByteParts(epoch: nat, hasCID: bool, sequence16: bool, lengthPresent: bool)
    ensures var b := FirstByte(epoch, hasCID, sequence16, lengthPresent);
            && b / 32 == 1 && b % 4 == epoch % 4
            && (b / 16 % 2 == 1 <==> hasCID) && (b / 8 % 2 == 1 <==> sequence16) && (b / 4 % 2 == 1 <==> lengthPresent)
  {}

  /** The fields of a header other than its sequence bytes. */
  ghost predicate HeaderFields(c: Cipher, sequence16: bool, lengthPresent: bool, n: nat, header: Bytes) {
    var lengthAt := 1 + |c.connectionID| + SequenceWidth(sequence16);
    && |header| == lengthAt + (if lengthPresent then 2 else 0)
    && header[0] == FirstByte(c.epoch, c.hasConnectionID, sequence16, lengthPresent)
    && header[1..1 + |c.connectionID|] == c.connectionID
    && (lengthPresent ==> header[lengthAt..] == PutUint(n, 2))
  }

  lemma PlainHeaderFields(c: Cipher, sequence16: bool, lengthPresent: bool, n: nat)
    ensures HeaderFields(c, sequence16, lengthPresent, n, PlainHeader(c, sequence16, lengthPresent, n))
    ensures PlainHeader(c, sequence16, lengthPresent, n)
              [1 + |c.connectionID|..1 + |c.connectionID| + SequenceWidth(sequence16)]
         == PutUint(c.nextSequence, SequenceWidth(sequence16))
  {
    var first := [FirstByte(c.epoch, c.hasConnectionID, sequence16, lengthPresent)];
    FourPieces(first, c.connectionID, PutUint(c.nextSequence, SequenceWidth(sequence16)),
               if lengthPresent then PutUint(n, 2) else []);
  }

  lemma FourPieces(a: Bytes, b: Bytes, c: Bytes, d: Bytes)
    ensures var all := a + b + c + d;
            && all[..|a|] == a && all[|a|..|a| + |b|] == b
            && all[|a| + |b|..|a| + |b| + |c|] == c && all[|a| + |b| + |c|..] == d
  {}

  /** Masking changes only the sequence bytes. */
  lemma MaskKeepsFields(c: Cipher, sequence16: bool, lengthPresent: bool, n: nat, header: Bytes, mask: (Byte, Byte))
    requires HeaderFields(c, sequence16, lengthPresent, n, header)
    ensures HeaderFields(c, sequence16, lengthPresent, n,
                         MaskAt(header, 1 + |c.connectionID|, SequenceWidth(sequence16), mask))
  {
    var at, width := 1 + |c.connectionID|, SequenceWidth(sequence16);
    var masked := MaskAt(header, at, width, mask);
    assert masked[1..at] == header[1..at];
    assert masked[at + width..] == header[at + width..];
  }

  /** Locating a record whose header fields are known. */
  lemma LocateFields(receiver: Cipher, datagram: Bytes, epoch: nat, cid: Bytes, sequence16: bool, lengthPresent: bool,
                     n: nat)
    requires |datagram| >= 2 && datagram[0] == FirstByte(epoch, receiver.hasConnectionID, sequence16, lengthPresent)
    requires epoch % 4 == receiver.epoch % 4
    requires (if receiver.hasConnectionID then MatchConnectionID(receiver.acceptedCIDs, datagram[1..]) else Some([]))
             == Some(cid)
    requires receiver.keys.overhead + 1 <= n <= MAX_CIPHERTEXT && SAMPLE_SIZE <= n
    requires var lengthAt := 1 + |cid| + SequenceWidth(sequence16);
             if lengthPresent then lengthAt + 2 + n <= |datagram| && datagram[lengthAt..lengthAt + 2] == PutUint(n, 2)
             else |datagram| == lengthAt + n
    ensures Locate(receiver, datagram)
         == Located(Layout(cid, sequence16, 1 + |cid| + SequenceWidth(sequence16)
                           + (if lengthPresent then 2 else 0), n))
  {
    FirstByteParts(epoch, receiver.hasConnectionID, sequence16, lengthPresent);
    RadixValues();
    GetPut(n, 2);
  }

  lemma MatchSealed(sender: Cipher, receiver: Cipher, rest: Bytes)
    requires Paired(sender, receiver) && sender.hasConnectionID
    ensures MatchConnectionID(receiver.acceptedCIDs, sender.connectionID + rest) == Some(sender.connectionID)
  {
    MatchIsUnique(receiver.acceptedCIDs, sender.connectionID + rest);
    assert sender.connectionID <= sender.connectionID + rest;
  }

  lemma LocateSealed(sender: Cipher, receiver: Cipher, sequence16: bool, lengthPresent: bool,
                     masked: Bytes, ciphertext: Bytes, trailing: Bytes)
    requires Paired(sender, receiver)
    requires sender.keys.overhead + 1 <= |ciphertext| <= MAX_CIPHERTEXT && SAMPLE_SIZE <= |ciphertext|
    requires lengthPresent || trailing == []
    requires HeaderFields(sender, sequence16, lengthPresent, |ciphertext|, masked)
    ensures Locate(receiver, masked + ciphertext + trailing)
         == Located(Layout(sender.connectionID, sequence16, |masked|, |ciphertext|))
  {
    hide CorrectAead, PrefixFree, Locate, MatchConnectionID, FirstByte;
    var datagram, cid := masked + ciphertext + trailing, sender.connectionID;
    var lengthAt := 1 + |cid| + SequenceWidth(sequence16);
    if sender.hasConnectionID {
      assert datagram[1..] == cid + datagram[1 + |cid|..] by { assert datagram[1..1 + |cid|] == masked[1..1 + |cid|]; }
      MatchSealed(sender, receiver, datagram[1 + |cid|..]);
    }
    if lengthPresent {
      assert datagram[lengthAt..lengthAt + 2] == masked[lengthAt..];
    }
    LocateFields(receiver, datagram, sender.epoch, cid, sequence16, lengthPresent, |ciphertext|);
  }

  lemma UnpaddedRecord(content: Bytes, contentType: Byte)
    requires contentType != 0
    ensures UnpaddedLength(content + [contentType]) == |content| + 1
  {}

  lemma InnerOfSealed(receiver: Cipher, content: Bytes, contentType: Byte, consumed: nat)
    requires ValidInnerContentType(contentType) && |content| <= MAX_RECORD_CONTENT
    requires content == [] ==> contentType != HANDSHAKE && contentType != ALERT
    requires receiver.plaintextLimit == 0 || |content| < receiver.plaintextLimit
    ensures Inner(receiver, content + [contentType], consumed) == Opened(content, contentType, consumed)
  {
    UnpaddedRecord(content, contentType);
    assert (content + [contentType])[..|content|] == content;
  }

  lemma SequenceRecovered(sender: Cipher, receiver: Cipher, l: Layout, header: Bytes)
    requires l.cid == sender.connectionID
    requires 1 + |l.cid| + SequenceWidth(l.sequence16) <= |header|
    requires header[1 + |l.cid|..1 + |l.cid| + SequenceWidth(l.sequence16)]
             == PutUint(sender.nextSequence, SequenceWidth(l.sequence16))
    requires sender.nextSequence < U48_LIMIT && Replay.NextExpected(receiver.replay) <= U48_LIMIT
    ensures SequenceOf(receiver, l, header) == sender.nextSequence <==>
            Reachable(Replay.NextExpected(receiver.replay), sender.nextSequence, Radix(SequenceWidth(l.sequence16)))
  {
    RadixValues();
    var width := SequenceWidth(l.sequence16);
    LowBytes(sender.nextSequence, width);
    ReconstructExactly(Replay.NextExpected(receiver.replay), sender.nextSequence, Radix(width));
  }

  lemma {:induction false} LowBytes(value: nat, width: nat)
    requires width == 1 || width == 2
    ensures GetUint(PutUint(value, width)) == value % Radix(width)
  {
    RadixValues();
    assert PutUint(value, 1) == PutUint(value / 256, 0) + [value % 256] == [value % 256];
    if width == 1 {
      assert GetUint([value % 256]) == 256 * GetUint([]) + value % 256;
    } else {
      TwoDigits(value);
      var high: Bytes := [value / 256 % 256];
      assert PutUint(value / 256, 1) == PutUint(value / 256 / 256, 0) + high == high;
      assert PutUint(value, 2) == high + [value % 256] && (high + [value % 256])[..1] == high;
      assert GetUint(high) == 256 * GetUint([]) + value / 256 % 256;
    }
  }

  lemma TwoDigits(value: nat)
    ensures 256 * (value / 256 % 256) + value % 256 == value % 65536
  {}

  /** Opening, once the record is located and its header, number and plaintext are known. */
  lemma OpenFields(receiver: Cipher, datagram: Bytes, l: Layout, header: Bytes, sequence: nat, plain: Bytes)
    requires |receiver.keys.iv| >= 8 && Locate(receiver, datagram) == Located(l)
    requires 1 + |l.cid| + SequenceWidth(l.sequence16) <= l.headerLen
    requires l.headerLen + l.ciphertextLen <= |datagram| && SAMPLE_SIZE <= l.ciphertextLen
    requires UnmaskedHeader(receiver, l, datagram) == header
    requires SequenceOf(receiver, l, header) == sequence < U48_LIMIT
    requires receiver.keys.open(Nonce(receiver.keys.iv, sequence), CiphertextOf(l, datagram), header) == Some(plain)
    requires Replay.Check(receiver.replay, sequence)
    requires Inner(receiver, plain, l.headerLen + l.ciphertextLen).Opened?
    ensures Open(receiver, datagram)
         == (Inner(receiver, plain, l.headerLen + l.ciphertextLen),
             receiver.(replay := Replay.Accept(receiver.replay, sequence), lastOpened := sequence,
                       lastConnectionID := if receiver.hasConnectionID then l.cid else receiver.lastConnectionID))
  {}

  /**
   * The receiver finds the record in the datagram: its layout, its ciphertext and its header as it was before
   * masking.
   */
  ghost predicate Found(receiver: Cipher, l: Layout, header: Bytes, datagram: Bytes, ciphertext: Bytes) {
    && 1 + |l.cid| + SequenceWidth(l.sequence16) <= l.headerLen == |header|
    && l.headerLen + l.ciphertextLen <= |datagram| && SAMPLE_SIZE <= l.ciphertextLen
    && Locate(receiver, datagram) == Located(l)
    && CiphertextOf(l, datagram) == ciphertext
    && UnmaskedHeader(receiver, l, datagram) == header
  }

  /** The receiver locates a sealed packet, and restores its header. */
  lemma PacketFields(sender: Cipher, receiver: Cipher, sequence16: bool, lengthPresent: bool, ciphertext: Bytes,
                     trailing: Bytes)
    requires Paired(sender, receiver)
    requires sender.keys.overhead + 1 <= |ciphertext| <= MAX_CIPHERTEXT && SAMPLE_SIZE <= |ciphertext|
    requires lengthPresent || trailing == []
    ensures var plain := PlainHeader(sender, sequence16, lengthPresent, |ciphertext|);
            var datagram := MaskedHeader(sender, sequence16, lengthPresent, |ciphertext|, ciphertext) + ciphertext
              + trailing;
            Found(receiver, Layout(sender.connectionID, sequence16, |plain|, |ciphertext|), plain, datagram, ciphertext)
  {
    var plain := PlainHeader(sender, sequence16, lengthPresent, |ciphertext|);
    var at, width := 1 + |sender.connectionID|, SequenceWidth(sequence16);
    var mask := sender.keys.mask(ciphertext[..SAMPLE_SIZE]);
    PlainHeaderFields(sender, sequence16, lengthPresent, |ciphertext|);
    MaskKeepsFields(sender, sequence16, lengthPresent, |ciphertext|, plain, mask);
    var masked := MaskAt(plain, at, width, mask);
    var datagram := masked + ciphertext + trailing;
    LocateSealed(sender, receiver, sequence16, lengthPresent, masked, ciphertext, trailing);
    var l := Layout(sender.connectionID, sequence16, |masked|, |ciphertext|);
    assert CiphertextOf(l, datagram) == ciphertext;
    assert datagram[..|plain|] == masked;
    MaskTwice(plain, at, width, mask);
  }

  /** Opening any packet of this form, once its ciphertext is known to open to an acceptable plaintext. */
  lemma OpenPacket(sender: Cipher, receiver: Cipher, sequence16: bool, lengthPresent: bool, ciphertext: Bytes,
                   trailing: Bytes, plain: Bytes)
    requires Paired(sender, receiver) && sender.nextSequence < U48_LIMIT
    requires sender.keys.overhead + 1 <= |ciphertext| <= MAX_CIPHERTEXT && SAMPLE_SIZE <= |ciphertext|
    requires lengthPresent || trailing == []
    requires Replay.NextExpected(receiver.replay) <= U48_LIMIT
    requires Reachable(Replay.NextExpected(receiver.replay), sender.nextSequence, Radix(SequenceWidth(sequence16)))
    requires Replay.Check(receiver.replay, sender.nextSequence)
    requires sender.keys.open(Nonce(sender.keys.iv, sender.nextSequence), ciphertext,
                              PlainHeader(sender, sequence16, lengthPresent, |ciphertext|)) == Some(plain)
    requires Inner(receiver, plain, |PlainHeader(sender, sequence16, lengthPresent, |ciphertext|)|
                   + |ciphertext|).Opened?
    ensures Open(receiver, MaskedHeader(sender, sequence16, lengthPresent, |ciphertext|, ciphertext) + ciphertext
                 + trailing)
         == (Inner(receiver, plain, |PlainHeader(sender, sequence16, lengthPresent, |ciphertext|)| + |ciphertext|),
             receiver.(replay := Replay.Accept(receiver.replay, sender.nextSequence), lastOpened := sender.nextSequence,
                       lastConnectionID := if receiver.hasConnectionID then sender.connectionID
                         else receiver.lastConnectionID))
  {
    hide Open, Inner, Nonce, Reachable, Found, Paired, MaskedHeader, PlainHeader;
    var header := PlainHeader(sender, sequence16, lengthPresent, |ciphertext|);
    var datagram := MaskedHeader(sender, sequence16, lengthPresent, |ciphertext|, ciphertext) + ciphertext + trailing;
    PacketFields(sender, receiver, sequence16, lengthPresent, ciphertext, trailing);
    PlainHeaderFields(sender, sequence16, lengthPresent, |ciphertext|);
    var l := Layout(sender.connectionID, sequence16, |header|, |ciphertext|);
    assert header[1 + |l.cid|..1 + |l.cid| + SequenceWidth(l.sequence16)]
           == PutUint(sender.nextSequence, SequenceWidth(l.sequence16));
    OpenLocated(sender, receiver, l, header, datagram, ciphertext, plain);
  }

  /** Opening a located record of the sender. */
  lemma OpenLocated(sender: Cipher, receiver: Cipher, l: Layout, header: Bytes, datagram: Bytes, ciphertext: Bytes,
                    plain: Bytes)
    requires Paired(sender, receiver) && sender.nextSequence < U48_LIMIT && l.cid == sender.connectionID
    requires Found(receiver, l, header, datagram, ciphertext)
    requires header[1 + |l.cid|..1 + |l.cid| + SequenceWidth(l.sequence16)]
             == PutUint(sender.nextSequence, SequenceWidth(l.sequence16))
    requires Replay.NextExpected(receiver.replay) <= U48_LIMIT
    requires Reachable(Replay.NextExpected(receiver.replay), sender.nextSequence, Radix(SequenceWidth(l.sequence16)))
    requires Replay.Check(receiver.replay, sender.nextSequence)
    requires sender.keys.open(Nonce(sender.keys.iv, sender.nextSequence), ciphertext, header) == Some(plain)
    requires Inner(receiver, plain, l.headerLen + l.ciphertextLen).Opened?
    ensures Open(receiver, datagram)
         == (Inner(receiver, plain, l.headerLen + l.ciphertextLen),
             receiver.(replay := Replay.Accept(receiver.replay, sender.nextSequence), lastOpened := sender.nextSequence,
                       lastConnectionID := if receiver.hasConnectionID then l.cid else receiver.lastConnectionID))
  {
    hide Open, Inner, Nonce, SequenceOf, CorrectAead, PrefixFree;
    SequenceRecovered(sender, receiver, l, header);
    OpenFields(receiver, datagram, l, header, sender.nextSequence, plain);
  }

  lemma SealedForm(sender: Cipher, contentType: Byte, content: Bytes, sequence16: bool, lengthPresent: bool,
                   packet: Bytes)
    returns (ciphertext: Bytes)
    requires |sender.keys.iv| >= 8 && CorrectAead(sender.keys)
    requires Seal(sender, contentType, content, sequence16, lengthPresent) == Sealed(packet)
    ensures SealRefusal(sender, contentType, |content|) == None
    ensures |ciphertext| == |content| + 1 + sender.keys.overhead && SAMPLE_SIZE <= |ciphertext|
    ensures packet == MaskedHeader(sender, sequence16, lengthPresent, |ciphertext|, ciphertext) + ciphertext
    ensures |packet| == |PlainHeader(sender, sequence16, lengthPresent, |ciphertext|)| + |ciphertext|
    ensures sender.keys.open(Nonce(sender.keys.iv, sender.nextSequence), ciphertext,
                             PlainHeader(sender, sequence16, lengthPresent, |ciphertext|))
         == Some(content + [contentType])
  {
    ciphertext := Ciphertext(sender, contentType, content, sequence16, lengthPresent);
  }

  /**
   * The content and type of every record the sender can seal come back, the record is consumed exactly, and the
   * number is committed to the replay window, whenever the number is reachable, fresh and within the receiver's
   * limit.
   */
  lemma RoundTrip(sender: Cipher, receiver: Cipher, contentType: Byte, content: Bytes,
                  sequence16: bool, lengthPresent: bool, packet: Bytes, trailing: Bytes)
    requires Paired(sender, receiver)
    requires Seal(sender, contentType, content, sequence16, lengthPresent) == Sealed(packet)
    requires lengthPresent || trailing == []
    requires receiver.plaintextLimit == 0 || |content| < receiver.plaintextLimit
    requires Replay.NextExpected(receiver.replay) <= U48_LIMIT
    requires Reachable(Replay.NextExpected(receiver.replay), sender.nextSequence, Radix(SequenceWidth(sequence16)))
    requires Replay.Check(receiver.replay, sender.nextSequence)
    ensures Open(receiver, packet + trailing)
         == (Opened(content, contentType, |packet|),
             receiver.(replay := Replay.Accept(receiver.replay, sender.nextSequence), lastOpened := sender.nextSequence,
                       lastConnectionID := if receiver.hasConnectionID then sender.connectionID
                         else receiver.lastConnectionID))
  {
    hide Open, Inner, Nonce, Reachable, MaskedHeader, PlainHeader, Ciphertext;
    var ciphertext := SealedForm(sender, contentType, content, sequence16, lengthPresent, packet);
    InnerOfSealed(receiver, content, contentType, |packet|);
    OpenPacket(sender, receiver, sequence16, lengthPresent, ciphertext, trailing, content + [contentType]);
  }

  /** The sequence numbers of the records a cipher returns while it opens `datagrams` in order. */
  function OpenAll(c: Cipher, datagrams: seq<Bytes>): (Cipher, seq<nat>)
    requires |c.keys.iv| >= 8
    ensures OpenAll(c, datagrams).0.keys == c.keys
  {
    if datagrams == [] then (c, [])
    else
      var last := |datagrams| - 1;
      var (before, numbers) := OpenAll(c, datagrams[..last]);
      var (outcome, after) := Open(before, datagrams[last]);
      (after, if outcome.Opened? then numbers + [after.lastOpened] else numbers)
  }

  lemma OpenStep(c: Cipher, datagram: Bytes)
    requires |c.keys.iv| >= 8
    ensures var (outcome, after) := Open(c, datagram);
            && (outcome.OpenFailed? ==> after.replay == c.replay)
            && (outcome.Opened? ==>
                  Replay.Check(c.replay, after.lastOpened) && after.replay == Replay.Accept(c.replay, after.lastOpened))
  {}

  lemma {:induction false} OpensTrack(c: Cipher, datagrams: seq<Bytes>)
    requires |c.keys.iv| >= 8 && c.replay == Replay.NewWindow(c.replay.size)
    ensures Replay.Tracks(OpenAll(c, datagrams).0.replay, OpenAll(c, datagrams).1)
    ensures OpenAll(c, datagrams).0.replay.size == c.replay.size
  {
    if datagrams != [] {
      var last := |datagrams| - 1;
      OpensTrack(c, datagrams[..last]);
      var (before, numbers) := OpenAll(c, datagrams[..last]);
      OpenStep(before, datagrams[last]);
      if Open(before, datagrams[last]).0.Opened? {
        Replay.AcceptTracks(before.replay, numbers, Open(before, datagrams[last]).1.lastOpened);
      }
    }
  }

  /** Whatever datagrams arrive, authentic or not, one cipher never returns the same sequence number twice. */
  lemma {:induction false} OpensNeverRepeat(c: Cipher, datagrams: seq<Bytes>, i: nat, j: nat)
    requires |c.keys.iv| >= 8 && c.replay == Replay.NewWindow(c.replay.size) && 1 <= c.replay.size <= 64
    requires i < j < |OpenAll(c, datagrams).1|
    ensures OpenAll(c, datagrams).1[i] != OpenAll(c, datagrams).1[j]
  {
    var last := |datagrams| - 1;
    var (before, numbers) := OpenAll(c, datagrams[..last]);
    OpensTrack(c, datagrams[..last]);
    if j < |numbers| {
      OpensNeverRepeat(c, datagrams[..last], i, j);
    } else {
      OpenStep(before, datagrams[last]);
      Replay.CheckIsFresh(before.replay, numbers, Open(before, datagrams[last]).1.lastOpened);
      assert numbers[i] in numbers;
    }
  }
}
