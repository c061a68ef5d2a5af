/** Protected records: nonces, sealing and opening under one epoch's cipher. */
module RecordCipher {
  import opened Wire
  import opened ConnectionIds
  import opened RecordNumbers
  import opened SequenceNumbers
  import Replay

  const MAX_CIPHERTEXT := 16640
  const SAMPLE_SIZE := 16

  const ALERT: Byte := 21
  const HANDSHAKE: Byte := 22
  const APPLICATION_DATA: Byte := 23
  const HEARTBEAT: Byte := 24
  const ACK: Byte := 26
  const RETURN_ROUTABILITY: Byte := 27

  predicate ValidInnerContentType(contentType: Byte) {
    contentType in {ALERT, HANDSHAKE, APPLICATION_DATA, HEARTBEAT, ACK, RETURN_ROUTABILITY}
  }

  /** The cryptographic functions derived from one traffic secret, with the static IV. */
  datatype Keys = Keys(
    overhead: nat,
    iv: Bytes,
    seal: (Bytes, Bytes, Bytes) -> Bytes,
    open: (Bytes, Bytes, Bytes) -> Option<Bytes>,
    mask: Bytes -> (Byte, Byte))

  /** What is assumed of the AEAD: fixed expansion, and opening inverts sealing under the same nonce and header. */
  ghost predicate CorrectAead(k: Keys) {
    forall nonce, plain, header ::
      && |k.seal(nonce, plain, header)| == |plain| + k.overhead
      && k.open(nonce, k.seal(nonce, plain, header), header) == Some(plain)
  }

  datatype Cipher = Cipher(
    epoch: nat,
    keys: Keys,
    nextSequence: nat,
    lastOpened: nat,
    replay: Replay.Window,
    authFailures: nat,
    connectionID: Bytes,
    hasConnectionID: bool,
    plaintextLimit: nat,
    acceptedCIDs: seq<Bytes>,
    lastConnectionID: Bytes,
    recordLimit: nat,
    authFailureLimit: nat)

  /** A connection ID is only present when one was negotiated, and it fits its one-byte length. */
  ghost predicate WellFormed(c: Cipher) {
    && |c.connectionID| <= MAX_CID_LENGTH
    && (!c.hasConnectionID ==> c.connectionID == [])
    && (forall cid :: cid in c.acceptedCIDs ==> |cid| <= MAX_CID_LENGTH)
  }

  // ---------------------------------------------------------------- nonces

  function Power2(width: nat): (r: nat)
    ensures r >= 1
  {
    if width == 0 then 1 else 2 * Power2(width - 1)
  }

  /** Exclusive or of the low `width` bits. */
  function XorBits(a: nat, b: nat, width: nat): (r: nat)
    ensures r < Power2(width)
  {
    if width == 0 then 0 else 2 * XorBits(a / 2, b / 2, width - 1) + (a + b) % 2
  }

  function Xor(a: Byte, b: Byte): Byte {
    assert Power2(8) == 256 by { assert Power2(4) == 16; }
    XorBits(a, b, 8)
  }

  lemma {:induction false} XorBitsTwice(a: nat, b: nat, width: nat)
    requires a < Power2(width)
    ensures XorBits(XorBits(a, b, width), b, width) == a
    ensures XorBits(a, b, width) == XorBits(b, a, width)
  {
    if width > 0 {
      XorBitsTwice(a / 2, b / 2, width - 1);
      LowBitTwice(a, b, XorBits(a / 2, b / 2, width - 1));
    }
  }

  lemma LowBitTwice(a: nat, b: nat, high: nat)
    ensures var once := 2 * high + (a + b) % 2; once / 2 == high && (once + b) % 2 == a % 2
  {}

  lemma XorTwice(a: Byte, b: Byte)
    ensures Xor(Xor(a, b), b) == a
    ensures Xor(b, a) == Xor(a, b)
  {
    assert Power2(8) == 256 by { assert Power2(4) == 16; }
    XorBitsTwice(a, b, 8);
  }

  function XorBytes(a: Bytes, b: Bytes): (r: Bytes)
    requires |a| == |b|
    ensures |r| == |a|
  {
    seq(|a|, i requires 0 <= i < |a| => Xor(a[i], b[i]))
  }

  /** The IV with the sequence number folded into its last eight bytes. */
  function Nonce(iv: Bytes, sequence: nat): Bytes
    requires |iv| >= 8
  {
    iv[..|iv| - 8] + XorBytes(iv[|iv| - 8..], PutUint(sequence, 8))
  }

  /** Bit `i` of an exclusive or says whether the two bits differ. */
  lemma {:induction false} BitOfXor(a: nat, b: nat, width: nat, i: nat)
    requires i < width
    ensures XorBits(a, b, width) / Power2(i) % 2 == (a / Power2(i) + b / Power2(i)) % 2
  {
    var high := XorBits(a / 2, b / 2, width - 1);
    LowBitTwice(a, b, high);
    if i > 0 {
      BitOfXor(a / 2, b / 2, width - 1, i - 1);
      HalveTwice(XorBits(a, b, width), Power2(i - 1));
      HalveTwice(a, Power2(i - 1));
      HalveTwice(b, Power2(i - 1));
    }
  }

  lemma HalveTwice(value: nat, divisor: nat)
    requires divisor > 0
    ensures value / (2 * divisor) == value / 2 / divisor
  {
    var q, r := value / 2, value % 2;
    var a, b := q / divisor, q % divisor;
    assert q == a * divisor + b;
    assert value == 2 * (a * divisor + b) + r == a * (2 * divisor) + (2 * b + r);
    QuotientIs(value, 2 * divisor, a, 2 * b + r);
  }

  /** A nonce is as long as the IV; its last byte differs from the IV's by the lowest byte of the number, and so on. */
  lemma NonceBytes(iv: Bytes, sequence: nat, i: nat)
    requires |iv| >= 8
    ensures |Nonce(iv, sequence)| == |iv| && Nonce(iv, sequence)[..|iv| - 8] == iv[..|iv| - 8]
    ensures i < 8 ==> Xor(Nonce(iv, sequence)[|iv| - 1 - i], iv[|iv| - 1 - i]) == sequence / Radix(i) % 256
  {
    if i < 8 {
      var at := |iv| - 1 - i;
      ByteOfUint(sequence, 8, i);
      assert Nonce(iv, sequence)[at] == Xor(iv[at], PutUint(sequence, 8)[7 - i]);
      XorTwice(PutUint(sequence, 8)[7 - i], iv[at]);
    }
  }

  /** Records sealed under one cipher never share a nonce. */
  lemma NoncesDiffer(iv: Bytes, m: nat, n: nat)
    requires |iv| >= 8 && m < U64_LIMIT && n < U64_LIMIT && m != n
    ensures Nonce(iv, m) != Nonce(iv, n)
  {
    if Nonce(iv, m) == Nonce(iv, n) {
      var low, a, b := iv[|iv| - 8..], PutUint(m, 8), PutUint(n, 8);
      assert XorBytes(low, a) == Nonce(iv, m)[|iv| - 8..];
      assert XorBytes(low, b) == Nonce(iv, n)[|iv| - 8..];
      forall i | 0 <= i < 8 ensures a[i] == b[i] {
        assert XorBytes(low, a)[i] == XorBytes(low, b)[i];
        XorTwice(a[i], low[i]);
        XorTwice(b[i], low[i]);
      }
      assert a == b;
      RadixValues();
      PutInjective(m, n, 8);
    }
  }

  // ---------------------------------------------------------------- sealing

  datatype SealError =
    | EpochTooLarge | SequenceExhausted | RecordLimitReached | InvalidType | EmptyContent
    | ContentTooLong | RecordTooLarge | SealSampleTooShort

  datatype Sealing = Sealed(packet: Bytes) | SealFailed(error: SealError)

  function SealRefusal(c: Cipher, contentType: Byte, contentLen: nat): Option<SealError> {
    if c.epoch > MAX_SENDING_EPOCH then Some(EpochTooLarge)
    else if c.nextSequence >= U48_LIMIT then Some(SequenceExhausted)
    else if c.nextSequence >= c.recordLimit then Some(RecordLimitReached)
    else if !ValidInnerContentType(contentType) then Some(InvalidType)
    else if contentLen == 0 && (contentType == HANDSHAKE || contentType == ALERT) then Some(EmptyContent)
    else if contentLen > MAX_RECORD_CONTENT
      || (c.plaintextLimit != 0 && contentLen >= c.plaintextLimit) then Some(ContentTooLong)
    else if contentLen + 1 + c.keys.overhead > MAX_CIPHERTEXT then Some(RecordTooLarge)
    else None
  }

  function FirstByte(epoch: nat, hasCID: bool, sequence16: bool, lengthPresent: bool): Byte {
    32 + (if hasCID then 16 else 0) + (if sequence16 then 8 else 0) + (if lengthPresent then 4 else 0) + epoch % 4
  }

  function SequenceWidth(sequence16: bool): nat {
    if sequence16 then 2 else 1
  }

  /** The header before sequence protection: it authenticates the record. */
  function PlainHeader(c: Cipher, sequence16: bool, lengthPresent: bool, ciphertextLen: nat): Bytes {
    [FirstByte(c.epoch, c.hasConnectionID, sequence16, lengthPresent)] + c.connectionID
    + PutUint(c.nextSequence, SequenceWidth(sequence16))
    + (if lengthPresent then PutUint(ciphertextLen, 2) else [])
  }

  /** XORs the mask over the one or two sequence bytes at `at`; applying it twice restores the header. */
  function MaskAt(header: Bytes, at: nat, width: nat, mask: (Byte, Byte)): (r: Bytes)
    requires 1 <= width <= 2 && at + width <= |header|
    ensures |r| == |header|
  {
    var once := header[at := Xor(header[at], mask.0)];
    if width == 1 then once else once[at + 1 := Xor(once[at + 1], mask.1)]
  }

  /** Exactly the sequence bytes change, the first by the first mask byte and the second by the second. */
  lemma MaskBytes(header: Bytes, at: nat, width: nat, mask: (Byte, Byte))
    requires 1 <= width <= 2 && at + width <= |header|
    ensures var r := MaskAt(header, at, width, mask);
            && (forall k :: 0 <= k < |header| && !(at <= k < at + width) ==> r[k] == header[k])
            && Xor(r[at], header[at]) == mask.0
            && (width == 2 ==> Xor(r[at + 1], header[at + 1]) == mask.1)
  {
    XorTwice(mask.0, header[at]);
    if width == 2 { XorTwice(mask.1, header[at + 1]); }
  }

  lemma MaskTwice(header: Bytes, at: nat, width: nat, mask: (Byte, Byte))
    requires 1 <= width <= 2 && at + width <= |header|
    ensures MaskAt(MaskAt(header, at, width, mask), at, width, mask) == header
  {
    XorTwice(header[at], mask.0);
    if width == 2 { XorTwice(header[at + 1], mask.1); }
  }

  function Ciphertext(c: Cipher, contentType: Byte, content: Bytes, sequence16: bool, lengthPresent: bool): Bytes
    requires |c.keys.iv| >= 8
  {
    c.keys.seal(Nonce(c.keys.iv, c.nextSequence), content + [contentType],
                PlainHeader(c, sequence16, lengthPresent, |content| + 1 + c.keys.overhead))
  }

  function MaskedHeader(c: Cipher, sequence16: bool, lengthPresent: bool, ciphertextLen: nat, ciphertext: Bytes): Bytes
    requires |ciphertext| >= SAMPLE_SIZE
  {
    MaskAt(PlainHeader(c, sequence16, lengthPresent, ciphertextLen), 1 + |c.connectionID|, SequenceWidth(sequence16),
           c.keys.mask(ciphertext[..SAMPLE_SIZE]))
  }

  function Seal(c: Cipher, contentType: Byte, content: Bytes, sequence16: bool, lengthPresent: bool): Sealing
    requires |c.keys.iv| >= 8
  {
    match SealRefusal(c, contentType, |content|)
    case Some(error) => SealFailed(error)
    case None =>
      var ciphertext := Ciphertext(c, contentType, content, sequence16, lengthPresent);
      if |ciphertext| < SAMPLE_SIZE then SealFailed(SealSampleTooShort)
      else Sealed(MaskedHeader(c, sequence16, lengthPresent, |content| + 1 + c.keys.overhead, ciphertext) + ciphertext)
  }

  function AfterSeal(c: Cipher, outcome: Sealing): Cipher {
    if outcome.Sealed? then c.(nextSequence := c.nextSequence + 1) else c
  }

  // ---------------------------------------------------------------- opening

  datatype OpenError =
    | HeaderTruncated | UnsupportedHeader | EpochMismatch | CidPresenceMismatch | CidUnknown | BadLength
    | OpenSampleTooShort | BadSequence | AuthenticationFailed | AuthenticationLimit | PlaintextOverflow
    | NoContentType | BadContentType | EmptyHandshakeOrAlert | Replayed

  datatype Opening = Opened(content: Bytes, contentType: Byte, consumed: nat) | OpenFailed(error: OpenError)

  /** Where the parts of the first record of a datagram lie. */
  datatype Layout = Layout(cid: Bytes, sequence16: bool, headerLen: nat, ciphertextLen: nat)

  datatype Parsing = Located(layout: Layout) | Rejected(error: OpenError)

  function Locate(c: Cipher, datagram: Bytes): Parsing {
    if |datagram| < 2 then Rejected(HeaderTruncated)
    else
      var first := datagram[0];
      if first / 32 != 1 then Rejected(UnsupportedHeader)
      else if first % 4 != c.epoch % 4 then Rejected(EpochMismatch)
      else
        var sequence16 := first / 8 % 2 == 1;
        var hasCID := first / 16 % 2 == 1;
        var lengthPresent := first / 4 % 2 == 1;
        if hasCID != c.hasConnectionID then Rejected(CidPresenceMismatch)
        else
          var matched := if hasCID then MatchConnectionID(c.acceptedCIDs, datagram[1..]) else Some([]);
          if matched.None? then Rejected(CidUnknown)
          else
            var lengthAt := 1 + |matched.value| + SequenceWidth(sequence16);
            var headerLen := lengthAt + (if lengthPresent then 2 else 0);
            if |datagram| < headerLen then Rejected(HeaderTruncated)
            else
              var n := if lengthPresent then GetUint(datagram[lengthAt..headerLen]) else |datagram| - headerLen;
              if n < c.keys.overhead + 1 || n > MAX_CIPHERTEXT || |datagram| < headerLen + n then Rejected(BadLength)
              else if n < SAMPLE_SIZE then Rejected(OpenSampleTooShort)
              else Located(Layout(matched.value, sequence16, headerLen, n))
  }

  lemma LocateBounds(c: Cipher, datagram: Bytes)
    requires Locate(c, datagram).Located?
    ensures var l := Locate(c, datagram).layout;
            && 1 + |l.cid| + SequenceWidth(l.sequence16) <= l.headerLen
            && l.headerLen + l.ciphertextLen <= |datagram|
            && SAMPLE_SIZE <= l.ciphertextLen
  {}

  function CiphertextOf(l: Layout, datagram: Bytes): Bytes
    requires l.headerLen + l.ciphertextLen <= |datagram|
  {
    datagram[l.headerLen..l.headerLen + l.ciphertextLen]
  }

  function UnmaskedHeader(c: Cipher, l: Layout, datagram: Bytes): (h: Bytes)
    requires 1 + |l.cid| + SequenceWidth(l.sequence16) <= l.headerLen
    requires l.headerLen + l.ciphertextLen <= |datagram| && SAMPLE_SIZE <= l.ciphertextLen
    ensures |h| == l.headerLen
  {
    MaskAt(datagram[..l.headerLen], 1 + |l.cid|, SequenceWidth(l.sequence16),
           c.keys.mask(CiphertextOf(l, datagram)[..SAMPLE_SIZE]))
  }

  function SequenceOf(c: Cipher, l: Layout, header: Bytes): nat
    requires 1 + |l.cid| + SequenceWidth(l.sequence16) <= |header|
  {
    var at, width := 1 + |l.cid|, SequenceWidth(l.sequence16);
    ReconstructSequence(Replay.NextExpected(c.replay), GetUint(header[at..at + width]), Radix(width))
  }

  /** The number of bytes left after dropping trailing zero padding; the last one kept is the content type. */
  function UnpaddedLength(plain: Bytes): (n: nat)
    ensures n <= |plain| && (n > 0 ==> plain[n - 1] != 0)
  {
    if plain == [] then 0
    else if plain[|plain| - 1] != 0 then |plain|
    else UnpaddedLength(plain[..|plain| - 1])
  }

  /** What happens to an authenticated plaintext, before the replay check. */
  function Inner(c: Cipher, plain: Bytes, consumed: nat): Opening {
    if |plain| > MAX_RECORD_CONTENT + 1
      || (c.plaintextLimit != 0 && |plain| > c.plaintextLimit) then OpenFailed(PlaintextOverflow)
    else
      var n := UnpaddedLength(plain);
      if n == 0 then OpenFailed(NoContentType)
      else
        var contentType := plain[n - 1];
        if !ValidInnerContentType(contentType) then OpenFailed(BadContentType)
        else if n == 1 && (contentType == HANDSHAKE || contentType == ALERT) then OpenFailed(EmptyHandshakeOrAlert)
        else Opened(plain[..n - 1], contentType, consumed)
  }

  /** Replay state is committed only for an authenticated, acceptable plaintext with a fresh number. */
  function Commit(c: Cipher, l: Layout, sequence: nat, plain: Bytes): (Opening, Cipher) {
    var outcome := Inner(c, plain, l.headerLen + l.ciphertextLen);
    if outcome.OpenFailed? then (outcome, c)
    else if !Replay.Check(c.replay, sequence) then (OpenFailed(Replayed), c)
    else (outcome, c.(replay := Replay.Accept(c.replay, sequence), lastOpened := sequence,
                      lastConnectionID := if c.hasConnectionID then l.cid else c.lastConnectionID))
  }

  function AuthFailure(c: Cipher): (Opening, Cipher) {
    var failures := if c.authFailures < U64_LIMIT - 1 then c.authFailures + 1 else c.authFailures;
    (OpenFailed(if failures >= c.authFailureLimit then AuthenticationLimit else AuthenticationFailed),
     c.(authFailures := failures))
  }

  function Decrypt(c: Cipher, l: Layout, header: Bytes, ciphertext: Bytes): (Opening, Cipher)
    requires |c.keys.iv| >= 8
    requires 1 + |l.cid| + SequenceWidth(l.sequence16) <= |header|
  {
    var sequence := SequenceOf(c, l, header);
    if sequence >= U48_LIMIT then (OpenFailed(BadSequence), c)
    else
      match c.keys.open(Nonce(c.keys.iv, sequence), ciphertext, header)
      case None => AuthFailure(c)
      case Some(plain) => Commit(c, l, sequence, plain)
  }

  function Open(c: Cipher, datagram: Bytes): (Opening, Cipher)
    requires |c.keys.iv| >= 8
  {
    match Locate(c, datagram)
    case Rejected(error) => (OpenFailed(error), c)
    case Located(l) =>
      LocateBounds(c, datagram);
      Decrypt(c, l, UnmaskedHeader(c, l, datagram), CiphertextOf(l, datagram))
  }
}
