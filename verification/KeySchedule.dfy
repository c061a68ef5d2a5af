/** The key schedule that keeps every secret in one storage, and the exporter, against the TLS 1.3 definitions. */
module KeySchedules {
  import opened Wire
  import opened Hkdf

  function Ascii(text: string): Bytes {
    seq(|text|, i requires 0 <= i < |text| => text[i] as int % 256)
  }

  const DERIVED := Ascii("derived")
  const CLIENT_EARLY := Ascii("c e traffic")
  const CLIENT_HANDSHAKE := Ascii("c hs traffic")
  const SERVER_HANDSHAKE := Ascii("s hs traffic")
  const CLIENT_APPLICATION := Ascii("c ap traffic")
  const SERVER_APPLICATION := Ascii("s ap traffic")
  const EXPORTER_MASTER := Ascii("exp master")
  const RESUMPTION_MASTER := Ascii("res master")
  const FINISHED := Ascii("finished")
  const EXPORTER := Ascii("exporter")

  // ---------------------------------------------------------------- definitions (section 7.1 of RFC 8446)

  function Zeros(s: Suite): Bytes {
    seq(s.size, _ => 0)
  }

  function EarlySecret(s: Suite, psk: Option<Bytes>): Bytes {
    Extract(s, if psk.Some? then psk.value else Zeros(s), [])
  }

  ghost function Salted(s: Suite, secret: Bytes, ikm: Bytes): Bytes
    requires IsSuite(s)
  {
    Extract(s, ikm, DeriveSecret(s, secret, DERIVED, s.hash([])))
  }

  ghost function HandshakeSecret(s: Suite, psk: Option<Bytes>, shared: Bytes): Bytes
    requires IsSuite(s)
  {
    Salted(s, EarlySecret(s, psk), shared)
  }

  ghost function MasterSecret(s: Suite, psk: Option<Bytes>, shared: Bytes): Bytes
    requires IsSuite(s)
  {
    Salted(s, HandshakeSecret(s, psk, shared), Zeros(s))
  }

  // ---------------------------------------------------------------- storage

  const SLOTS := 6
  const ROOT := 0
  const CLIENT_HANDSHAKE_SLOT := 1
  const SERVER_HANDSHAKE_SLOT := 2
  const CLIENT_APPLICATION_SLOT := 3
  const SERVER_APPLICATION_SLOT := 4
  const EXPORTER_SLOT := 5

  /** Start of a slot, for the two hash sizes in use. */
  function Start(slot: nat, size: nat): nat {
    if size == 32 then 32 * slot else 48 * slot
  }

  ghost predicate Sized(bytes: Bytes, size: nat) {
    (size == 32 || size == 48) && |bytes| == Start(SLOTS, size)
  }

  ghost function Slot(bytes: Bytes, size: nat, slot: nat): Bytes
    requires Sized(bytes, size) && slot < SLOTS
  {
    bytes[Start(slot, size)..Start(slot, size) + size]
  }

  ghost function Slots(bytes: Bytes, size: nat): (w: seq<Bytes>)
    requires Sized(bytes, size)
    ensures |w| == SLOTS
  {
    seq(SLOTS, i requires 0 <= i < SLOTS => Slot(bytes, size, i))
  }

  /** Overwriting one slot leaves the others. */
  lemma PutSlot(bytes: Bytes, size: nat, slot: nat, secret: Bytes, after: Bytes)
    requires Sized(bytes, size) && slot < SLOTS && |secret| == size
    requires after == bytes[..Start(slot, size)] + secret + bytes[Start(slot, size) + size..]
    ensures Sized(after, size) && Slots(after, size) == Slots(bytes, size)[slot := secret]
  {
    Splice(bytes, Start(slot, size), secret, after);
    forall i | 0 <= i < SLOTS ensures Slot(after, size, i) == if i == slot then secret else Slot(bytes, size, i) {
      assert i < slot ==> Start(i, size) + size <= Start(slot, size);
      assert i > slot ==> Start(slot, size) + size <= Start(i, size);
    }
  }

  lemma Splice(bytes: Bytes, at: nat, part: Bytes, after: Bytes)
    requires at + |part| <= |bytes| && after == bytes[..at] + part + bytes[at + |part|..]
    ensures |after| == |bytes| && after[at..at + |part|] == part
    ensures forall j :: 0 <= j < |bytes| && (j < at || j >= at + |part|) ==> after[j] == bytes[j]
  {}

  // ---------------------------------------------------------------- the object

  class KeySchedule {
    const suite: Suite
    const storage: array<Byte>
    const previous: array<Byte>

    /** Which secret the root slot holds. */
    var early: bool
    var handshake: bool
    var master: bool
    var resumption: bool

    ghost predicate Valid()
      reads this, storage
    {
      IsSuite(suite) && Sized(storage[..], suite.size) && previous.Length == 64 && previous != storage
    }

    ghost function Secrets(): (w: seq<Bytes>)
      reads this, storage
      requires Valid()
      ensures |w| == SLOTS
    {
      Slots(storage[..], suite.size)
    }

    ghost predicate Stage(e: bool, h: bool, m: bool, r: bool)
      reads this
    {
      early == e && handshake == h && master == m && resumption == r
    }

    constructor (suite: Suite, psk: Option<Bytes>)
      requires IsSuite(suite)
      ensures Valid() && fresh(storage) && fresh(previous) && this.suite == suite
      ensures Stage(true, false, false, false) && Secrets()[ROOT] == EarlySecret(suite, psk)
    {
      this.suite := suite;
      storage := new Byte[Start(SLOTS, suite.size)](_ => 0);
      previous := new Byte[64](_ => 0);
      early, handshake, master, resumption := true, false, false, false;
      new;
      ghost var before := storage[..];
      var root := suite.hmac([], if psk.Some? then psk.value else Zeros(suite));
      Put(storage, 0, root);
      PutSlot(before, suite.size, ROOT, root, storage[..]);
    }

    /** Derives from one slot over another, or over itself. */
    method DeriveSlot(slot: nat, name: Bytes, context: Bytes, to: nat)
      requires Valid() && slot < SLOTS && to < SLOTS && |name| <= 249 && |context| <= 255
      modifies storage
      ensures Valid() && Secrets() == old(Secrets())[to := DeriveSecret(suite, old(Secrets()[slot]), name, context)]
    {
      var h := suite.size;
      ghost var before := storage[..];
      assert storage[Start(slot, h)..Start(slot, h) + h] == before[Start(slot, h)..Start(slot, h) + h];
      ExpandLabelHashInto(suite, storage, Start(slot, h), name, context, Start(to, h));
      PutSlot(before, h, to, DeriveSecret(suite, Slot(before, h, slot), name, context), storage[..]);
    }

    /** Extracts with the root slot as salt, over the root slot. */
    method ExtractRoot(secret: Bytes)
      requires Valid()
      modifies storage
      ensures Valid() && Secrets() == old(Secrets())[ROOT := Extract(suite, secret, old(Secrets()[ROOT]))]
    {
      ghost var before := storage[..];
      ExtractInto(suite, secret, storage, 0, 0);
      PutSlot(before, suite.size, ROOT, Extract(suite, secret, Slot(before, suite.size, ROOT)), storage[..]);
    }

    /** Expands the captured root secret into a slot, through the shared expander. */
    method ExpandSlot(root: Bytes, name: Bytes, context: Bytes, to: nat)
      requires Valid() && to < SLOTS && |name| <= 249 && |context| <= 255
      modifies storage, previous
      ensures Valid() && Secrets() == old(Secrets())[to := DeriveSecret(suite, root, name, context)]
    {
      var h := suite.size;
      ghost var before := storage[..];
      ExpandInto(suite, root, Info(h, name, context), previous, storage, Start(to, h), h);
      Reassemble(before, storage[..], Start(to, h), h, DeriveSecret(suite, root, name, context));
      PutSlot(before, h, to, DeriveSecret(suite, root, name, context), storage[..]);
    }

    /** The 0-RTT secret borrows the client handshake slot; once the early secret is gone the key is empty. */
    method EarlyTrafficSecret(transcript: Bytes)
      requires Valid() && |transcript| <= 255
      modifies storage
      ensures Valid()
      ensures var key := if early then old(Secrets()[ROOT]) else [];
              Secrets() == old(Secrets())[CLIENT_HANDSHAKE_SLOT := DeriveSecret(suite, key, CLIENT_EARLY, transcript)]
    {
      var h := suite.size;
      ghost var before := storage[..];
      var key := if early then storage[..h] else [];
      ExpandLabelHash(suite, key, CLIENT_EARLY, transcript, storage, Start(CLIENT_HANDSHAKE_SLOT, h));
      PutSlot(before, h, CLIENT_HANDSHAKE_SLOT, DeriveSecret(suite, key, CLIENT_EARLY, transcript), storage[..]);
    }

    method NextRoot(ikm: Bytes)
      requires Valid()
      modifies storage
      ensures Valid() && Secrets() == old(Secrets())[ROOT := Salted(suite, old(Secrets()[ROOT]), ikm)]
    {
      DeriveSlot(ROOT, DERIVED, suite.hash([]), ROOT);
      ExtractRoot(ikm);
    }

    method DeriveHandshake(shared: Bytes, transcript: Bytes) returns (ok: bool)
      requires Valid() && |transcript| <= 255
      modifies this, storage, previous
      ensures Valid() && ok == old(early)
      ensures !ok ==> Secrets() == old(Secrets()) && Stage(old(early), old(handshake), old(master), old(resumption))
      ensures ok ==>
                && Stage(false, true, old(master), old(resumption))
                && var root := Salted(suite, old(Secrets()[ROOT]), shared);
                Secrets() == old(Secrets())[ROOT := root]
                  [CLIENT_HANDSHAKE_SLOT := DeriveSecret(suite, root, CLIENT_HANDSHAKE, transcript)]
                  [SERVER_HANDSHAKE_SLOT := DeriveSecret(suite, root, SERVER_HANDSHAKE, transcript)]
    {
      if !early { return false; }
      NextRoot(shared);
      early, handshake := false, true;
      var root := storage[..suite.size];
      assert root == Secrets()[ROOT];
      ExpandSlot(root, CLIENT_HANDSHAKE, transcript, CLIENT_HANDSHAKE_SLOT);
      ExpandSlot(root, SERVER_HANDSHAKE, transcript, SERVER_HANDSHAKE_SLOT);
      return true;
    }

    method DeriveApplication(transcript: Bytes) returns (ok: bool)
      requires Valid() && |transcript| <= 255
      modifies this, storage, previous
      ensures Valid() && ok == (old(handshake) && !old(master))
      ensures !ok ==> Secrets() == old(Secrets()) && Stage(old(early), old(handshake), old(master), old(resumption))
      ensures ok ==>
                && Stage(old(early), false, true, old(resumption))
                && var root := Salted(suite, old(Secrets()[ROOT]), Zeros(suite));
                Secrets() == old(Secrets())[ROOT := root]
                  [CLIENT_APPLICATION_SLOT := DeriveSecret(suite, root, CLIENT_APPLICATION, transcript)]
                  [SERVER_APPLICATION_SLOT := DeriveSecret(suite, root, SERVER_APPLICATION, transcript)]
                                           [EXPORTER_SLOT := DeriveSecret(suite, root, EXPORTER_MASTER, transcript)]
    {
      if !handshake || master { return false; }
      NextRoot(Zeros(suite));
      handshake, master := false, true;
      var root := storage[..suite.size];
      assert root == Secrets()[ROOT];
      ExpandSlot(root, CLIENT_APPLICATION, transcript, CLIENT_APPLICATION_SLOT);
      ExpandSlot(root, SERVER_APPLICATION, transcript, SERVER_APPLICATION_SLOT);
      ExpandSlot(root, EXPORTER_MASTER, transcript, EXPORTER_SLOT);
      return true;
    }

    method DeriveResumption(transcript: Bytes) returns (ok: bool)
      requires Valid() && |transcript| <= 255
      modifies this, storage
      ensures Valid() && ok == (old(master) && !old(resumption))
      ensures !ok ==> Secrets() == old(Secrets()) && Stage(old(early), old(handshake), old(master), old(resumption))
      ensures ok ==>
                && Stage(old(early), old(handshake), false, true)
                && Secrets()
                  == old(Secrets())[ROOT := DeriveSecret(suite, old(Secrets()[ROOT]), RESUMPTION_MASTER, transcript)]
    {
      if !master || resumption { return false; }
      DeriveSlot(ROOT, RESUMPTION_MASTER, transcript, ROOT);
      master, resumption := false, true;
      return true;
    }

    method Contents() returns (all: Derived)
      requires Valid()
      ensures var w := Secrets(); all == Derived(w[1], w[2], w[3], w[4], w[5], w[ROOT])
    {
      var b, h := storage[..], suite.size;
      all := Derived(b[Start(1, h)..Start(1, h) + h], b[Start(2, h)..Start(2, h) + h], b[Start(3, h)..Start(3, h) + h],
                     b[Start(4, h)..Start(4, h) + h], b[Start(5, h)..Start(5, h) + h], b[Start(0, h)..Start(0, h) + h]);
    }
  }

  lemma Reassemble(before: Bytes, after: Bytes, at: nat, h: nat, secret: Bytes)
    requires |before| == |after| && at + h <= |before| && |secret| == h
    requires after[at..at + h] == secret && after[..at] == before[..at] && after[at + h..] == before[at + h..]
    ensures after == before[..at] + secret + before[at + h..]
  {
    assert after == after[..at] + after[at..at + h] + after[at + h..];
  }

  /** Everything one handshake derives. */
  datatype Derived = Derived(clientHandshake: Bytes, serverHandshake: Bytes, clientApplication: Bytes,
                             serverApplication: Bytes, exporter: Bytes, resumption: Bytes)

  ghost function Definition(s: Suite, psk: Option<Bytes>, shared: Bytes, hello: Bytes, server: Bytes,
                            client: Bytes): Derived
    requires IsSuite(s) && |hello| <= 255 && |server| <= 255 && |client| <= 255
  {
    var h, m := HandshakeSecret(s, psk, shared), MasterSecret(s, psk, shared);
    Derived(DeriveSecret(s, h, CLIENT_HANDSHAKE, hello), DeriveSecret(s, h, SERVER_HANDSHAKE, hello),
            DeriveSecret(s, m, CLIENT_APPLICATION, server), DeriveSecret(s, m, SERVER_APPLICATION, server),
            DeriveSecret(s, m, EXPORTER_MASTER, server), DeriveSecret(s, m, RESUMPTION_MASTER, client))
  }

  /**
   * Run to the end, the one storage holds exactly the defined secrets, although every root was overwritten in place.
   */
  method FullSchedule(suite: Suite, psk: Option<Bytes>, shared: Bytes, hello: Bytes, server: Bytes, client: Bytes)
    returns (all: Derived)
    requires IsSuite(suite) && |hello| <= 255 && |server| <= 255 && |client| <= 255
    ensures all == Definition(suite, psk, shared, hello, server, client)
  {
    var k := new KeySchedule(suite, psk);
    var ok := k.DeriveHandshake(shared, hello);
    assert k.Secrets()[ROOT] == HandshakeSecret(suite, psk, shared);
    ok := k.DeriveApplication(server);
    assert k.Secrets()[ROOT] == MasterSecret(suite, psk, shared);
    ok := k.DeriveResumption(client);
    all := k.Contents();
  }

  // ---------------------------------------------------------------- Finished and exporter

  /** The verify data uses its own output window as the HMAC key before overwriting it. */
  method FinishedInto(s: Suite, base: array<Byte>, transcript: Bytes, out: array<Byte>)
    requires IsSuite(s) && base.Length == s.size && out.Length == s.size
    modifies out
    ensures out[..] == s.hmac(DeriveSecret(s, old(base[..]), FINISHED, []), transcript)
  {
    ExpandLabelHash(s, base[..], FINISHED, [], out, 0);
    assert out[..] == DeriveSecret(s, old(base[..]), FINISHED, []);
    Put(out, 0, s.hmac(out[..], transcript));
  }

  datatype Exported = Keying(bytes: Bytes) | Unavailable | BadRequest

  /** The exporter interface of section 7.5 of RFC 8446. */
  ghost function Export(s: Suite, secret: Bytes, name: Bytes, context: Bytes, length: nat): Bytes
    requires IsSuite(s) && |name| <= 249 && length <= MAX_BLOCKS * s.size
  {
    ExpandLabel(s, DeriveSecret(s, secret, name, s.hash([])), EXPORTER, s.hash(context), length)
  }

  method ExportKeying(s: Suite, secret: Bytes, name: Bytes, context: Bytes, length: int) returns (r: Exported)
    requires IsSuite(s)
    ensures |secret| != s.size ==> r == Unavailable
    ensures |secret| == s.size && (|name| > 249 || length < 0 || length > MAX_BLOCKS * s.size) ==> r == BadRequest
    ensures |secret| == s.size && |name| <= 249 && 0 <= length <= MAX_BLOCKS * s.size ==>
              r == Keying(Export(s, secret, name, context, length))
  {
    if |secret| != s.size { return Unavailable; }
    if |name| > 255 - 6 || length < 0 || length > 255 * s.size { return BadRequest; }
    if length == 0 { return Keying([]); }
    var h := s.size;
    var scratch := new Byte[2 * h](_ => 0);
    ExpandLabelHash(s, secret, name, s.hash([]), scratch, 0);
    ghost var derived := DeriveSecret(s, secret, name, s.hash([]));
    assert scratch[..h] == derived;
    Put(scratch, h, s.hash(context));
    assert scratch[..h] == derived && scratch[h..] == s.hash(context);
    var out := new Byte[length](_ => 0);
    ExpandLabelWithScratchInto(s, scratch, EXPORTER, out);
    return Keying(out[..]);
  }
}
