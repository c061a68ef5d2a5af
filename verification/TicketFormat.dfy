/** Session tickets are read exactly from their encodings: nothing else is accepted, and every layout is fixed. */
module TicketFormat {
  import opened Wire
  import opened WireCodec
  import opened Tickets
  import opened EndlessTickets

  // ---------------------------------------------------------------- the bytes of a ticket

  function Counted(b: Bytes, width: nat): Bytes {
    PutUint(|b|, width) + b
  }

  function Listed(certificates: seq<Bytes>): Bytes {
    if certificates == [] then [] else Counted(certificates[0], 3) + Listed(certificates[1..])
  }

  /** Each chain without its first certificate. */
  function ListedChains(chains: seq<seq<Bytes>>): Bytes
    requires forall i :: 0 <= i < |chains| ==> chains[i] != []
  {
    if chains == [] then [] else Counted(Listed(chains[0][1..]), 2) + ListedChains(chains[1..])
  }

  /** A record size limit outside 64 to 16385 is stored as the largest. */
  function Within(limit: nat): nat {
    if 64 <= limit <= 16385 then limit else 16385
  }

  function Head(version: nat, s: State): Bytes
    requires Int64(s.terms.createdAt)
  {
    PutUint(version, 2) + Put64(s.terms.createdAt) + PutUint(s.terms.lifetime, 4) + PutUint(s.terms.ageAdd, 4)
    + PutUint(s.terms.suite, 2)
    + Counted(s.names.psk, 1) + Counted(s.names.serverName, 2) + Counted(s.names.protocol, 1)
    + (if version >= 2 then PutUint(s.limits.maxEarlyData, 4) else [])
    + (if version >= 4 then PutUint(Within(s.limits.recordSizeLimit), 2) else [])
  }

  /** Layouts 3, 5 and 8 carry certificates, 8 also a delegated credential, 7 a raw key and 6 an imported PSK. */
  function Peer(version: nat, id: Identity): Bytes
    requires Int64(id.clientAuthAt) && forall i :: 0 <= i < |id.chains| ==> id.chains[i] != []
    requires version == 6 ==> id.external.Some?
  {
    if version == 3 || version == 5 || version == 8 then
      Put64(id.clientAuthAt) + Counted(Listed(id.certificates), 2) + Counted(ListedChains(id.chains), 2)
      + (if version == 8 then Counted(id.credential, 3) else [])
    else if version == 7 then Put64(id.clientAuthAt) + Counted(id.rawKey, 3)
    else if version == 6 then
      Counted(id.external.value.wire, 2) + PutUint(id.external.value.kdf, 2) + id.external.value.digest
    else []
  }

  lemma {:induction false} ListBytes(certificates: seq<Bytes>)
    requires CertificateList(certificates).Some?
    ensures CertificateList(certificates).value == Listed(certificates)
  {
    if certificates != [] { ListBytes(certificates[1..]); }
  }

  lemma {:induction false} ChainBytes(chains: seq<seq<Bytes>>)
    requires forall i :: 0 <= i < |chains| ==> chains[i] != []
    requires ChainList(chains).Some?
    ensures ChainList(chains).value == ListedChains(chains)
  {
    if chains != [] {
      ListBytes(chains[0][1..]);
      ChainBytes(chains[1..]);
    }
  }

  lemma PeerBytes(version: nat, id: Identity)
    requires Int64(id.clientAuthAt) && (Certified(version) ==> GoodCertificates(id))
    requires forall i :: 0 <= i < |id.chains| ==> id.chains[i] != []
    requires version == 6 ==> id.external.Some?
    requires PutIdentity(version, id).Some?
    ensures PutIdentity(version, id).value == Peer(version, id)
  {
    if Certified(version) {
      ListBytes(id.certificates);
      ChainBytes(id.chains);
      var a, b, d := Put64(id.clientAuthAt), Counted(Listed(id.certificates), 2), Counted(ListedChains(id.chains), 2);
      assert a + (b + d) == a + b + d;
      assert a + b + d + [] == a + b + d;
    }
  }

  lemma HeadBytes(version: nat, s: State)
    requires Int64(s.terms.createdAt) && PutTerms(version, s.terms).Some? && PutNames(s.names).Some?
    requires PutLimits(version, s.limits).Some?
    ensures PutTerms(version, s.terms).value + PutNames(s.names).value + PutLimits(version, s.limits).value
            == Head(version, s)
  {}

  lemma EncodedParts(version: nat, s: State)
    requires Int64(s.terms.createdAt) && Int64(s.identity.clientAuthAt)
    requires (Certified(version) ==> GoodCertificates(s.identity)) && (version == 6 ==> s.identity.external.Some?)
    requires Encode(version, s).Some? && forall i :: 0 <= i < |s.identity.chains| ==> s.identity.chains[i] != []
    ensures PutTerms(version, s.terms).Some? && PutNames(s.names).Some? && PutLimits(version, s.limits).Some?
    ensures PutIdentity(version, s.identity).Some?
    ensures Encode(version, s).value == Head(version, s) + Peer(version, s.identity)
  {
    hide PutTerms, PutNames, PutLimits, PutIdentity, Head, Peer;
    var a, b := PutTerms(version, s.terms).value, PutNames(s.names).value;
    var l, d := PutLimits(version, s.limits).value, PutIdentity(version, s.identity).value;
    assert a + (b + (l + d)) == a + b + l + d;
    HeadBytes(version, s);
    PeerBytes(version, s.identity);
  }

  lemma ChainsAreNotEmpty(c: Checks, s: State)
    requires Acceptable(c, s)
    ensures forall i :: 0 <= i < |s.identity.chains| ==> s.identity.chains[i] != []
  {
    var id := s.identity;
    forall i | 0 <= i < |id.chains| ensures id.chains[i] != [] {
      assert id.certificates != [] && GoodChain(id.certificates[0], id.chains[i]);
    }
  }

  /** The layout of an encoding, spelled out. Which layout is used says what the ticket holds. */
  lemma TicketLayout(c: Checks, s: State)
    requires WellTyped(s) && Marshal(c, s).Some?
    ensures var id := s.identity;
            var version := if id.credential != [] then 8 else if id.rawKey != [] then 7 else if id.external.Some? then 6
                           else if id.certificates != [] then (if s.limits.maxEarlyData != 0 then 5 else 3)
                           else if s.limits.maxEarlyData != 0 then 4 else 1;
            && (forall i :: 0 <= i < |id.chains| ==> id.chains[i] != [])
            && Marshal(c, s).value == Head(version, s) + Peer(version, id)
  {
    hide Encode, Head, Peer;
    ChainsAreNotEmpty(c, s);
    EncodedParts(Version(s), s);
  }

  // ---------------------------------------------------------------- only encodings are accepted

  lemma {:induction false} CertificatesTaken(c: Checks, b: Bytes, certificates: seq<Bytes>)
    requires Sane(c) && GetCertificates(c, Unread(b, false)) == Some(certificates)
    ensures CertificateList(certificates) == Some(b) && forall x :: x in certificates ==> c.certificate(x) && x != []
    decreases |b|
  {
    if b != [] {
      var r := GetVector(Unread(b, false), 3);
      VectorShrinks(Unread(b, false), 3);
      VectorTaken(Unread(b, false), 3);
      CertificatesTaken(c, r.next.rest, certificates[1..]);
      assert certificates == [r.value] + certificates[1..];
    }
  }

  lemma {:induction false} ChainsTaken(c: Checks, certificates: seq<Bytes>, b: Bytes, chains: seq<seq<Bytes>>)
    requires Sane(c) && GetChains(c, certificates, Unread(b, false)) == ChainsRead(chains)
    requires forall x :: x in certificates ==> c.certificate(x)
    ensures chains != [] ==> certificates != []
    ensures forall i :: 0 <= i < |chains| ==> chains[i] != [] && GoodChain(certificates[0], chains[i])
    ensures forall chain, x :: chain in chains && x in chain ==> c.certificate(x)
    ensures ChainList(chains) == Some(b)
    decreases |b|
  {
    if b != [] {
      var r := GetVector(Unread(b, false), 2);
      VectorTaken(Unread(b, false), 2);
      var tail := GetCertificates(c, Unread(r.value, false)).value;
      CertificatesTaken(c, r.value, tail);
      assert chains[0] == [certificates[0]] + tail && chains[0][1..] == tail;
      ChainsTaken(c, certificates, r.next.rest, chains[1..]);
      assert chains == [chains[0]] + chains[1..];
      assert forall i :: 0 < i < |chains| ==> chains[i] == chains[1..][i - 1];
      assert certificates[0] in certificates;
    }
  }

  /** A peer that a ticket of this layout can hold. */
  ghost predicate Readable(c: Checks, version: nat, id: Identity) {
    && Int64(id.clientAuthAt)
    && if Certified(version) then
         && GoodCertificates(id) && Genuine(c, id) && id.clientAuthAt != 0 && id.external.None? && id.rawKey == []
         && (if version == 8 then c.credential(id.credential) else id.credential == [])
       else if version == 7 then
         id == NOBODY.(clientAuthAt := id.clientAuthAt, rawKey := id.rawKey) && id.clientAuthAt != 0 && c.key(id.rawKey)
       else if version == 6 then
         && id.external.Some? && id == NOBODY.(external := id.external)
         && GoodExternal(id.external.value) && |id.external.value.digest| == 32
       else id == NOBODY
  }

  lemma CertifiedPartTaken(c: Checks, p: Unread, id: Identity, next: Unread)
    requires Sane(c) && GetCertified(c, p) == Known(id, next) && !next.failed && id.certificates != []
    ensures !p.failed && Int64(id.clientAuthAt) && GoodCertificates(id) && Genuine(c, id)
    ensures id == NOBODY.(clientAuthAt := id.clientAuthAt, certificates := id.certificates, chains := id.chains)
    ensures PutCertificates(id).Some? && p.rest == PutCertificates(id).value + next.rest
  {
    var auth := Take(p, 8);
    var list := GetVector(auth.next, 2);
    var encoded := GetVector(list.next, 2);
    CertifiedTaken(p);
    EightBytesTaken(auth.value);
    CertificatesTaken(c, list.value, id.certificates);
    ChainsTaken(c, id.certificates, encoded.value, id.chains);
    assert forall i :: 0 <= i < |id.certificates| ==> id.certificates[i] in id.certificates;
    ThreeParts(auth.value, Vector(list.value, 2).value, Vector(encoded.value, 2).value, next.rest);
  }

  lemma ExternalTaken(p: Unread, id: Identity, next: Unread)
    requires GetExternal(p) == Known(id, next) && !next.failed
    ensures !p.failed && id.external.Some? && id == NOBODY.(external := id.external)
    ensures GoodExternal(id.external.value) && |id.external.value.digest| == 32
    ensures PutIdentity(6, id).Some? && p.rest == PutIdentity(6, id).value + next.rest
  {
    RadixValues();
    var wire := GetVector(p, 2);
    var kdf := GetNumber(wire.next, 2);
    TakenBytes(kdf.next, DIGEST_SIZE);
    NumberTaken(wire.next, 2);
    VectorTaken(p, 2);
    var e := id.external.value;
    ThreeParts(Vector(e.wire, 2).value, PutUint(e.kdf, 2), e.digest, next.rest);
  }

  lemma RawKeyTaken(c: Checks, p: Unread, id: Identity, next: Unread)
    requires GetRawKey(c, p) == Known(id, next) && !next.failed
    ensures !p.failed && Readable(c, 7, id)
    ensures PutIdentity(7, id).Some? && p.rest == PutIdentity(7, id).value + next.rest
  {
    var auth := Take(p, 8);
    var key := GetVector(auth.next, 3);
    VectorTaken(auth.next, 3);
    TakenBytes(p, 8);
    EightBytesTaken(auth.value);
    assert auth.value + (Vector(key.value, 3).value + next.rest) == auth.value + Vector(key.value, 3).value + next.rest;
  }

  lemma CredentialTaken(c: Checks, p: Unread, id: Identity, next: Unread)
    requires Sane(c) && GetIdentity(c, p, 8) == Known(id, next) && !next.failed
    requires id.certificates != [] && id.clientAuthAt != 0
    ensures !p.failed && Readable(c, 8, id) && PutIdentity(8, id).Some?
            && p.rest == PutIdentity(8, id).value + next.rest
  {
    hide GetCertified, GetVector, PutCertificates;
    var r := GetCertified(c, p);
    VectorTaken(r.next, 3);
    CertifiedPartTaken(c, p, r.identity, r.next);
    var a, b := PutCertificates(r.identity).value, Vector(id.credential, 3).value;
    SameCertificates(id, r.identity);
    assert a + (b + next.rest) == a + b + next.rest;
  }

  lemma SameCertificates(id: Identity, other: Identity)
    requires id.clientAuthAt == other.clientAuthAt && id.certificates == other.certificates && id.chains == other.chains
    requires Int64(id.clientAuthAt) && GoodCertificates(other)
    ensures GoodCertificates(id) && PutCertificates(id) == PutCertificates(other)
  {}

  /** Whatever was read of a peer is its encoding. */
  lemma IdentityTaken(c: Checks, p: Unread, version: nat, id: Identity, next: Unread)
    requires Sane(c) && GetIdentity(c, p, version) == Known(id, next) && !next.failed
    requires Certified(version) ==> id.certificates != [] && id.clientAuthAt != 0
    ensures !p.failed && Readable(c, version, id)
    ensures PutIdentity(version, id).Some? && p.rest == PutIdentity(version, id).value + next.rest
  {
    if version == 8 {
      CredentialTaken(c, p, id, next);
    } else if Certified(version) {
      CertifiedPartTaken(c, p, id, next);
    } else if version == 7 {
      RawKeyTaken(c, p, id, next);
    } else if version == 6 {
      ExternalTaken(p, id, next);
    } else {
      assert [] + p.rest == p.rest;
    }
  }

  lemma IdentityRead(c: Checks, version: nat, id: Identity)
    requires Sane(c) && Readable(c, version, id) && PutIdentity(version, id).Some?
    ensures GetIdentity(c, Unread(PutIdentity(version, id).value, false), version) == Known(id, Unread([], false))
  {
    if version == 8 {
      var a, b := PutCertificates(id).value, Vector(id.credential, 3).value;
      CertifiedRoundTrip(c, id, b);
      assert b + [] == b;
      VectorReads(id.credential, 3, []);
    } else if Certified(version) {
      CertifiedRoundTrip(c, id, []);
      assert PutCertificates(id).value + [] == PutCertificates(id).value;
    } else if version == 7 {
      RawKeyRoundTrip(c, id);
    } else if version == 6 {
      ExternalRoundTrip(id, id.external.value);
    }
  }

  // ---------------------------------------------------------------- the whole ticket

  /** A state that a ticket of this layout can hold, in fields that the layout has. */
  ghost predicate Admissible(c: Checks, version: nat, s: State) {
    && 1 <= version <= 8 && TermsFit(s.terms) && s.terms.lifetime != 0 && s.names.psk != []
    && LimitsFit(version, s.limits) && (version < 2 ==> s.limits.maxEarlyData == 0)
    && (version < 4 ==> s.limits.recordSizeLimit == 16385)
    && Readable(c, version, s.identity)
  }

  lemma EncodedForm(version: nat, s: State)
    requires Int64(s.terms.createdAt) && Int64(s.identity.clientAuthAt)
    requires (Certified(version) ==> GoodCertificates(s.identity)) && (version == 6 ==> s.identity.external.Some?)
    requires PutTerms(version, s.terms).Some? && PutNames(s.names).Some? && PutLimits(version, s.limits).Some?
    requires PutIdentity(version, s.identity).Some?
    ensures Encode(version, s) == Some(PutUint(version, 2) + TermBytes(s.terms, Tail(version, s)))
  {
    hide PutNames, PutLimits, PutIdentity, TermBytes;
    TermsFirst(version, s.terms, Tail(version, s));
  }

  lemma TermsEncode(version: nat, t: Terms)
    requires version < U16_LIMIT && TermsFit(t)
    ensures PutTerms(version, t).Some?
  {
    RadixValues();
  }

  lemma ReadStages(c: Checks, version: nat, p: Unread, s: State)
    requires Sane(c) && ParseBody(c, version, p) == Ticket(s)
    ensures var terms := GetTerms(p);
            var names := GetNames(terms.next);
            var limits := GetLimits(names.next, version);
            && s == State(terms.value, names.value, limits.value, s.identity) && Usable(version, s)
            && GetIdentity(c, limits.next, version) == Known(s.identity, Unread([], false))
            && (version >= 4 ==> MIN_RECORD_SIZE_LIMIT <= limits.value.recordSizeLimit <= DEFAULT_RECORD_SIZE_LIMIT)
  {
    hide GetTerms, GetNames, GetLimits, GetIdentity;
  }

  lemma AcceptedBody(c: Checks, version: nat, p: Unread, s: State)
    requires Sane(c) && 1 <= version <= 8 && ParseBody(c, version, p) == Ticket(s)
    ensures !p.failed && Admissible(c, version, s) && Encode(version, s) == Some(PutUint(version, 2) + p.rest)
  {
    hide ParseBody, GetIdentity, TermBytes, PutTerms;
    ReadStages(c, version, p, s);
    var p1 := GetTerms(p).next;
    var p2 := GetNames(p1).next;
    var p3 := GetLimits(p2, version).next;
    IdentityTaken(c, p3, version, s.identity, Unread([], false));
    LimitsTaken(p2, version);
    NamesTaken(p1);
    TermsTaken(p);
    TermsEncode(version, s.terms);
    var id := PutIdentity(version, s.identity).value;
    assert id + [] == id;
    EncodedForm(version, s);
  }

  lemma EncodedIsRead(c: Checks, version: nat, s: State)
    requires Sane(c) && Admissible(c, version, s) && Encode(version, s).Some?
    ensures Parse(c, Encode(version, s).value) == Ticket(s)
  {
    hide TermBytes, GetIdentity, PutIdentity;
    var id := PutIdentity(version, s.identity).value;
    var rest := PutLimits(version, s.limits).value + id;
    var tail := PutNames(s.names).value + rest;
    EncodedForm(version, s);
    RadixValues();
    NumberReads(version, 2, TermBytes(s.terms, tail));
    TermsRoundTrip(s.terms, tail);
    NamesRoundTrip(s.names, rest);
    LimitsRoundTrip(version, s.limits, id);
    IdentityRead(c, version, s.identity);
    Stages(c, version, s, Unread(TermBytes(s.terms, tail), false), Unread(tail, false), Unread(rest, false),
           Unread(id, false));
  }

  /** Parsing returns a state exactly for its encodings, in any layout that can hold it, with nothing behind them. */
  lemma ParsesExactly(c: Checks, b: Bytes, s: State)
    requires Sane(c)
    ensures Parse(c, b) == Ticket(s)
            <==> exists version :: Admissible(c, version, s) && Encode(version, s) == Some(b)
  {
    hide ParseBody, Encode;
    if Parse(c, b) == Ticket(s) {
      var version := GetNumber(Unread(b, false), 2);
      AcceptedBody(c, version.value, version.next, s);
      NumberTaken(Unread(b, false), 2);
    }
    if version :| Admissible(c, version, s) && Encode(version, s) == Some(b) { EncodedIsRead(c, version, s); }
  }
}
