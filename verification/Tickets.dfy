/** Session ticket states: the layouts they are encoded in and what parsing an encoding returns. */
module Tickets {
  import opened Wire
  import opened WireCodec

  const MIN_RECORD_SIZE_LIMIT := 64
  const DEFAULT_RECORD_SIZE_LIMIT := 16385
  const DIGEST_SIZE := 32

  datatype ExternalPsk = ExternalPsk(wire: Bytes, kdf: nat, digest: Bytes)

  datatype Terms = Terms(createdAt: int, lifetime: nat, ageAdd: nat, suite: nat)

  datatype Names = Names(psk: Bytes, serverName: Bytes, protocol: Bytes)

  datatype Limits = Limits(maxEarlyData: nat, recordSizeLimit: nat)

  /** Who the peer is. Certificates are their raw encodings. */
  datatype Identity = Identity(clientAuthAt: int, certificates: seq<Bytes>, chains: seq<seq<Bytes>>,
                               external: Option<ExternalPsk>, rawKey: Bytes, credential: Bytes)

  datatype State = State(terms: Terms, names: Names, limits: Limits, identity: Identity)

  const NOBODY := Identity(0, [], [], None, [], [])

  predicate Int64(x: int) {
    -0x8000_0000_0000_0000 <= x < 0x8000_0000_0000_0000
  }

  /** The ranges of the fields' machine types. */
  predicate WellTyped(s: State) {
    && Int64(s.terms.createdAt) && Int64(s.identity.clientAuthAt)
    && s.terms.lifetime < U32_LIMIT && s.terms.ageAdd < U32_LIMIT && s.terms.suite < U16_LIMIT
    && s.limits.maxEarlyData < U32_LIMIT && s.limits.recordSizeLimit < U16_LIMIT
    && (s.identity.external.Some?
        ==> s.identity.external.value.kdf < U16_LIMIT && |s.identity.external.value.digest| == DIGEST_SIZE)
  }

  /** Library parsers, as predicates on the bytes they accept. */
  datatype Checks = Checks(certificate: Bytes -> bool, key: Bytes -> bool, credential: Bytes -> bool)

  ghost predicate Sane(c: Checks) {
    !c.certificate([])
  }

  /** Certificates in memory came from the parser. */
  ghost predicate Genuine(c: Checks, id: Identity) {
    && (forall x :: x in id.certificates ==> c.certificate(x))
    && (forall chain, x :: chain in id.chains && x in chain ==> c.certificate(x))
  }

  predicate KnownKdf(kdf: nat) {
    kdf == 1 || kdf == 2
  }

  function Effective(limit: nat): nat {
    if limit < MIN_RECORD_SIZE_LIMIT || limit > DEFAULT_RECORD_SIZE_LIMIT then DEFAULT_RECORD_SIZE_LIMIT else limit
  }

  // ---------------------------------------------------------------- layouts

  /** Layouts that carry certificates. */
  predicate Certified(version: nat) {
    version == 3 || version == 5 || version == 8
  }

  function Version(s: State): nat {
    if s.identity.credential != [] then 8
    else if s.identity.rawKey != [] then 7
    else if s.identity.external.Some? then 6
    else if s.identity.certificates != [] then (if s.limits.maxEarlyData != 0 then 5 else 3)
    else if s.limits.maxEarlyData != 0 then 4
    else 1
  }

  predicate GoodChain(first: Bytes, chain: seq<Bytes>) {
    chain != [] && chain[0] == first && forall i :: 1 <= i < |chain| ==> chain[i] != []
  }

  predicate GoodCertificates(id: Identity) {
    && id.certificates != []
    && (forall i :: 0 <= i < |id.certificates| ==> id.certificates[i] != [])
    && (forall i :: 0 <= i < |id.chains| ==> GoodChain(id.certificates[0], id.chains[i]))
  }

  predicate GoodExternal(e: ExternalPsk) {
    0 < |e.wire| <= 65535 && KnownKdf(e.kdf)
  }

  /** What can be stored: a usable key and one consistent kind of peer. */
  predicate Acceptable(c: Checks, s: State) {
    var id := s.identity;
    && s.names.psk != [] && s.terms.lifetime != 0
    && |s.names.psk| <= 255 && |s.names.serverName| <= 65535 && |s.names.protocol| <= 255
    && (id.certificates == [] ==> id.chains == [])
    && (id.certificates != [] ==> id.clientAuthAt != 0 && id.external.None? && id.rawKey == [] && GoodCertificates(id))
    && (id.external.Some? ==> GoodExternal(id.external.value) && id.rawKey == [])
    && (id.rawKey != [] ==> id.clientAuthAt != 0 && c.key(id.rawKey))
    && (id.credential != [] ==> id.certificates != [] && c.credential(id.credential))
  }

  function Put64(x: int): (b: Bytes)
    requires Int64(x)
    ensures |b| == 8
  {
    PutUint(if x < 0 then x + U64_LIMIT else x, 8)
  }

  function Get64(v: nat): int {
    if v >= 0x8000_0000_0000_0000 then v - U64_LIMIT else v
  }

  function CertificateList(certs: seq<Bytes>): Built {
    if certs == [] then Some([]) else Cat(Vector(certs[0], 3), CertificateList(certs[1..]))
  }

  function Wrap(b: Built): Built {
    if b.Some? then Vector(b.value, 2) else None
  }

  /** A chain is stored without its first certificate, which is the peer's. */
  function ChainList(chains: seq<seq<Bytes>>): Built
    requires forall i :: 0 <= i < |chains| ==> chains[i] != []
  {
    if chains == [] then Some([]) else Cat(Wrap(CertificateList(chains[0][1..])), ChainList(chains[1..]))
  }

  function PutTerms(version: nat, t: Terms): Built
    requires Int64(t.createdAt)
  {
    Cat(Number(version, 2),
        Cat(Some(Put64(t.createdAt)), Cat(Number(t.lifetime, 4), Cat(Number(t.ageAdd, 4), Number(t.suite, 2)))))
  }

  function PutNames(n: Names): Built {
    Cat(Vector(n.psk, 1), Cat(Vector(n.serverName, 2), Vector(n.protocol, 1)))
  }

  function PutLimits(version: nat, l: Limits): Built {
    Cat(if version >= 2 then Number(l.maxEarlyData, 4) else Some([]),
        if version >= 4 then Number(Effective(l.recordSizeLimit), 2) else Some([]))
  }

  function PutCertificates(id: Identity): Built
    requires Int64(id.clientAuthAt) && GoodCertificates(id)
  {
    Cat(Some(Put64(id.clientAuthAt)), Cat(Wrap(CertificateList(id.certificates)), Wrap(ChainList(id.chains))))
  }

  function PutIdentity(version: nat, id: Identity): Built
    requires Int64(id.clientAuthAt)
    requires Certified(version) ==> GoodCertificates(id)
    requires version == 6 ==> id.external.Some?
  {
    if version == 8 then Cat(PutCertificates(id), Vector(id.credential, 3))
    else if Certified(version) then PutCertificates(id)
    else if version == 7 then Cat(Some(Put64(id.clientAuthAt)), Vector(id.rawKey, 3))
    else if version == 6 then
      var e := id.external.value;
      Cat(Vector(e.wire, 2), Cat(Number(e.kdf, 2), Some(e.digest)))
    else Some([])
  }

  function Encode(version: nat, s: State): Built
    requires Int64(s.terms.createdAt) && Int64(s.identity.clientAuthAt)
    requires Certified(version) ==> GoodCertificates(s.identity)
    requires version == 6 ==> s.identity.external.Some?
  {
    Cat(PutTerms(version, s.terms),
        Cat(PutNames(s.names), Cat(PutLimits(version, s.limits), PutIdentity(version, s.identity))))
  }

  function Marshal(c: Checks, s: State): Built
    requires WellTyped(s)
  {
    if Acceptable(c, s) then Encode(Version(s), s) else None
  }

  // ---------------------------------------------------------------- parsing

  function GetTerms(p: Unread): Read<Terms> {
    var created := Take(p, 8);
    var lifetime := GetNumber(created.next, 4);
    var ageAdd := GetNumber(lifetime.next, 4);
    var suite := GetNumber(ageAdd.next, 2);
    Read(Terms(Get64(GetUint(created.value)), lifetime.value, ageAdd.value, suite.value), suite.next)
  }

  function GetNames(p: Unread): Read<Names> {
    var psk := GetVector(p, 1);
    var serverName := GetVector(psk.next, 2);
    var protocol := GetVector(serverName.next, 1);
    Read(Names(psk.value, serverName.value, protocol.value), protocol.next)
  }

  function GetLimits(p: Unread, version: nat): Read<Limits> {
    var early := if version >= 2 then GetNumber(p, 4) else Read(0, p);
    var limit := if version >= 4 then GetNumber(early.next, 2) else Read(DEFAULT_RECORD_SIZE_LIMIT, early.next);
    Read(Limits(early.value, limit.value), limit.next)
  }

  lemma VectorShrinks(p: Unread, width: nat)
    requires width > 0
    ensures var r := GetVector(p, width);
            if r.next.failed then r.value == [] else |r.next.rest| == |p.rest| - width - |r.value|
  {}

  /** Reads to the end of the list; a truncated entry reads as empty, which no certificate is. */
  function GetCertificates(c: Checks, p: Unread): Option<seq<Bytes>>
    requires Sane(c)
    decreases |p.rest|
  {
    if p.rest == [] then (if p.failed then None else Some([]))
    else
      var r := GetVector(p, 3);
      if !c.certificate(r.value) then None
      else
        VectorShrinks(p, 3);
        var more := GetCertificates(c, r.next);
        if more.None? then None else Some([r.value] + more.value)
  }

  datatype Chains = ChainsRead(chains: seq<seq<Bytes>>) | ChainsBad | ChainsStuck

  /** Reads the chains. After a truncated entry the parser no longer moves, so the loop ends only if no byte is left. */
  function GetChains(c: Checks, certificates: seq<Bytes>, p: Unread): Chains
    requires Sane(c)
    decreases |p.rest|
  {
    if p.rest == [] then (if p.failed then ChainsBad else ChainsRead([]))
    else if certificates == [] then ChainsBad
    else if p.failed then ChainsStuck
    else
      VectorShrinks(p, 2);
      var r := GetVector(p, 2);
      if r.next.failed then (if r.next.rest == [] then ChainsBad else ChainsStuck)
      else
        var tail := GetCertificates(c, Unread(r.value, false));
        if tail.None? then ChainsBad
        else
          var more := GetChains(c, certificates, r.next);
          if more.ChainsRead? then ChainsRead([[certificates[0]] + tail.value] + more.chains) else more
  }

  datatype Identified = Known(identity: Identity, next: Unread) | Bad | Stuck

  function GetCertified(c: Checks, p: Unread): Identified
    requires Sane(c)
  {
    var auth := Take(p, 8);
    var list := GetVector(auth.next, 2);
    var certificates := GetCertificates(c, Unread(list.value, false));
    if certificates.None? then Bad
    else
      var encoded := GetVector(list.next, 2);
      match GetChains(c, certificates.value, Unread(encoded.value, false))
      case ChainsBad => Bad
      case ChainsStuck => Stuck
      case ChainsRead(chains) =>
        Known(NOBODY.(clientAuthAt := Get64(GetUint(auth.value)), certificates := certificates.value, chains := chains),
              encoded.next)
  }

  function GetExternal(p: Unread): Identified {
    var wire := GetVector(p, 2);
    var kdf := GetNumber(wire.next, 2);
    var digest := Take(kdf.next, DIGEST_SIZE);
    if wire.value == [] || !KnownKdf(kdf.value) then Bad
    else Known(NOBODY.(external := Some(ExternalPsk(wire.value, kdf.value, digest.value))), digest.next)
  }

  function GetRawKey(c: Checks, p: Unread): Identified {
    var auth := Take(p, 8);
    var key := GetVector(auth.next, 3);
    var at := Get64(GetUint(auth.value));
    if at == 0 || !c.key(key.value) then Bad else Known(NOBODY.(clientAuthAt := at, rawKey := key.value), key.next)
  }

  function GetIdentity(c: Checks, p: Unread, version: nat): Identified
    requires Sane(c)
  {
    if version == 6 then GetExternal(p)
    else if version == 7 then GetRawKey(c, p)
    else if Certified(version) then
      var r := GetCertified(c, p);
      if version != 8 || !r.Known? then r
      else
        var credential := GetVector(r.next, 3);
        if !c.credential(credential.value) then Bad
        else Known(r.identity.(credential := credential.value), credential.next)
    else Known(NOBODY, p)
  }

  datatype Outcome = Ticket(state: State) | Invalid | Endless

  predicate Usable(version: nat, s: State) {
    && s.terms.lifetime != 0 && s.names.psk != []
    && (Certified(version) ==> s.identity.clientAuthAt != 0 && s.identity.certificates != [])
  }

  function Parse(c: Checks, b: Bytes): Outcome
    requires Sane(c)
  {
    var version := GetNumber(Unread(b, false), 2);
    if version.value < 1 || version.value > 8 then Invalid
    else ParseBody(c, version.value, version.next)
  }

  function ParseBody(c: Checks, version: nat, p: Unread): Outcome
    requires Sane(c)
  {
    var terms := GetTerms(p);
    var names := GetNames(terms.next);
    var limits := GetLimits(names.next, version);
    if version >= 4
      && !(MIN_RECORD_SIZE_LIMIT <= limits.value.recordSizeLimit <= DEFAULT_RECORD_SIZE_LIMIT) then Invalid
    else match GetIdentity(c, limits.next, version)
      case Bad => Invalid
      case Stuck => Endless
      case Known(identity, next) =>
        var s := State(terms.value, names.value, limits.value, identity);
        if Finished(next) && Usable(version, s) then Ticket(s) else Invalid
  }

  // ---------------------------------------------------------------- round trip

  lemma Int64RoundTrip(x: int)
    requires Int64(x)
    ensures Get64(GetUint(Put64(x))) == x
  {
    RadixValues();
    GetPut(if x < 0 then x + U64_LIMIT else x, 8);
  }

  lemma {:induction false} CertificatesRoundTrip(c: Checks, certs: seq<Bytes>)
    requires Sane(c) && CertificateList(certs).Some? && forall x :: x in certs ==> c.certificate(x)
    ensures GetCertificates(c, Unread(CertificateList(certs).value, false)) == Some(certs)
  {
    if certs != [] {
      assert certs[0] in certs && certs == [certs[0]] + certs[1..];
      var rest := CertificateList(certs[1..]).value;
      VectorReads(certs[0], 3, rest);
      CertificatesRoundTrip(c, certs[1..]);
    }
  }

  lemma {:induction false} ChainsRoundTrip(c: Checks, certs: seq<Bytes>, chains: seq<seq<Bytes>>)
    requires Sane(c) && certs != [] && forall i :: 0 <= i < |chains| ==> chains[i] != [] && chains[i][0] == certs[0]
    requires forall chain, x :: chain in chains && x in chain ==> c.certificate(x)
    requires ChainList(chains).Some?
    ensures GetChains(c, certs, Unread(ChainList(chains).value, false)) == ChainsRead(chains)
  {
    if chains != [] {
      var first, more := chains[0], chains[1..];
      assert first in chains && forall chain :: chain in more ==> chain in chains;
      assert first == [certs[0]] + first[1..];
      CertificatesRoundTrip(c, first[1..]);
      VectorReads(CertificateList(first[1..]).value, 2, ChainList(more).value);
      ChainsRoundTrip(c, certs, more);
      assert chains == [first] + more;
    }
  }

  lemma TermsRoundTrip(t: Terms, rest: Bytes)
    requires Int64(t.createdAt) && t.lifetime < U32_LIMIT && t.ageAdd < U32_LIMIT && t.suite < U16_LIMIT
    ensures GetTerms(Unread(TermBytes(t, rest), false)) == Read(t, Unread(rest, false))
  {
    RadixValues();
    var b3 := PutUint(t.suite, 2) + rest;
    var b2 := PutUint(t.ageAdd, 4) + b3;
    var b1 := PutUint(t.lifetime, 4) + b2;
    BytesRead(Put64(t.createdAt), b1);
    Int64RoundTrip(t.createdAt);
    NumberReads(t.lifetime, 4, b2);
    NumberReads(t.ageAdd, 4, b3);
    NumberReads(t.suite, 2, rest);
  }

  lemma NamesRoundTrip(n: Names, rest: Bytes)
    requires PutNames(n).Some?
    ensures GetNames(Unread(PutNames(n).value + rest, false)) == Read(n, Unread(rest, false))
  {
    var psk, name, protocol := Vector(n.psk, 1).value, Vector(n.serverName, 2).value, Vector(n.protocol, 1).value;
    assert PutNames(n).value + rest == psk + (name + (protocol + rest));
    VectorReads(n.psk, 1, name + (protocol + rest));
    VectorReads(n.serverName, 2, protocol + rest);
    VectorReads(n.protocol, 1, rest);
  }

  function KeptLimits(version: nat, l: Limits): Limits {
    Limits(if version >= 2 then l.maxEarlyData else 0,
           if version >= 4 then Effective(l.recordSizeLimit) else DEFAULT_RECORD_SIZE_LIMIT)
  }

  lemma LimitsRoundTrip(version: nat, l: Limits, rest: Bytes)
    requires l.maxEarlyData < U32_LIMIT
    ensures PutLimits(version, l).Some?
    ensures GetLimits(Unread(PutLimits(version, l).value + rest, false), version)
            == Read(KeptLimits(version, l), Unread(rest, false))
  {
    RadixValues();
    var limit: Bytes := if version >= 4 then PutUint(Effective(l.recordSizeLimit), 2) else [];
    if version >= 2 {
      assert PutLimits(version, l).value + rest == PutUint(l.maxEarlyData, 4) + (limit + rest);
      NumberReads(l.maxEarlyData, 4, limit + rest);
    } else {
      assert PutLimits(version, l).value + rest == limit + rest;
    }
    if version >= 4 {
      NumberReads(Effective(l.recordSizeLimit), 2, rest);
    } else {
      assert limit + rest == rest;
    }
  }

  /** The three parts of a certified identity, read in order. */
  lemma CertifiedStages(c: Checks, id: Identity, p: Unread, p1: Unread, p2: Unread, p3: Unread, certs: Bytes,
                        chains: Bytes)
    requires Sane(c) && Int64(id.clientAuthAt)
    requires Take(p, 8) == Read(Put64(id.clientAuthAt), p1) && GetVector(p1, 2) == Read(certs, p2)
             && GetVector(p2, 2) == Read(chains, p3)
    requires GetCertificates(c, Unread(certs, false)) == Some(id.certificates)
    requires GetChains(c, id.certificates, Unread(chains, false)) == ChainsRead(id.chains)
    ensures GetCertified(c, p)
            == Known(NOBODY.(clientAuthAt := id.clientAuthAt, certificates := id.certificates, chains := id.chains), p3)
  {
    Int64RoundTrip(id.clientAuthAt);
  }

  lemma ThreeParts(a: Bytes, b: Bytes, c: Bytes, rest: Bytes)
    ensures a + (b + c) + rest == a + (b + (c + rest))
  {}

  lemma CertifiedRoundTrip(c: Checks, id: Identity, rest: Bytes)
    requires Sane(c) && Int64(id.clientAuthAt) && GoodCertificates(id) && Genuine(c, id) && PutCertificates(id).Some?
    ensures GetCertified(c, Unread(PutCertificates(id).value + rest, false))
            == Known(NOBODY.(clientAuthAt := id.clientAuthAt, certificates := id.certificates, chains := id.chains),
                     Unread(rest, false))
  {
    var certs, chains := CertificateList(id.certificates).value, ChainList(id.chains).value;
    var a, b, d := Put64(id.clientAuthAt), Vector(certs, 2).value, Vector(chains, 2).value;
    var p, p1, p2 := Unread(a + (b + (d + rest)), false), Unread(b + (d + rest), false), Unread(d + rest, false);
    ThreeParts(a, b, d, rest);
    BytesRead(a, p1.rest);
    VectorReads(certs, 2, p2.rest);
    VectorReads(chains, 2, rest);
    CertificatesRoundTrip(c, id.certificates);
    ChainsRoundTrip(c, id.certificates, id.chains);
    CertifiedStages(c, id, p, p1, p2, Unread(rest, false), certs, chains);
  }

  lemma ExternalRoundTrip(id: Identity, e: ExternalPsk)
    requires Int64(id.clientAuthAt) && id.external == Some(e) && GoodExternal(e) && |e.digest| == DIGEST_SIZE
             && PutIdentity(6, id).Some?
    ensures GetExternal(Unread(PutIdentity(6, id).value, false))
            == Known(NOBODY.(external := Some(e)), Unread([], false))
  {
    RadixValues();
    var a, b := Vector(e.wire, 2).value, PutUint(e.kdf, 2);
    assert PutIdentity(6, id).value == a + (b + e.digest);
    VectorReads(e.wire, 2, b + e.digest);
    NumberReads(e.kdf, 2, e.digest);
    assert e.digest + [] == e.digest;
    BytesRead(e.digest, []);
  }

  lemma RawKeyRoundTrip(c: Checks, id: Identity)
    requires Int64(id.clientAuthAt) && id.clientAuthAt != 0 && c.key(id.rawKey) && PutIdentity(7, id).Some?
    ensures GetRawKey(c, Unread(PutIdentity(7, id).value, false))
            == Known(NOBODY.(clientAuthAt := id.clientAuthAt, rawKey := id.rawKey), Unread([], false))
  {
    var a, b := Put64(id.clientAuthAt), Vector(id.rawKey, 3).value;
    assert PutIdentity(7, id).value == a + b && b + [] == b;
    BytesRead(a, b);
    Int64RoundTrip(id.clientAuthAt);
    VectorReads(id.rawKey, 3, []);
  }

  function KeptIdentity(version: nat, id: Identity): Identity {
    if Certified(version) || version == 7 then id else id.(clientAuthAt := 0)
  }

  lemma IdentityRoundTrip(c: Checks, s: State)
    requires Sane(c) && WellTyped(s) && Acceptable(c, s) && Genuine(c, s.identity)
             && PutIdentity(Version(s), s.identity).Some?
    ensures GetIdentity(c, Unread(PutIdentity(Version(s), s.identity).value, false), Version(s))
            == Known(KeptIdentity(Version(s), s.identity), Unread([], false))
  {
    var version, id := Version(s), s.identity;
    if version == 8 {
      var a, b := PutCertificates(id).value, Vector(id.credential, 3).value;
      CertifiedRoundTrip(c, id, b);
      assert b + [] == b;
      VectorReads(id.credential, 3, []);
    } else if version == 7 {
      RawKeyRoundTrip(c, id);
    } else if version == 6 {
      ExternalRoundTrip(id, id.external.value);
    } else if Certified(version) {
      var a := PutCertificates(id).value;
      CertifiedRoundTrip(c, id, []);
      assert a + [] == a;
    }
  }

  /** The documented loss: a default size limit where none is stored, and no authentication time where none is. */
  function Normalise(s: State): State {
    s.(limits := KeptLimits(Version(s), s.limits), identity := KeptIdentity(Version(s), s.identity))
  }

  /** What follows the terms in an encoding. */
  function Tail(version: nat, s: State): Bytes
    requires Int64(s.terms.createdAt) && Int64(s.identity.clientAuthAt)
    requires Certified(version) ==> GoodCertificates(s.identity)
    requires version == 6 ==> s.identity.external.Some?
    requires Encode(version, s).Some?
  {
    PutNames(s.names).value + (PutLimits(version, s.limits).value + PutIdentity(version, s.identity).value)
  }

  function TermBytes(t: Terms, rest: Bytes): Bytes
    requires Int64(t.createdAt)
  {
    Put64(t.createdAt) + (PutUint(t.lifetime, 4) + (PutUint(t.ageAdd, 4) + (PutUint(t.suite, 2) + rest)))
  }

  lemma TermsFirst(version: nat, t: Terms, rest: Bytes)
    requires Int64(t.createdAt) && PutTerms(version, t).Some?
    ensures PutTerms(version, t).value + rest == PutUint(version, 2) + TermBytes(t, rest)
  {
    var a, b, d := PutUint(version, 2), Put64(t.createdAt), PutUint(t.lifetime, 4);
    var e, f := PutUint(t.ageAdd, 4), PutUint(t.suite, 2);
    assert PutTerms(version, t).value == a + (b + (d + (e + f)));
    assert a + (b + (d + (e + f))) + rest == a + (b + (d + (e + (f + rest))));
  }

  /** The stages of parsing, put together. */
  lemma Stages(c: Checks, version: nat, s: State, p: Unread, p1: Unread, p2: Unread, p3: Unread)
    requires Sane(c) && Usable(version, s)
    requires GetTerms(p) == Read(s.terms, p1) && GetNames(p1) == Read(s.names, p2)
             && GetLimits(p2, version) == Read(s.limits, p3)
    requires version >= 4 ==> MIN_RECORD_SIZE_LIMIT <= s.limits.recordSizeLimit <= DEFAULT_RECORD_SIZE_LIMIT
    requires GetIdentity(c, p3, version) == Known(s.identity, Unread([], false))
    ensures ParseBody(c, version, p) == Ticket(s)
  {}

  lemma TailRoundTrip(c: Checks, s: State, id: Bytes, rest: Bytes, tail: Bytes)
    requires Sane(c) && WellTyped(s) && Genuine(c, s.identity) && Acceptable(c, s)
    requires PutIdentity(Version(s), s.identity) == Some(id) && PutNames(s.names).Some?
    requires PutLimits(Version(s), s.limits).Some? && rest == PutLimits(Version(s), s.limits).value + id
    requires tail == PutNames(s.names).value + rest
    ensures ParseBody(c, Version(s), Unread(TermBytes(s.terms, tail), false)) == Ticket(Normalise(s))
  {
    var version := Version(s);
    TermsRoundTrip(s.terms, tail);
    NamesRoundTrip(s.names, rest);
    LimitsRoundTrip(version, s.limits, id);
    IdentityRoundTrip(c, s);
    Stages(c, version, Normalise(s), Unread(TermBytes(s.terms, tail), false), Unread(tail, false), Unread(rest, false),
           Unread(id, false));
  }

  /** Every state that is marshalled parses back, in every layout. */
  lemma TicketRoundTrip(c: Checks, s: State)
    requires Sane(c) && WellTyped(s) && Genuine(c, s.identity) && Marshal(c, s).Some?
    ensures Parse(c, Marshal(c, s).value) == Ticket(Normalise(s))
  {
    var version := Version(s);
    var body := TermBytes(s.terms, Tail(version, s));
    TermsFirst(version, s.terms, Tail(version, s));
    assert Marshal(c, s).value == PutUint(version, 2) + body;
    RadixValues();
    NumberReads(version, 2, body);
    var id := PutIdentity(version, s.identity).value;
    TailRoundTrip(c, s, id, PutLimits(version, s.limits).value + id, Tail(version, s));
  }

  /** Hence two states with one encoding agree on everything but what the layout drops. */
  lemma EncodingIsInjective(c: Checks, s: State, t: State)
    requires Sane(c) && WellTyped(s) && WellTyped(t) && Genuine(c, s.identity) && Genuine(c, t.identity)
    requires Marshal(c, s).Some? && Marshal(c, s) == Marshal(c, t)
    ensures Normalise(s) == Normalise(t)
  {
    TicketRoundTrip(c, s);
    TicketRoundTrip(c, t);
  }

  // ---------------------------------------------------------------- over-long vectors

  function ListSize(certs: seq<Bytes>): nat {
    if certs == [] then 0 else 3 + |certs[0]| + ListSize(certs[1..])
  }

  predicate EachFits(certs: seq<Bytes>) {
    forall i :: 0 <= i < |certs| ==> |certs[i]| < U24_LIMIT
  }

  lemma {:induction false} CertificateListFits(certs: seq<Bytes>)
    ensures CertificateList(certs).Some? <==> EachFits(certs)
    ensures CertificateList(certs).Some? ==> |CertificateList(certs).value| == ListSize(certs)
  {
    RadixValues();
    if certs != [] {
      CertificateListFits(certs[1..]);
      assert EachFits(certs) <==> |certs[0]| < U24_LIMIT && EachFits(certs[1..]) by {
        assert forall i :: 0 <= i < |certs[1..]| ==> certs[1..][i] == certs[i + 1];
        if |certs[0]| < U24_LIMIT && EachFits(certs[1..]) {
          assert forall i :: 1 <= i < |certs| ==> certs[i] == certs[1..][i - 1];
        }
      }
    }
  }

  function ChainsSize(chains: seq<seq<Bytes>>): nat
    requires forall i :: 0 <= i < |chains| ==> chains[i] != []
  {
    if chains == [] then 0 else 2 + ListSize(chains[0][1..]) + ChainsSize(chains[1..])
  }

  predicate ListFits(certs: seq<Bytes>) {
    EachFits(certs) && ListSize(certs) <= 65535
  }

  lemma {:induction false} ChainListFits(chains: seq<seq<Bytes>>)
    requires forall i :: 0 <= i < |chains| ==> chains[i] != []
    ensures ChainList(chains).Some? <==> forall i :: 0 <= i < |chains| ==> ListFits(chains[i][1..])
    ensures ChainList(chains).Some? ==> |ChainList(chains).value| == ChainsSize(chains)
  {
    RadixValues();
    if chains != [] {
      CertificateListFits(chains[0][1..]);
      ChainListFits(chains[1..]);
      assert forall i :: 0 <= i < |chains[1..]| ==> chains[1..][i] == chains[i + 1];
      if ChainList(chains).Some? {
        forall i | 0 <= i < |chains| ensures ListFits(chains[i][1..]) {
          assert i > 0 ==> chains[i] == chains[1..][i - 1];
        }
      }
    }
  }

  /** The lengths that each have a fixed number of bytes. */
  predicate VectorsFit(version: nat, id: Identity)
    requires Certified(version) ==> GoodCertificates(id)
  {
    && (Certified(version) ==>
          && ListFits(id.certificates)
          && (forall i :: 0 <= i < |id.chains| ==> ListFits(id.chains[i][1..]))
          && ChainsSize(id.chains) <= 65535)
    && (version == 7 ==> |id.rawKey| < U24_LIMIT)
    && (version == 8 ==> |id.credential| < U24_LIMIT)
  }

  lemma IdentityFits(version: nat, id: Identity)
    requires Int64(id.clientAuthAt) && (Certified(version) ==> GoodCertificates(id))
    requires version == 6
             ==> id.external.Some? && |id.external.value.wire| <= 65535 && id.external.value.kdf < U16_LIMIT
    ensures PutIdentity(version, id).Some? <==> VectorsFit(version, id)
  {
    RadixValues();
    if Certified(version) {
      CertificateListFits(id.certificates);
      ChainListFits(id.chains);
    }
  }

  /** Marshalling succeeds exactly when the state is acceptable and every vector fits its length field. */
  lemma OverlongIsAnError(c: Checks, s: State)
    requires WellTyped(s)
    ensures Marshal(c, s).Some? <==> Acceptable(c, s) && VectorsFit(Version(s), s.identity)
  {
    if Acceptable(c, s) {
      HeadFits(Version(s), s);
      IdentityFits(Version(s), s.identity);
    }
  }

  lemma HeadFits(version: nat, s: State)
    requires WellTyped(s) && version < U16_LIMIT
    requires |s.names.psk| <= 255 && |s.names.serverName| <= 65535 && |s.names.protocol| <= 255
    ensures PutTerms(version, s.terms).Some? && PutNames(s.names).Some? && PutLimits(version, s.limits).Some?
  {
    RadixValues();
  }

  // ---------------------------------------------------------------- endless loops

  /** What one more turn of the source's loop over the chains does to the parser. */
  function Turns(p: Unread, n: nat): Unread
    decreases n
  {
    if n == 0 then p else Turns(GetVector(p, 2).next, n - 1)
  }

  /** Once an entry is truncated with bytes left, no number of turns reaches the end of the vector. */
  lemma {:induction false} StuckForever(p: Unread, n: nat)
    requires p.failed && p.rest != []
    ensures Turns(p, n) == p && Turns(p, n).rest != []
  {
    if n > 0 {
      FailureIsLatched(p, 2);
      StuckForever(p, n - 1);
    }
  }

  /** After entries that fit, the vector ends inside an entry, and not right behind that entry's length. */
  ghost predicate CutShort(b: Bytes)
    decreases |b|
  {
    if |b| < 2 then |b| == 1
    else
      var n := GetUint(b[..2]);
      if n <= |b| - 2 then CutShort(b[2 + n..]) else |b| > 2
  }

  /** The entries that fit are lists of certificates. */
  ghost predicate ReadUpToCut(c: Checks, b: Bytes)
    requires Sane(c)
    decreases |b|
  {
    if |b| < 2 then true
    else
      var n := GetUint(b[..2]);
      n <= |b| - 2 ==> GetCertificates(c, Unread(b[2..2 + n], false)).Some? && ReadUpToCut(c, b[2 + n..])
  }

  /** The loop over the chains runs forever exactly when the vector is cut short after well-formed chains. */
  lemma {:induction false} EndlessExactlyWhenCutShort(c: Checks, certs: seq<Bytes>, b: Bytes)
    requires Sane(c)
    ensures GetChains(c, certs, Unread(b, false)) == ChainsStuck <==> certs != [] && CutShort(b) && ReadUpToCut(c, b)
    decreases |b|
  {
    if b != [] && certs != [] {
      var r := GetVector(Unread(b, false), 2);
      if |b| >= 2 {
        var n := GetUint(b[..2]);
        if n <= |b| - 2 {
          assert b[2..][..n] == b[2..2 + n] && b[2..][n..] == b[2 + n..];
          EndlessExactlyWhenCutShort(c, certs, b[2 + n..]);
        }
      }
    }
  }
}
