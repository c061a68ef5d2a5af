/** The tickets on which parsing never ends: which bytes they are made of. */
module EndlessTickets {
  import opened Wire
  import opened WireCodec
  import opened Tickets

  /** The fields of a ticket with certificates, up to the vector of chains, and whatever follows. */
  datatype Opening = Opening(version: nat, terms: Terms, names: Names, limits: Limits, authAt: int, certificates: Bytes,
                             chains: Bytes, rest: Bytes)

  ghost predicate TermsFit(t: Terms) {
    Int64(t.createdAt) && t.lifetime < U32_LIMIT && t.ageAdd < U32_LIMIT && t.suite < U16_LIMIT
  }

  ghost predicate LimitsFit(version: nat, l: Limits) {
    && l.maxEarlyData < U32_LIMIT
    && (version >= 4 ==> MIN_RECORD_SIZE_LIMIT <= l.recordSizeLimit <= DEFAULT_RECORD_SIZE_LIMIT)
  }

  /** Every field is in the range of its encoding. */
  ghost predicate Fits(o: Opening) {
    && Certified(o.version) && TermsFit(o.terms) && PutNames(o.names).Some?
    && LimitsFit(o.version, o.limits) && PutLimits(o.version, o.limits).Some?
    && Int64(o.authAt) && Vector(o.certificates, 2).Some? && Vector(o.chains, 2).Some?
  }

  ghost function CertifiedBytes(o: Opening): Bytes
    requires Fits(o)
  {
    Put64(o.authAt) + (Vector(o.certificates, 2).value + (Vector(o.chains, 2).value + o.rest))
  }

  ghost function Laid(o: Opening): Bytes
    requires Fits(o)
  {
    PutUint(o.version, 2)
    + TermBytes(o.terms, PutNames(o.names).value + (PutLimits(o.version, o.limits).value + CertifiedBytes(o)))
  }

  /** At least one certificate, all of them accepted, before chains that are cut short. */
  ghost predicate Hangs(c: Checks, o: Opening)
    requires Sane(c)
  {
    var certificates := GetCertificates(c, Unread(o.certificates, false));
    certificates.Some? && certificates.value != [] && CutShort(o.chains) && ReadUpToCut(c, o.chains)
  }

  // ---------------------------------------------------------------- such a ticket hangs the parser

  lemma CertifiedPartsRead(o: Opening, p1: Unread, p2: Unread)
    requires Fits(o) && p2 == Unread(Vector(o.chains, 2).value + o.rest, false)
    requires p1 == Unread(Vector(o.certificates, 2).value + p2.rest, false)
    ensures Take(Unread(CertifiedBytes(o), false), 8) == Read(Put64(o.authAt), p1)
    ensures GetVector(p1, 2) == Read(o.certificates, p2)
    ensures GetVector(p2, 2) == Read(o.chains, Unread(o.rest, false))
  {
    BytesRead(Put64(o.authAt), p1.rest);
    VectorReads(o.certificates, 2, p2.rest);
    VectorReads(o.chains, 2, o.rest);
  }

  /** The loop over the chains decides whether reading the identity ends. */
  lemma StuckInChains(c: Checks, p: Unread)
    requires Sane(c)
    ensures var list := GetVector(Take(p, 8).next, 2);
            var chains := GetVector(list.next, 2).value;
            var certificates := GetCertificates(c, Unread(list.value, false));
            GetCertified(c, p) == Stuck
            <==> certificates.Some? && certificates.value != [] && CutShort(chains) && ReadUpToCut(c, chains)
  {
    var list := GetVector(Take(p, 8).next, 2);
    var certificates := GetCertificates(c, Unread(list.value, false));
    if certificates.Some? {
      EndlessExactlyWhenCutShort(c, certificates.value, GetVector(list.next, 2).value);
    }
  }

  lemma HangingIdentity(c: Checks, o: Opening)
    requires Sane(c) && Fits(o)
    ensures GetCertified(c, Unread(CertifiedBytes(o), false)) == Stuck <==> Hangs(c, o)
  {
    var p2 := Unread(Vector(o.chains, 2).value + o.rest, false);
    var p1 := Unread(Vector(o.certificates, 2).value + p2.rest, false);
    CertifiedPartsRead(o, p1, p2);
    StuckInChains(c, Unread(CertifiedBytes(o), false));
  }

  lemma OnlyCertificatesHang(c: Checks, version: nat, p: Unread)
    requires Sane(c) && ParseBody(c, version, p) == Endless
    ensures Certified(version)
  {}

  /** Reading the identity is the only part of parsing that may not end. */
  lemma EndlessInIdentity(c: Checks, version: nat, p: Unread)
    requires Sane(c) && Certified(version)
    ensures var limits := GetLimits(GetNames(GetTerms(p).next).next, version);
            ParseBody(c, version, p) == Endless
            <==> GetCertified(c, limits.next) == Stuck
                 && (version >= 4
                     ==> MIN_RECORD_SIZE_LIMIT <= limits.value.recordSizeLimit <= DEFAULT_RECORD_SIZE_LIMIT)
  {
    hide GetTerms, GetNames, GetLimits, GetCertified;
  }

  lemma HeadIsReadBack(o: Opening, p: Unread)
    requires Fits(o)
    requires p.rest
             == TermBytes(o.terms, PutNames(o.names).value + (PutLimits(o.version, o.limits).value + CertifiedBytes(o)))
    requires !p.failed
    ensures GetLimits(GetNames(GetTerms(p).next).next, o.version)
            == Read(KeptLimits(o.version, o.limits), Unread(CertifiedBytes(o), false))
  {
    var tail := PutLimits(o.version, o.limits).value + CertifiedBytes(o);
    TermsRoundTrip(o.terms, PutNames(o.names).value + tail);
    NamesRoundTrip(o.names, tail);
    LimitsRoundTrip(o.version, o.limits, CertifiedBytes(o));
  }

  lemma LaidIsReadBack(c: Checks, o: Opening)
    requires Sane(c) && Fits(o)
    ensures Parse(c, Laid(o)) == Endless <==> Hangs(c, o)
  {
    var body := TermBytes(o.terms, PutNames(o.names).value
                          + (PutLimits(o.version, o.limits).value + CertifiedBytes(o)));
    RadixValues();
    NumberReads(o.version, 2, body);
    HeadIsReadBack(o, Unread(body, false));
    EndlessInIdentity(c, o.version, Unread(body, false));
    HangingIdentity(c, o);
  }

  // ---------------------------------------------------------------- nothing else does

  lemma TakenBytes(p: Unread, n: nat)
    requires !Take(p, n).next.failed
    ensures !p.failed && |Take(p, n).value| == n && p.rest == Take(p, n).value + Take(p, n).next.rest
  {}

  lemma NumberTaken(p: Unread, width: nat)
    requires !GetNumber(p, width).next.failed
    ensures var r := GetNumber(p, width);
            !p.failed && r.value < Radix(width) && p.rest == PutUint(r.value, width) + r.next.rest
  {
    TakenBytes(p, width);
    PutGet(Take(p, width).value);
  }

  lemma VectorTaken(p: Unread, width: nat)
    requires !GetVector(p, width).next.failed
    ensures var r := GetVector(p, width);
            !p.failed && Vector(r.value, width).Some? && p.rest == Vector(r.value, width).value + r.next.rest
  {
    var n := GetNumber(p, width);
    TakenBytes(n.next, n.value);
    NumberTaken(p, width);
    var r := GetVector(p, width);
    assert PutUint(|r.value|, width) + (r.value + r.next.rest) == PutUint(|r.value|, width) + r.value + r.next.rest;
  }

  lemma EightBytesTaken(b: Bytes)
    requires |b| == 8
    ensures Int64(Get64(GetUint(b))) && Put64(Get64(GetUint(b))) == b
  {
    RadixValues();
    PutGet(b);
  }

  lemma TermsTaken(p: Unread)
    requires !GetTerms(p).next.failed
    ensures var r := GetTerms(p); !p.failed && TermsFit(r.value) && p.rest == TermBytes(r.value, r.next.rest)
  {
    RadixValues();
    var created := Take(p, 8);
    var lifetime := GetNumber(created.next, 4);
    var ageAdd := GetNumber(lifetime.next, 4);
    NumberTaken(ageAdd.next, 2);
    NumberTaken(lifetime.next, 4);
    NumberTaken(created.next, 4);
    TakenBytes(p, 8);
    EightBytesTaken(created.value);
  }

  lemma NamesTaken(p: Unread)
    requires !GetNames(p).next.failed
    ensures var r := GetNames(p);
            !p.failed && PutNames(r.value).Some? && p.rest == PutNames(r.value).value + r.next.rest
  {
    var psk := GetVector(p, 1);
    var serverName := GetVector(psk.next, 2);
    var protocol := GetVector(serverName.next, 1);
    VectorTaken(serverName.next, 1);
    VectorTaken(psk.next, 2);
    VectorTaken(p, 1);
    ThreeParts(Vector(psk.value, 1).value, Vector(serverName.value, 2).value, Vector(protocol.value, 1).value,
               protocol.next.rest);
  }

  lemma LimitsTaken(p: Unread, version: nat)
    requires !GetLimits(p, version).next.failed
    requires version >= 4
             ==> MIN_RECORD_SIZE_LIMIT <= GetLimits(p, version).value.recordSizeLimit <= DEFAULT_RECORD_SIZE_LIMIT
    ensures var r := GetLimits(p, version);
            && !p.failed && LimitsFit(version, r.value) && PutLimits(version, r.value).Some?
            && p.rest == PutLimits(version, r.value).value + r.next.rest
  {
    RadixValues();
    var early := if version >= 2 then GetNumber(p, 4) else Read(0, p);
    var r := GetLimits(p, version);
    if version >= 4 {
      NumberTaken(early.next, 2);
      NumberTaken(p, 4);
      assert PutUint(r.value.maxEarlyData, 4) + (PutUint(r.value.recordSizeLimit, 2) + r.next.rest)
          == PutUint(r.value.maxEarlyData, 4) + PutUint(r.value.recordSizeLimit, 2) + r.next.rest;
    } else if version >= 2 {
      NumberTaken(p, 4);
      assert PutUint(r.value.maxEarlyData, 4) + [] == PutUint(r.value.maxEarlyData, 4);
    } else {
      assert PutLimits(version, r.value).value == [] && [] + p.rest == p.rest;
    }
  }

  lemma CertifiedTaken(p: Unread)
    requires !GetVector(GetVector(Take(p, 8).next, 2).next, 2).next.failed
    ensures var auth := Take(p, 8);
            var list := GetVector(auth.next, 2);
            var chains := GetVector(list.next, 2);
            && !p.failed && |auth.value| == 8 && Vector(list.value, 2).Some? && Vector(chains.value, 2).Some?
            && p.rest == auth.value + (Vector(list.value, 2).value + (Vector(chains.value, 2).value + chains.next.rest))
  {
    var list := GetVector(Take(p, 8).next, 2);
    VectorTaken(list.next, 2);
    VectorTaken(Take(p, 8).next, 2);
    TakenBytes(p, 8);
  }

  /** What the parser reads before it hangs. */
  ghost function OpeningOf(version: nat, p: Unread): Opening {
    var terms := GetTerms(p);
    var names := GetNames(terms.next);
    var limits := GetLimits(names.next, version);
    var auth := Take(limits.next, 8);
    var list := GetVector(auth.next, 2);
    var chains := GetVector(list.next, 2);
    Opening(version, terms.value, names.value, limits.value, Get64(GetUint(auth.value)), list.value, chains.value,
            chains.next.rest)
  }

  lemma BodyTaken(version: nat, p: Unread, p1: Unread, p2: Unread, p3: Unread)
    requires Certified(version) && p1 == GetTerms(p).next && p2 == GetNames(p1).next
             && p3 == GetLimits(p2, version).next
    requires !GetVector(GetVector(Take(p3, 8).next, 2).next, 2).next.failed
    requires version >= 4
             ==> MIN_RECORD_SIZE_LIMIT <= GetLimits(p2, version).value.recordSizeLimit <= DEFAULT_RECORD_SIZE_LIMIT
    ensures !p.failed && Fits(OpeningOf(version, p)) && Laid(OpeningOf(version, p)) == PutUint(version, 2) + p.rest
  {
    CertifiedTaken(p3);
    LimitsTaken(p2, version);
    NamesTaken(p1);
    TermsTaken(p);
    EightBytesTaken(Take(p3, 8).value);
  }

  lemma HangingBody(c: Checks, version: nat, p: Unread)
    requires Sane(c) && Certified(version) && ParseBody(c, version, p) == Endless
    ensures !p.failed && Fits(OpeningOf(version, p)) && Laid(OpeningOf(version, p)) == PutUint(version, 2) + p.rest
  {
    hide ParseBody, GetCertified, Laid, OpeningOf, Fits;
    EndlessInIdentity(c, version, p);
    var p2 := GetNames(GetTerms(p).next).next;
    var p3 := GetLimits(p2, version).next;
    StuckInChains(c, p3);
    BodyTaken(version, p, GetTerms(p).next, p2, p3);
  }

  lemma HangingIsLaid(c: Checks, b: Bytes)
    requires Sane(c) && Parse(c, b) == Endless
    ensures exists o :: Fits(o) && b == Laid(o)
  {
    hide ParseBody, Laid, OpeningOf, Fits;
    var version := GetNumber(Unread(b, false), 2);
    OnlyCertificatesHang(c, version.value, version.next);
    HangingBody(c, version.value, version.next);
    NumberTaken(Unread(b, false), 2);
    assert b == Laid(OpeningOf(version.value, version.next));
  }

  /**
   * Parsing runs forever exactly on the tickets that carry accepted certificates and then a vector of chains that ends
   * inside an entry. Nothing behind the vector matters, and neither does any other field that can be read.
   */
  lemma ParseIsEndlessExactly(c: Checks, b: Bytes)
    requires Sane(c)
    ensures Parse(c, b) == Endless <==> exists o :: Fits(o) && b == Laid(o) && Hangs(c, o)
  {
    if Parse(c, b) == Endless {
      HangingIsLaid(c, b);
      var o :| Fits(o) && b == Laid(o);
      LaidIsReadBack(c, o);
    }
    if o :| Fits(o) && b == Laid(o) && Hangs(c, o) {
      LaidIsReadBack(c, o);
    }
  }

  /** A ticket with one accepted certificate and a single byte of chains. */
  ghost function Shortest(certificate: Bytes): Opening
    requires Vector(certificate, 3).Some?
  {
    Opening(3, Terms(0, 1, 0, 0), Names([1], [], []), Limits(0, 0), 1, Vector(certificate, 3).value, [5], [])
  }

  lemma EndlessTicketExists(c: Checks, certificate: Bytes)
    requires Sane(c) && c.certificate(certificate) && |certificate| < U16_LIMIT - 3
    ensures Vector(certificate, 3).Some? && Fits(Shortest(certificate))
    ensures Parse(c, Laid(Shortest(certificate))) == Endless
  {
    RadixValues();
    var o := Shortest(certificate);
    var list := CertificateList([certificate]);
    assert CertificateList([]) == Some([]) && [certificate][1..] == [];
    assert Vector(certificate, 3).value + [] == Vector(certificate, 3).value;
    CertificatesRoundTrip(c, [certificate]);
    assert CutShort(o.chains) && ReadUpToCut(c, o.chains);
    LaidIsReadBack(c, o);
  }
}
