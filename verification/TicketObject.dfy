/** Marshalling and parsing tickets with the builder and the parser, against the encoding. */
module TicketObject {
  import opened Wire
  import opened WireCodec
  import opened Tickets

  // ---------------------------------------------------------------- marshalling

  lemma {:induction false} CertificateListAppend(certs: seq<Bytes>, last: Bytes)
    ensures CertificateList(certs + [last]) == Cat(CertificateList(certs), Vector(last, 3))
  {
    if certs == [] {
      assert [last][1..] == [] && certs + [last] == [last];
      assert Vector(last, 3).Some? ==> Vector(last, 3).value + [] == [] + Vector(last, 3).value;
    } else {
      assert (certs + [last])[1..] == certs[1..] + [last];
      CertificateListAppend(certs[1..], last);
      CatAssociates(Vector(certs[0], 3), CertificateList(certs[1..]), Vector(last, 3));
    }
  }

  lemma {:induction false} ChainListAppend(chains: seq<seq<Bytes>>, last: seq<Bytes>)
    requires last != [] && forall i :: 0 <= i < |chains| ==> chains[i] != []
    ensures ChainList(chains + [last]) == Cat(ChainList(chains), Wrap(CertificateList(last[1..])))
  {
    var end := Wrap(CertificateList(last[1..]));
    if chains == [] {
      assert [last][1..] == [] && chains + [last] == [last];
      assert end.Some? ==> end.value + [] == [] + end.value;
    } else {
      assert (chains + [last])[1..] == chains[1..] + [last];
      ChainListAppend(chains[1..], last);
      CatAssociates(Wrap(CertificateList(chains[0][1..])), ChainList(chains[1..]), end);
    }
  }

  method PutCertificateList(w: WireBuilder, certs: seq<Bytes>)
    modifies w
    ensures w.View() == Cat(old(w.View()), CertificateList(certs)) && |w.b| >= old(|w.b|)
  {
    CatEmpty(w.View());
    for i := 0 to |certs|
      invariant w.View() == Cat(old(w.View()), CertificateList(certs[..i])) && |w.b| >= old(|w.b|)
    {
      assert certs[..i + 1] == certs[..i] + [certs[i]];
      CertificateListAppend(certs[..i], certs[i]);
      CatAssociates(old(w.View()), CertificateList(certs[..i]), Vector(certs[i], 3));
      w.PutVector(certs[i], 3);
    }
    assert certs[..|certs|] == certs;
  }

  lemma CatEmpty(a: Built)
    ensures Cat(a, Some([])) == a
  {
    if a.Some? { assert a.value + [] == a.value; }
  }

  /** Closing a vector that holds `body`. */
  lemma Closed(before: Bytes, body: Built, b: Bytes)
    requires body.Some? && b == before + Reserved(2) + body.value
    ensures |before| + 2 <= |b|
            && Cat(Some(b[..|before|]), Vector(b[|before| + 2..], 2)) == Cat(Some(before), Wrap(body))
  {
    assert b[..|before|] == before && b[|before| + 2..] == body.value;
  }

  method PutCertificateVector(w: WireBuilder, certs: seq<Bytes>)
    modifies w
    ensures w.View() == Cat(old(w.View()), Wrap(CertificateList(certs))) && |w.b| >= old(|w.b|)
  {
    var start := w.StartVector(2);
    PutCertificateList(w, certs);
    if !w.failed { Closed(old(w.b), CertificateList(certs), w.b); }
    w.EndVector(start, 2);
  }

  method PutChainList(w: WireBuilder, chains: seq<seq<Bytes>>)
    requires forall i :: 0 <= i < |chains| ==> chains[i] != []
    modifies w
    ensures w.View() == Cat(old(w.View()), ChainList(chains)) && |w.b| >= old(|w.b|)
  {
    CatEmpty(w.View());
    for i := 0 to |chains|
      invariant w.View() == Cat(old(w.View()), ChainList(chains[..i])) && |w.b| >= old(|w.b|)
    {
      assert chains[..i + 1] == chains[..i] + [chains[i]];
      ChainListAppend(chains[..i], chains[i]);
      CatAssociates(old(w.View()), ChainList(chains[..i]), Wrap(CertificateList(chains[i][1..])));
      PutCertificateVector(w, chains[i][1..]);
    }
    assert chains[..|chains|] == chains;
  }

  method PutChainVector(w: WireBuilder, chains: seq<seq<Bytes>>)
    requires forall i :: 0 <= i < |chains| ==> chains[i] != []
    modifies w
    ensures w.View() == Cat(old(w.View()), Wrap(ChainList(chains)))
  {
    var start := w.StartVector(2);
    PutChainList(w, chains);
    if !w.failed { Closed(old(w.b), ChainList(chains), w.b); }
    w.EndVector(start, 2);
  }

  method PutTermsInto(w: WireBuilder, version: nat, t: Terms)
    requires Int64(t.createdAt)
    modifies w
    ensures w.View() == Cat(old(w.View()), PutTerms(version, t))
  {
    w.PutNumber(version, 2);
    w.Append(Put64(t.createdAt));
    w.PutNumber(t.lifetime, 4);
    w.PutNumber(t.ageAdd, 4);
    w.PutNumber(t.suite, 2);
    Cat5(old(w.View()), Number(version, 2), Some(Put64(t.createdAt)), Number(t.lifetime, 4), Number(t.ageAdd, 4),
         Number(t.suite, 2));
  }

  lemma Cat3(v: Built, a: Built, b: Built, c: Built)
    ensures Cat(Cat(Cat(v, a), b), c) == Cat(v, Cat(a, Cat(b, c)))
  {
    CatAssociates(Cat(v, a), b, c);
    CatAssociates(v, a, Cat(b, c));
  }

  lemma Cat5(v: Built, a: Built, b: Built, c: Built, d: Built, e: Built)
    ensures Cat(Cat(Cat(Cat(Cat(v, a), b), c), d), e) == Cat(v, Cat(a, Cat(b, Cat(c, Cat(d, e)))))
  {
    Cat3(Cat(Cat(v, a), b), c, d, e);
    Cat3(v, a, b, Cat(c, Cat(d, e)));
  }

  method PutNamesInto(w: WireBuilder, n: Names)
    modifies w
    ensures w.View() == Cat(old(w.View()), PutNames(n))
  {
    w.PutVector(n.psk, 1);
    w.PutVector(n.serverName, 2);
    w.PutVector(n.protocol, 1);
    Cat3(old(w.View()), Vector(n.psk, 1), Vector(n.serverName, 2), Vector(n.protocol, 1));
  }

  method PutLimitsInto(w: WireBuilder, version: nat, l: Limits)
    modifies w
    ensures w.View() == Cat(old(w.View()), PutLimits(version, l))
  {
    CatEmpty(w.View());
    if version >= 2 { w.PutNumber(l.maxEarlyData, 4); }
    CatEmpty(w.View());
    if version >= 4 { w.PutNumber(Effective(l.recordSizeLimit), 2); }
    CatAssociates(old(w.View()), if version >= 2 then Number(l.maxEarlyData, 4) else Some([]),
                  if version >= 4 then Number(Effective(l.recordSizeLimit), 2) else Some([]));
  }

  method PutCertificatesInto(w: WireBuilder, id: Identity)
    requires Int64(id.clientAuthAt) && GoodCertificates(id)
    modifies w
    ensures w.View() == Cat(old(w.View()), PutCertificates(id))
  {
    w.Append(Put64(id.clientAuthAt));
    PutCertificateVector(w, id.certificates);
    PutChainVector(w, id.chains);
    Cat3(old(w.View()), Some(Put64(id.clientAuthAt)), Wrap(CertificateList(id.certificates)),
         Wrap(ChainList(id.chains)));
  }

  method PutIdentityInto(w: WireBuilder, version: nat, id: Identity)
    requires Int64(id.clientAuthAt) && (Certified(version) ==> GoodCertificates(id))
             && (version == 6 ==> id.external.Some?)
    modifies w
    ensures w.View() == Cat(old(w.View()), PutIdentity(version, id))
  {
    CatEmpty(w.View());
    if Certified(version) {
      PutCertificatesInto(w, id);
    }
    if version == 6 {
      var e := id.external.value;
      w.PutVector(e.wire, 2);
      w.PutNumber(e.kdf, 2);
      w.Append(e.digest);
      Cat3(old(w.View()), Vector(e.wire, 2), Number(e.kdf, 2), Some(e.digest));
    }
    if version == 7 {
      w.Append(Put64(id.clientAuthAt));
      w.PutVector(id.rawKey, 3);
      CatAssociates(old(w.View()), Some(Put64(id.clientAuthAt)), Vector(id.rawKey, 3));
    }
    if version == 8 {
      w.PutVector(id.credential, 3);
      CatAssociates(old(w.View()), PutCertificates(id), Vector(id.credential, 3));
    }
  }

  /** The layout, or None for a state that is refused before anything is written. */
  method ChooseVersion(c: Checks, s: State) returns (version: Option<nat>)
    ensures version == if Acceptable(c, s) then Some(Version(s)) else None
  {
    var id := s.identity;
    if |s.names.psk| == 0 || s.terms.lifetime == 0 { return None; }
    if |s.names.psk| > 255 || |s.names.serverName| > 65535 || |s.names.protocol| > 255 { return None; }
    if |id.chains| > 0 && |id.certificates| == 0 { return None; }
    if id.external.Some? && |id.certificates| > 0 { return None; }
    var v := 1;
    if s.limits.maxEarlyData != 0 { v := 4; }
    if |id.certificates| > 0 {
      if id.clientAuthAt == 0 { return None; }
      v := 3;
      if s.limits.maxEarlyData != 0 { v := 5; }
    }
    if id.external.Some? {
      if |id.external.value.wire| == 0 || |id.external.value.wire| > 65535 || !KnownKdf(id.external.value.kdf) {
        return None;
      }
      v := 6;
    }
    if |id.rawKey| != 0 {
      if id.external.Some? || |id.certificates| != 0 || |id.chains| != 0 || id.clientAuthAt == 0 || !c.key(id.rawKey) {
        return None;
      }
      v := 7;
    }
    if |id.credential| != 0 {
      if |id.certificates| == 0 || |id.rawKey| != 0 || id.external.Some? || !c.credential(id.credential) {
        return None;
      }
      v := 8;
    }
    if Certified(v) {
      var ok := CheckCertificates(id);
      if !ok { return None; }
    }
    return Some(v);
  }

  method CheckCertificates(id: Identity) returns (ok: bool)
    requires id.certificates != []
    ensures ok == GoodCertificates(id)
  {
    for i := 0 to |id.certificates|
      invariant forall k :: 0 <= k < i ==> id.certificates[k] != []
    {
      if |id.certificates[i]| == 0 { return false; }
    }
    for i := 0 to |id.chains|
      invariant forall k :: 0 <= k < i ==> GoodChain(id.certificates[0], id.chains[k])
    {
      var chain := id.chains[i];
      if |chain| == 0 || chain[0] != id.certificates[0] { return false; }
      for k := 1 to |chain|
        invariant forall j :: 1 <= j < k ==> chain[j] != []
      {
        if |chain[k]| == 0 { return false; }
      }
    }
    return true;
  }

  method MarshalTicket(c: Checks, s: State) returns (b: Built)
    requires WellTyped(s)
    ensures b == Marshal(c, s)
  {
    var version := ChooseVersion(c, s);
    if version.None? { return None; }
    var v := version.value;
    var w := new WireBuilder();
    PutTermsInto(w, v, s.terms);
    PutNamesInto(w, s.names);
    PutLimitsInto(w, v, s.limits);
    PutIdentityInto(w, v, s.identity);
    FourParts(PutTerms(v, s.terms), PutNames(s.names), PutLimits(v, s.limits), PutIdentity(v, s.identity));
    return if w.failed then None else Some(w.b);
  }

  lemma FourParts(a: Built, b: Built, c: Built, d: Built)
    ensures Cat(Cat(Cat(Cat(Some([]), a), b), c), d) == Cat(a, Cat(b, Cat(c, d)))
  {
    Cat3(Cat(Some([]), a), b, c, d);
    if a.Some? { assert [] + a.value == a.value; }
  }

  // ---------------------------------------------------------------- parsing

  method ReadTerms(p: WireParser) returns (t: Terms)
    requires p.Valid()
    modifies p
    ensures p.Valid() && Read(t, p.View()) == GetTerms(old(p.View()))
  {
    var created := p.TakeBytes(8);
    var lifetime := p.TakeNumber(4);
    var ageAdd := p.TakeNumber(4);
    var suite := p.TakeNumber(2);
    t := Terms(Get64(GetUint(created)), lifetime, ageAdd, suite);
  }

  method ReadNames(p: WireParser) returns (n: Names)
    requires p.Valid()
    modifies p
    ensures p.Valid() && Read(n, p.View()) == GetNames(old(p.View()))
  {
    var psk := p.TakeVector(1);
    var serverName := p.TakeVector(2);
    var protocol := p.TakeVector(1);
    n := Names(psk, serverName, protocol);
  }

  method ReadLimits(p: WireParser, version: nat) returns (l: Limits)
    requires p.Valid()
    modifies p
    ensures p.Valid() && Read(l, p.View()) == GetLimits(old(p.View()), version)
  {
    var early, limit := 0, DEFAULT_RECORD_SIZE_LIMIT;
    if version >= 2 { early := p.TakeNumber(4); }
    if version >= 4 { limit := p.TakeNumber(2); }
    l := Limits(early, limit);
  }

  function Prepend(list: seq<Bytes>, more: Option<seq<Bytes>>): Option<seq<Bytes>> {
    if more.None? then None else Some(list + more.value)
  }

  lemma PrependStep(list: seq<Bytes>, x: Bytes, more: Option<seq<Bytes>>)
    ensures Prepend([], more) == more
    ensures Prepend(list, if more.None? then None else Some([x] + more.value)) == Prepend(list + [x], more)
  {
    if more.Some? {
      assert [] + more.value == more.value;
      assert list + ([x] + more.value) == list + [x] + more.value;
    }
  }

  /** One turn of the loop over certificates. */
  lemma CertificateTurn(c: Checks, p: Unread, list: seq<Bytes>)
    requires Sane(c) && p.rest != [] && !p.failed
    ensures var r := GetVector(p, 3);
            if !c.certificate(r.value) then GetCertificates(c, p) == None
            else !r.next.failed && |r.next.rest| < |p.rest|
                 && Prepend(list, GetCertificates(c, p)) == Prepend(list + [r.value], GetCertificates(c, r.next))
  {
    VectorShrinks(p, 3);
    var r := GetVector(p, 3);
    PrependStep(list, r.value, GetCertificates(c, r.next));
  }

  method ReadCertificates(c: Checks, b: Bytes) returns (certs: Option<seq<Bytes>>)
    requires Sane(c)
    ensures certs == GetCertificates(c, Unread(b, false))
  {
    var p := new WireParser(b);
    var list: seq<Bytes> := [];
    ghost var left, all := Unread(b, false), GetCertificates(c, Unread(b, false));
    PrependStep([], [], all);
    while p.off < |p.b|
      invariant p.Valid() && p.b == b && p.View() == left && !left.failed
      invariant all == Prepend(list, GetCertificates(c, left))
      decreases |left.rest|
    {
      CertificateTurn(c, left, list);
      var cert := p.TakeVector(3);
      if !c.certificate(cert) { return None; }
      list := list + [cert];
      left := GetVector(left, 3).next;
    }
    assert left.rest == [] && list + [] == list;
    return Some(list);
  }

  function PrependChains(list: seq<seq<Bytes>>, more: Chains): Chains {
    if more.ChainsRead? then ChainsRead(list + more.chains) else more
  }

  lemma PrependChainStep(list: seq<seq<Bytes>>, x: seq<Bytes>, more: Chains)
    ensures PrependChains([], more) == more
    ensures PrependChains(list, if more.ChainsRead? then ChainsRead([x] + more.chains) else more)
            == PrependChains(list + [x], more)
  {
    if more.ChainsRead? {
      assert [] + more.chains == more.chains;
      assert list + ([x] + more.chains) == list + [x] + more.chains;
    }
  }

  lemma PrependEnds(list: seq<seq<Bytes>>)
    ensures PrependChains(list, ChainsBad) == ChainsBad && PrependChains(list, ChainsStuck) == ChainsStuck
    ensures PrependChains(list, ChainsRead([])) == ChainsRead(list)
  {
    assert list + [] == list;
  }

  /** One turn of the loop over chains. */
  lemma ChainTurn(c: Checks, certs: seq<Bytes>, p: Unread, list: seq<seq<Bytes>>)
    requires Sane(c) && certs != [] && p.rest != [] && !p.failed
    ensures var r := GetVector(p, 2);
            if r.next.failed then GetChains(c, certs, p) == if r.next.rest == [] then ChainsBad else ChainsStuck
            else
              var tail := GetCertificates(c, Unread(r.value, false));
              if tail.None? then GetChains(c, certs, p) == ChainsBad
              else |r.next.rest| < |p.rest| && PrependChains(list, GetChains(c, certs, p))
                   == PrependChains(list + [[certs[0]] + tail.value], GetChains(c, certs, r.next))
  {
    VectorShrinks(p, 2);
    var r := GetVector(p, 2);
    var tail := GetCertificates(c, Unread(r.value, false));
    if !r.next.failed && tail.Some? {
      PrependChainStep(list, [certs[0]] + tail.value, GetChains(c, certs, r.next));
    }
  }

  /** Where the loop ends at once. */
  lemma ChainsEnd(c: Checks, certs: seq<Bytes>, p: Unread)
    requires Sane(c) && !p.failed
    ensures p.rest == [] ==> GetChains(c, certs, p) == ChainsRead([])
    ensures p.rest != [] && certs == [] ==> GetChains(c, certs, p) == ChainsBad
  {}

  /** Reads one chain, or says how the loop ends. */
  method ReadChain(c: Checks, certs: seq<Bytes>, p: WireParser) returns (stop: Option<Chains>, chain: seq<Bytes>)
    requires Sane(c) && certs != [] && p.Valid()
    modifies p
    ensures p.Valid() && p.View() == GetVector(old(p.View()), 2).next
    ensures var r := GetVector(old(p.View()), 2);
            if r.next.failed then stop == Some(if r.next.rest == [] then ChainsBad else ChainsStuck)
            else
              var tail := GetCertificates(c, Unread(r.value, false));
              if tail.None? then stop == Some(ChainsBad) else stop == None && chain == [certs[0]] + tail.value
  {
    var encoded := p.TakeVector(2);
    if p.failed { return Some(if p.off < |p.b| then ChainsStuck else ChainsBad), []; }
    var tail := ReadCertificates(c, encoded);
    if tail.None? { return Some(ChainsBad), []; }
    return None, [certs[0]] + tail.value;
  }

  /** A parser that has failed with bytes left would turn in this loop forever, so the outcome says so instead. */
  method ReadChains(c: Checks, certs: seq<Bytes>, b: Bytes) returns (r: Chains)
    requires Sane(c)
    ensures r == GetChains(c, certs, Unread(b, false))
  {
    hide GetVector, GetCertificates, GetChains, PrependChains;
    var p := new WireParser(b);
    var list: seq<seq<Bytes>> := [];
    ghost var left, all := Unread(b, false), GetChains(c, certs, Unread(b, false));
    PrependChainStep([], [], all);
    while p.off < |p.b|
      invariant p.Valid() && p.b == b && p.View() == left && !left.failed
      invariant all == PrependChains(list, GetChains(c, certs, left))
      decreases |left.rest|
    {
      PrependEnds(list);
      if |certs| == 0 {
        ChainsEnd(c, certs, left);
        return ChainsBad;
      }
      ChainTurn(c, certs, left, list);
      var stop, chain := ReadChain(c, certs, p);
      if stop.Some? { return stop.value; }
      list := list + [chain];
      left := GetVector(left, 2).next;
    }
    ChainsEnd(c, certs, left);
    PrependEnds(list);
    assert left.rest == [];
    return ChainsRead(list);
  }

  method ReadCertified(c: Checks, p: WireParser) returns (r: Identified)
    requires Sane(c) && p.Valid()
    modifies p
    ensures p.Valid() && r == GetCertified(c, old(p.View())) && (r.Known? ==> r.next == p.View())
  {
    var auth := p.TakeBytes(8);
    var list := p.TakeVector(2);
    var certs := ReadCertificates(c, list);
    if certs.None? { return Bad; }
    var encoded := p.TakeVector(2);
    var chains := ReadChains(c, certs.value, encoded);
    if chains.ChainsStuck? { return Stuck; }
    if chains.ChainsBad? { return Bad; }
    var id := NOBODY.(clientAuthAt := Get64(GetUint(auth)), certificates := certs.value, chains := chains.chains);
    return Known(id, Unread(p.b[p.off..], p.failed));
  }

  method ReadIdentity(c: Checks, p: WireParser, version: nat) returns (r: Identified)
    requires Sane(c) && p.Valid()
    modifies p
    ensures p.Valid() && r == GetIdentity(c, old(p.View()), version) && (r.Known? ==> r.next == p.View())
  {
    if version == 6 {
      var wire := p.TakeVector(2);
      var kdf := p.TakeNumber(2);
      var digest := p.TakeBytes(DIGEST_SIZE);
      if |wire| == 0 || !KnownKdf(kdf) { return Bad; }
      return Known(NOBODY.(external := Some(ExternalPsk(wire, kdf, digest))), Unread(p.b[p.off..], p.failed));
    }
    if version == 7 {
      var auth := p.TakeBytes(8);
      var key := p.TakeVector(3);
      var at := Get64(GetUint(auth));
      if at == 0 || !c.key(key) { return Bad; }
      return Known(NOBODY.(clientAuthAt := at, rawKey := key), Unread(p.b[p.off..], p.failed));
    }
    if !Certified(version) { return Known(NOBODY, Unread(p.b[p.off..], p.failed)); }
    r := ReadCertified(c, p);
    if version == 8 && r.Known? {
      var credential := p.TakeVector(3);
      if !c.credential(credential) { return Bad; }
      r := Known(r.identity.(credential := credential), Unread(p.b[p.off..], p.failed));
    }
  }

  method ReadBody(c: Checks, version: nat, p: WireParser) returns (r: Outcome)
    requires Sane(c) && p.Valid()
    modifies p
    ensures r == ParseBody(c, version, old(p.View()))
  {
    var terms := ReadTerms(p);
    var names := ReadNames(p);
    var limits := ReadLimits(p, version);
    if version >= 4
      && (limits.recordSizeLimit < MIN_RECORD_SIZE_LIMIT || limits.recordSizeLimit > DEFAULT_RECORD_SIZE_LIMIT) {
      return Invalid;
    }
    var id := ReadIdentity(c, p, version);
    if id.Stuck? { return Endless; }
    if id.Bad? { return Invalid; }
    var done := p.Done();
    var s := State(terms, names, limits, id.identity);
    if !done || !Usable(version, s) { return Invalid; }
    return Ticket(s);
  }

  method ParseTicket(c: Checks, b: Bytes) returns (r: Outcome)
    requires Sane(c)
    ensures r == Parse(c, b)
  {
    var p := new WireParser(b);
    var version := p.TakeNumber(2);
    if version < 1 || version > 8 { return Invalid; }
    r := ReadBody(c, version, p);
  }
}
