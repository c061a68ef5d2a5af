/** The listener's routing tables: the object with its length index, and what every run of its steps keeps. */
module Listeners {
  import opened Wire
  import opened ConnectionIds
  import opened Routes

  datatype Table = Table(sessions: map<Address, Session>, pending: map<Address, Session>, remote: map<Session, Address>,
                         routes: Routing)

  /** The atomic steps taken under the listener's lock. */
  datatype Step =
    | Open(s: Session, address: Address)
    | OpenPending(s: Session, address: Address)
    | Validate(s: Session)
    | AcceptCid(s: Session, cid: Bytes)
    | AdvertiseCids(s: Session, cids: seq<Bytes>)
    | WithdrawCids(s: Session, cids: seq<Bytes>)
    | Remove(s: Session)
    | Rebind(s: Session, address: Address)
    | Shutdown

  predicate At<K>(m: map<K, Session>, a: K, s: Session) {
    a in m && m[a] == s
  }

  /** The session another one pushes out by moving to its address. */
  function Displaced(t: Table, s: Session, address: Address): Option<Session> {
    if s in t.remote && t.remote[s] != address && address in t.sessions
      && t.sessions[address] != s then Some(t.sessions[address])
    else None
  }

  function Rebound(t: Table, s: Session, address: Address): Table {
    if s !in t.remote || t.remote[s] == address then t
    else
      var freed := if At(t.sessions, t.remote[s], s) then t.sessions - {t.remote[s]} else t.sessions;
      var displaced := Displaced(t, s, address);
      t.(sessions := freed[address := s],
         remote := t.remote[s := address],
         routes := if displaced.Some? then Without(t.routes, displaced.value) else t.routes)
  }

  function Validated(t: Table, s: Session): Table {
    if s in t.remote && At(t.pending, t.remote[s], s)
    then t.(sessions := t.sessions[t.remote[s] := s], pending := t.pending - {t.remote[s]})
    else t
  }

  function Removed(t: Table, s: Session): Table {
    t.(sessions := Without(t.sessions, s), pending := Without(t.pending, s), routes := Without(t.routes, s))
  }

  ghost function OrElse(r: Option<Routing>, routes: Routing): Routing {
    if r.Some? then r.value else routes
  }

  ghost predicate Enabled(t: Table, step: Step) {
    match step
    case Open(s, address) => s !in t.remote && address !in t.sessions && address !in t.pending
    case OpenPending(s, address) => s !in t.remote && address in t.sessions && address !in t.pending
    case AcceptCid(_, cid) => |cid| <= MAX_CID_LENGTH
    case _ => true
  }

  ghost function Next(t: Table, step: Step): Table {
    match step
    case Open(s, address) => t.(sessions := t.sessions[address := s], remote := t.remote[s := address])
    case OpenPending(s, address) => t.(pending := t.pending[address := s], remote := t.remote[s := address])
    case Validate(s) => Validated(t, s)
    case AcceptCid(s, cid) => t.(routes := OrElse(RegisterOne(t.routes, s, cid), t.routes))
    case AdvertiseCids(s, cids) => t.(routes := OrElse(RegisterMany(t.routes, s, cids), t.routes))
    case WithdrawCids(s, cids) => t.(routes := Unregister(t.routes, s, cids))
    case Remove(s) => Removed(t, s)
    case Rebind(s, address) => Rebound(t, s, address)
    case Shutdown => t.(sessions := map[], pending := map[], routes := map[])
  }

  ghost predicate Feasible(t: Table, steps: seq<Step>)
    decreases |steps|
  {
    steps == [] || (Enabled(t, steps[0]) && Feasible(Next(t, steps[0]), steps[1..]))
  }

  ghost function Run(t: Table, steps: seq<Step>): Table
    decreases |steps|
  {
    if steps == [] then t else Run(Next(t, steps[0]), steps[1..])
  }

  const EMPTY := Table(map[], map[], map[], map[])

  // ---------------------------------------------------------------- invariant

  /** A session is listed under its own remote address, hence under one address only. */
  ghost predicate AddressesAgree(t: Table) {
    && (forall a :: a in t.sessions ==> t.sessions[a] in t.remote && t.remote[t.sessions[a]] == a)
    && (forall a :: a in t.pending ==> t.pending[a] in t.remote)
  }

  ghost predicate Inv(t: Table) {
    Good(t.routes) && AddressesAgree(t)
  }

  lemma RoutesStayGood(t: Table, step: Step)
    requires Good(t.routes) && Enabled(t, step)
    ensures Good(Next(t, step).routes)
  {
    match step
    case AcceptCid(s, cid) =>
      if RegisterOne(t.routes, s, cid).Some? && cid != [] && cid !in t.routes { AddKeepsGood(t.routes, cid, s); }
    case AdvertiseCids(s, cids) =>
      if RegisterMany(t.routes, s, cids).Some? { RegisterManyKeepsGood(t.routes, s, cids); }
    case _ =>
  }

  lemma AddressesStayInAgreement(t: Table, step: Step)
    requires AddressesAgree(t) && Enabled(t, step)
    ensures AddressesAgree(Next(t, step))
  {}

  lemma {:induction false} RunKeeps(t: Table, steps: seq<Step>)
    requires Inv(t) && Feasible(t, steps)
    ensures Inv(Run(t, steps))
    decreases |steps|
  {
    if steps != [] {
      RoutesStayGood(t, steps[0]);
      AddressesStayInAgreement(t, steps[0]);
      RunKeeps(Next(t, steps[0]), steps[1..]);
    }
  }

  /**
   * In every reachable state the registered IDs are usable, no session sits under two addresses, and lookup has one
   * answer.
   */
  lemma ReachableTablesAreSound(steps: seq<Step>, datagram: Bytes, a: Option<Session>, b: Option<Session>)
    requires Feasible(EMPTY, steps)
    requires Owns(Run(EMPTY, steps).routes, datagram, a) && Owns(Run(EMPTY, steps).routes, datagram, b)
    ensures var t := Run(EMPTY, steps);
            && Good(t.routes) && a == b
            && (forall x, y :: x in t.sessions && y in t.sessions && t.sessions[x] == t.sessions[y] ==> x == y)
  {
    RunKeeps(EMPTY, steps);
    OwnerIsUnique(Run(EMPTY, steps).routes, datagram, a, b);
  }

  // ---------------------------------------------------------------- stability of routes

  /** The steps by which session `s` loses its route for `cid`. */
  ghost predicate GivesUp(t: Table, step: Step, cid: Bytes, s: Session) {
    match step
    case WithdrawCids(o, cids) => o == s && cid in cids
    case Remove(o) => o == s
    case Rebind(o, address) => Displaced(t, o, address) == Some(s)
    case Shutdown => true
    case _ => false
  }

  /** Nothing another session does takes a route over: it changes exactly when its owner gives it up. */
  lemma RouteChangesExactlyWhenGivenUp(t: Table, step: Step, cid: Bytes, s: Session)
    requires Inv(t) && Enabled(t, step) && cid in t.routes && t.routes[cid] == s
    ensures var after := Next(t, step).routes;
            if GivesUp(t, step, cid, s) then cid !in after else cid in after && after[cid] == s
  {
    match step
    case AdvertiseCids(o, cids) =>
      if RegisterMany(t.routes, o, cids).Some? { RegisterManyMeaning(t.routes, o, cids); }
    case _ =>
  }

  /** The steps by which a session gains a route for an ID that has none. */
  ghost predicate Gains(t: Table, step: Step, cid: Bytes, s: Session) {
    match step
    case AcceptCid(o, c) => o == s && c == cid && cid != [] && forall d :: d in t.routes ==> !Comparable(d, cid)
    case AdvertiseCids(o, cids) => o == s && cid in cids && cid != [] && Allowed(t.routes, s, cids)
    case _ => false
  }

  /** A route appears exactly when a session registers the ID and nothing registered clashes with it. */
  lemma RouteAppearsExactlyWhenGained(t: Table, step: Step, cid: Bytes, s: Session)
    requires Inv(t) && Enabled(t, step) && cid !in t.routes
    ensures At(Next(t, step).routes, cid, s) <==> Gains(t, step, cid, s)
  {
    match step
    case AdvertiseCids(o, cids) => AddAllMeaning(t.routes, o, cids);
    case _ =>
  }

  /** Who is reached at an address after a step. */
  ghost predicate ReachedAt(t: Table, step: Step, x: Address, o: Session) {
    match step
    case Open(s, address) => if x == address then o == s else At(t.sessions, x, o)
    case Validate(s) =>
      if s in t.remote && x == t.remote[s] && At(t.pending, x, s) then o == s else At(t.sessions, x, o)
    case Remove(s) => o != s && At(t.sessions, x, o)
    case Rebind(s, address) =>
      if s !in t.remote || t.remote[s] == address then At(t.sessions, x, o)
      else if x == address then o == s
      else o != s && At(t.sessions, x, o)
    case Shutdown => false
    case _ => At(t.sessions, x, o)
  }

  /**
   * Every address leads to one session: a rebound one leaves its old address, a pending one takes over when
   * validated.
   */
  lemma AddressesChangeExactly(t: Table, step: Step, x: Address, o: Session)
    requires Inv(t) && Enabled(t, step)
    ensures At(Next(t, step).sessions, x, o) <==> ReachedAt(t, step, x, o)
  {}

  /** Who waits for validation at an address after a step. */
  ghost predicate WaitsAt(t: Table, step: Step, x: Address, o: Session) {
    match step
    case OpenPending(s, address) => if x == address then o == s else At(t.pending, x, o)
    case Validate(s) => At(t.pending, x, o) && !(o == s && s in t.remote && x == t.remote[s])
    case Remove(s) => o != s && At(t.pending, x, o)
    case Shutdown => false
    case _ => At(t.pending, x, o)
  }

  /** A session waits until it is validated or removed, and has the address it was opened at or last moved to. */
  lemma WaitingChangesExactly(t: Table, step: Step, x: Address, o: Session)
    requires Inv(t) && Enabled(t, step)
    ensures At(Next(t, step).pending, x, o) <==> WaitsAt(t, step, x, o)
    ensures var after := Next(t, step).remote;
            match step
            case Open(s, address) => after == t.remote[s := address]
            case OpenPending(s, address) => after == t.remote[s := address]
            case Rebind(s, address) => after == if s in t.remote then t.remote[s := address] else t.remote
            case _ => after == t.remote
  {}

  /** A session that is displaced or removed is reached by no address and by no ID. */
  lemma GoneIsUnreachable(t: Table, step: Step, gone: Session)
    requires Inv(t) && Enabled(t, step)
    requires match step
             case Remove(s) => s == gone
             case Rebind(s, address) => Displaced(t, s, address) == Some(gone)
             case _ => false
    ensures gone !in Next(t, step).sessions.Values && gone !in Next(t, step).routes.Values
  {}

  ghost predicate NeverGivenUp(t: Table, steps: seq<Step>, cid: Bytes, s: Session)
    decreases |steps|
  {
    steps == [] || (!GivesUp(t, steps[0], cid, s) && NeverGivenUp(Next(t, steps[0]), steps[1..], cid, s))
  }

  /** Over any run in which the owner keeps an ID, every datagram carrying it still finds the owner. */
  lemma {:induction false} DatagramsKeepReachingTheOwner(t: Table, steps: seq<Step>, cid: Bytes, s: Session,
                                                         datagram: Bytes, found: Option<Session>)
    requires Inv(t) && Feasible(t, steps) && cid in t.routes && t.routes[cid] == s
    requires NeverGivenUp(t, steps, cid, s)
    requires CarriesCid(datagram) && cid <= datagram[1..]
    requires Owns(Run(t, steps).routes, datagram, found)
    ensures found == Some(s)
    decreases |steps|
  {
    if steps == [] {
      OwnerIsUnique(t.routes, datagram, found, Some(s));
    } else {
      RouteChangesExactlyWhenGivenUp(t, steps[0], cid, s);
      RoutesStayGood(t, steps[0]);
      AddressesStayInAgreement(t, steps[0]);
      DatagramsKeepReachingTheOwner(Next(t, steps[0]), steps[1..], cid, s, datagram, found);
    }
  }

  // ---------------------------------------------------------------- loops over the tables

  method DeleteOwner<K(==)>(m: map<K, Session>, s: Session) returns (rest: map<K, Session>)
    ensures rest == Without(m, s)
  {
    rest := m;
    var unseen := m.Keys;
    while unseen != {}
      invariant unseen <= m.Keys
      invariant forall k :: k in rest <==> k in m && (k in unseen || m[k] != s)
      invariant forall k :: k in rest ==> rest[k] == m[k]
      decreases |unseen|
    {
      var k :| k in unseen;
      unseen := unseen - {k};
      if m[k] == s { rest := rest - {k}; }
    }
  }

  lemma UnregisterStep(routes: Routing, s: Session, cids: seq<Bytes>, cid: Bytes)
    ensures var before := Unregister(routes, s, cids);
            Unregister(routes, s, cids + [cid]) == if cid in before && before[cid] == s then before - {cid} else before
  {}

  method DeleteListed(routes: Routing, s: Session, cids: seq<Bytes>) returns (rest: Routing)
    ensures rest == Unregister(routes, s, cids)
  {
    rest := routes;
    assert Unregister(routes, s, []) == routes;
    for k := 0 to |cids|
      invariant rest == Unregister(routes, s, cids[..k])
    {
      assert cids[..k + 1] == cids[..k] + [cids[k]];
      UnregisterStep(routes, s, cids[..k], cids[k]);
      if cids[k] in rest && rest[cids[k]] == s { rest := rest - {cids[k]}; }
    }
    assert cids[..|cids|] == cids;
  }

  /** After the session left its old address, whoever is found at the new one is the displaced session. */
  lemma ReboundForm(t: Table, s: Session, address: Address, freed: map<Address, Session>)
    requires s in t.remote && t.remote[s] != address
    requires freed == if At(t.sessions, t.remote[s], s) then t.sessions - {t.remote[s]} else t.sessions
    ensures var other := address in freed && freed[address] != s;
            Rebound(t, s, address)
            == Table(freed[address := s], t.pending, t.remote[s := address],
                     if other then Without(t.routes, freed[address]) else t.routes)
  {}

  lemma PutAfterDelete(m: map<Address, Session>, a: Address, s: Session)
    ensures (m - {a})[a := s] == m[a := s]
  {}

  /** Appends a length that is not listed yet and sorts. */
  method InsertSorted(lengths: seq<nat>, length: nat) returns (after: seq<nat>)
    requires Increasing(lengths) && length !in lengths
    ensures Increasing(after) && forall l: nat :: l in after <==> l in lengths || l == length
  {
    var at := |lengths|;
    while at > 0 && lengths[at - 1] > length
      invariant 0 <= at <= |lengths|
      invariant forall i :: at <= i < |lengths| ==> lengths[i] > length
    {
      at := at - 1;
    }
    assert at > 0 ==> lengths[at - 1] in lengths;
    InsertAt(lengths, at, length);
    after := lengths[..at] + [length] + lengths[at..];
  }

  lemma InsertAt(lengths: seq<nat>, at: nat, length: nat)
    requires Increasing(lengths) && at <= |lengths| && (at > 0 ==> lengths[at - 1] < length)
    requires forall i :: at <= i < |lengths| ==> lengths[i] > length
    ensures var after := lengths[..at] + [length] + lengths[at..];
            Increasing(after) && forall l: nat :: l in after <==> l in lengths || l == length
  {
    var low, high := lengths[..at], lengths[at..];
    LowIsLess(lengths, at, length);
    JoinIncreasing(low, length, high);
    InsertedElements(low, length, high);
    assert lengths == low + high;
  }

  lemma LowIsLess(lengths: seq<nat>, at: nat, length: nat)
    requires Increasing(lengths) && at <= |lengths| && (at > 0 ==> lengths[at - 1] < length)
    ensures forall i :: 0 <= i < |lengths[..at]| ==> lengths[..at][i] < length
  {
    forall i | 0 <= i < at ensures lengths[i] < length {
      if i < at - 1 { assert lengths[i] < lengths[at - 1]; }
    }
  }

  lemma InsertedElements(low: seq<nat>, length: nat, high: seq<nat>)
    ensures forall l: nat :: l in low + [length] + high <==> l in low + high || l == length
  {}

  lemma JoinIncreasing(low: seq<nat>, length: nat, high: seq<nat>)
    requires Increasing(low) && Increasing(high)
    requires forall i :: 0 <= i < |low| ==> low[i] < length
    requires forall i :: 0 <= i < |high| ==> length < high[i]
    ensures Increasing(low + [length] + high)
  {
    var front := low + [length];
    assert Increasing(front);
    assert forall i :: 0 <= i < |front| ==> front[i] <= length;
    JoinSorted(front, high);
  }

  lemma JoinSorted(front: seq<nat>, high: seq<nat>)
    requires Increasing(front) && Increasing(high)
    requires forall i, j :: 0 <= i < |front| && 0 <= j < |high| ==> front[i] < high[j]
    ensures Increasing(front + high)
  {
    var all := front + high;
    forall i, j | 0 <= i < j < |all| ensures all[i] < all[j] {
      if j >= |front| { assert all[j] == high[j - |front|]; }
      if i >= |front| { assert all[i] == high[i - |front|]; }
    }
  }

  method RebuildLengths(routes: Routing) returns (lengths: seq<nat>)
    requires Good(routes)
    ensures lengths == Lengths(routes)
  {
    var active := new bool[256](_ => false);
    var unseen := routes.Keys;
    while unseen != {}
      invariant unseen <= routes.Keys
      invariant forall l :: 0 <= l < 256 ==> (active[l] <==> exists c :: c in routes && c !in unseen && |c| == l)
      decreases |unseen|
    {
      var cid :| cid in unseen;
      unseen := unseen - {cid};
      active[|cid|] := true;
    }
    assert forall l: nat :: l < 256 ==> active[l] == HasLength(routes, l);
    lengths := [];
    for length := 1 to 256
      invariant lengths == LengthsUpTo(routes, length - 1)
    {
      if active[length] { lengths := lengths + [length]; }
    }
  }

  lemma AllowedFits(routes: Routing, s: Session, cids: seq<Bytes>, k: nat)
    requires Allowed(routes, s, cids) && k < |cids| && cids[k] != []
    ensures Fits(AddAll(routes, s, cids[..k]), cids[k])
  {
    AddAllMeaning(routes, s, cids[..k]);
    assert cids[k] in cids;
    forall c | c in AddAll(routes, s, cids[..k]) && c != cids[k] ensures !Comparable(c, cids[k]) {
      assert c in cids[..k] ==> c in cids;
      assert !Comparable(cids[k], c);
    }
  }

  // ---------------------------------------------------------------- the object

  class Listener {
    var sessions: map<Address, Session>
    var pending: map<Address, Session>
    var remote: map<Session, Address>
    var cidSessions: Routing
    var cidLengths: seq<nat>
    var cidScan: bool

    /** The length index is always what a rebuild from the routes gives. */
    ghost predicate Valid()
      reads this
    {
      && Good(cidSessions)
      && cidLengths == Lengths(cidSessions)
      && cidScan == ScanPays(cidSessions, cidLengths)
    }

    ghost function View(): Table
      reads this
    {
      Table(sessions, pending, remote, cidSessions)
    }

    constructor ()
      ensures Valid() && View() == EMPTY
    {
      sessions, pending, remote, cidSessions := map[], map[], map[], map[];
      cidLengths, cidScan := [], false;
      new;
      assert forall l: nat :: !HasLength(cidSessions, l);
      LengthsAreUnique(cidSessions, cidLengths);
    }

    /** Either strategy finds the one owner. */
    method SessionForCID(datagram: Bytes) returns (found: Option<Session>)
      requires Valid()
      ensures Owns(cidSessions, datagram, found)
    {
      if cidScan {
        found := LookupByScan(cidSessions, datagram);
      } else {
        found := LookupByLength(cidSessions, cidLengths, datagram);
      }
    }

    /** Incremental update of the length index. */
    method AddCID(cid: Bytes, s: Session)
      requires Valid() && Fits(cidSessions, cid)
      modifies `cidSessions, `cidLengths, `cidScan
      ensures Valid() && cidSessions == old(cidSessions)[cid := s]
    {
      var length := |cid|;
      LengthsMeaning(cidSessions, MAX_CID_LENGTH);
      ghost var routes := cidSessions[cid := s];
      assert forall l: nat :: HasLength(routes, l) <==> HasLength(cidSessions, l) || l == length by {
        assert cid in routes;
        forall l: nat | HasLength(cidSessions, l) ensures HasLength(routes, l) {
          var c :| c in cidSessions && |c| == l;
          assert c in routes;
        }
      }
      if length !in cidLengths {
        cidLengths := InsertSorted(cidLengths, length);
      }
      cidSessions := cidSessions[cid := s];
      AddKeepsGood(old(cidSessions), cid, s);
      LengthsAreUnique(cidSessions, cidLengths);
      cidScan := |cidLengths| > 1 && |cidLengths| == |cidSessions|;
    }

    method Rebuild()
      requires Good(cidSessions)
      modifies `cidLengths, `cidScan
      ensures Valid()
    {
      cidLengths := RebuildLengths(cidSessions);
      cidScan := |cidLengths| > 1 && |cidLengths| == |cidSessions|;
    }

    /** Registers the ID chosen when a session is accepted, comparing it with the registered ones in any order. */
    method RegisterSessionCID(s: Session, cid: Bytes) returns (ok: bool)
      requires Valid() && |cid| <= MAX_CID_LENGTH
      modifies `cidSessions, `cidLengths, `cidScan
      ensures Valid() && View() == Next(old(View()), AcceptCid(s, cid))
      ensures ok == RegisterOne(old(cidSessions), s, cid).Some?
      ensures !ok ==> cidSessions == old(cidSessions)
    {
      hide Lengths, ScanPays;
      if |cid| == 0 { return true; }
      var unseen := cidSessions.Keys;
      while unseen != {}
        invariant Valid() && cidSessions == old(cidSessions)
        invariant unseen <= cidSessions.Keys
        invariant forall c :: c in cidSessions && c !in unseen ==> !Comparable(c, cid)
        decreases |unseen|
      {
        var existing :| existing in unseen;
        unseen := unseen - {existing};
        if existing == cid {
          return cidSessions[existing] == s;
        }
        if existing <= cid || cid <= existing {
          assert Comparable(existing, cid);
          return false;
        }
      }
      AddCID(cid, s);
      return true;
    }

    /** Registers IDs advertised later. They are all checked before the first is added. */
    method RegisterSessionCIDs(s: Session, cids: seq<Bytes>) returns (ok: bool)
      requires Valid()
      modifies `cidSessions, `cidLengths, `cidScan
      ensures Valid() && View() == Next(old(View()), AdvertiseCids(s, cids))
      ensures ok == RegisterMany(old(cidSessions), s, cids).Some?
      ensures !ok ==> cidSessions == old(cidSessions)
    {
      ok := CheckCIDs(s, cids);
      if ok { AddChecked(s, cids); }
    }

    method CheckCIDs(s: Session, cids: seq<Bytes>) returns (ok: bool)
      requires Valid()
      ensures ok == Allowed(cidSessions, s, cids)
    {
      var listed := ListKeys(cidSessions);
      MergeMeaning(listed, cids);
      var merged := MergeConnectionIDs(listed, cids);
      if merged.None? { return false; }
      for k := 0 to |cids|
        invariant forall i :: 0 <= i < k && cids[i] in cidSessions ==> cidSessions[cids[i]] == s
      {
        if |cids[k]| != 0 && cids[k] in cidSessions && cidSessions[cids[k]] != s { return false; }
      }
      return true;
    }

    method AddChecked(s: Session, cids: seq<Bytes>)
      requires Valid() && Allowed(cidSessions, s, cids)
      modifies `cidSessions, `cidLengths, `cidScan
      ensures Valid() && cidSessions == AddAll(old(cidSessions), s, cids)
    {
      for k := 0 to |cids|
        invariant Valid() && cidSessions == AddAll(old(cidSessions), s, cids[..k])
      {
        AddAllMeaning(old(cidSessions), s, cids[..k]);
        assert cids[..k + 1][..k] == cids[..k];
        if |cids[k]| != 0 {
          AllowedFits(old(cidSessions), s, cids, k);
          AddCID(cids[k], s);
        }
      }
      assert cids[..|cids|] == cids;
    }

    /** Withdraws the listed IDs that still belong to the session. */
    method UnregisterSessionCIDs(s: Session, cids: seq<Bytes>)
      requires Valid()
      modifies `cidSessions, `cidLengths, `cidScan
      ensures Valid() && View() == Next(old(View()), WithdrawCids(s, cids))
    {
      cidSessions := DeleteListed(cidSessions, s, cids);
      Rebuild();
    }

    method RemoveSession(s: Session)
      requires Valid()
      modifies this
      ensures Valid() && View() == Next(old(View()), Step.Remove(s))
    {
      sessions := DeleteOwner(sessions, s);
      pending := DeleteOwner(pending, s);
      DropRoutes(s);
    }

    method ConnectionValidated(s: Session)
      requires Valid()
      modifies `sessions, `pending
      ensures Valid() && View() == Next(old(View()), Validate(s))
    {
      if s !in remote { return; }
      var key := remote[s];
      if key in pending && pending[key] == s {
        sessions := sessions[key := s];
        pending := pending - {key};
      }
    }

    method RebindSession(s: Session, address: Address)
      requires Valid()
      modifies this
      ensures Valid() && View() == Rebound(old(View()), s, address)
    {
      hide Good, Lengths, ScanPays;
      if s !in remote || remote[s] == address { return; }
      var oldKey := remote[s];
      var freed := if oldKey in sessions && sessions[oldKey] == s then sessions - {oldKey} else sessions;
      ReboundForm(View(), s, address, freed);
      PutAfterDelete(freed, address, s);
      sessions := freed;
      Displace(s, address);
      sessions, remote := sessions[address := s], remote[s := address];
    }

    /** Pushes out another session found at the address. */
    method Displace(s: Session, address: Address)
      requires Valid()
      modifies `sessions, `cidSessions, `cidLengths, `cidScan
      ensures Valid()
      ensures var other := address in old(sessions) && old(sessions)[address] != s;
              && sessions == (if other then old(sessions) - {address} else old(sessions))
              && cidSessions == if other then Without(old(cidSessions), old(sessions)[address]) else old(cidSessions)
    {
      if address in sessions && sessions[address] != s {
        var displaced := sessions[address];
        sessions := sessions - {address};
        DropRoutes(displaced);
      }
    }

    method DropRoutes(s: Session)
      requires Valid()
      modifies `cidSessions, `cidLengths, `cidScan
      ensures Valid() && cidSessions == Without(old(cidSessions), s)
    {
      cidSessions := DeleteOwner(cidSessions, s);
      Rebuild();
    }
  }

  /** The registered IDs in some order. */
  method ListKeys(routes: Routing) returns (listed: seq<Bytes>)
    requires Good(routes)
    ensures PrefixFree(listed) && forall c :: c in listed <==> c in routes
  {
    listed := [];
    var unseen := routes.Keys;
    while unseen != {}
      invariant unseen <= routes.Keys && PrefixFree(listed)
      invariant forall c :: c in listed <==> c in routes && c !in unseen
      decreases |unseen|
    {
      var cid :| cid in unseen;
      unseen := unseen - {cid};
      AppendIncomparable(listed, cid, routes);
      listed := listed + [cid];
    }
  }

  lemma AppendIncomparable(listed: seq<Bytes>, cid: Bytes, routes: Routing)
    requires Good(routes) && PrefixFree(listed) && cid in routes && cid !in listed
    requires forall c :: c in listed ==> c in routes
    ensures PrefixFree(listed + [cid])
  {
    forall i | 0 <= i < |listed| ensures !Comparable(listed[i], cid) {
      assert listed[i] in listed;
    }
  }
}
