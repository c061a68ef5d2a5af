/** The listener's connection ID index as values: registered routes, the length index derived from them, and lookup. */
module Routes {
  import opened Wire
  import opened ConnectionIds

  /** Associations are named by numbers, standing for the identity of their session objects. */
  type Session = nat

  type Routing = map<Bytes, Session>

  /** Registered IDs are non-empty, fit one length byte and are pairwise prefix-free. */
  ghost predicate Good(routes: Routing) {
    && (forall c :: c in routes ==> 1 <= |c| <= MAX_CID_LENGTH)
    && (forall c, d :: c in routes && d in routes && c != d ==> !Comparable(c, d))
  }

  // ---------------------------------------------------------------- length index

  predicate HasLength(routes: Routing, length: nat) {
    exists c :: c in routes && |c| == length
  }

  function LengthsUpTo(routes: Routing, n: nat): seq<nat> {
    if n == 0 then [] else LengthsUpTo(routes, n - 1) + if HasLength(routes, n) then [n] else []
  }

  function Lengths(routes: Routing): seq<nat> {
    LengthsUpTo(routes, MAX_CID_LENGTH)
  }

  ghost predicate Increasing(s: seq<nat>) {
    forall i, j :: 0 <= i < j < |s| ==> s[i] < s[j]
  }

  lemma {:induction false} LengthsMeaning(routes: Routing, n: nat)
    ensures Increasing(LengthsUpTo(routes, n))
    ensures forall l: nat :: l in LengthsUpTo(routes, n) <==> 1 <= l <= n && HasLength(routes, l)
  {
    if n > 0 {
      LengthsMeaning(routes, n - 1);
      var shorter := LengthsUpTo(routes, n - 1);
      assert forall i :: 0 <= i < |shorter| ==> shorter[i] in shorter;
    }
  }

  lemma {:induction false} IncreasingIsUnique(a: seq<nat>, b: seq<nat>)
    requires Increasing(a) && Increasing(b) && forall l: nat :: l in a <==> l in b
    ensures a == b
  {
    assert a != [] ==> a[|a| - 1] in a;
    assert b != [] ==> b[|b| - 1] in b;
    if a != [] {
      var x, y := a[|a| - 1], b[|b| - 1];
      var i :| 0 <= i < |a| && a[i] == y;
      var j :| 0 <= j < |b| && b[j] == x;
      assert x == y;
      InitElements(a);
      InitElements(b);
      var a', b' := a[..|a| - 1], b[..|b| - 1];
      forall l: nat ensures l in a' <==> l in b' {
        assert l in a' <==> l in a && l != x;
        assert l in b' <==> l in b && l != x;
      }
      IncreasingIsUnique(a', b');
    }
  }

  lemma InitElements(a: seq<nat>)
    requires Increasing(a) && a != []
    ensures forall l: nat :: l in a[..|a| - 1] <==> l in a && l != a[|a| - 1]
  {
    assert a == a[..|a| - 1] + [a[|a| - 1]];
  }

  /** Any sorted list of the key lengths is the rebuilt one. */
  lemma LengthsAreUnique(routes: Routing, lengths: seq<nat>)
    requires Good(routes) && Increasing(lengths)
    requires forall l: nat :: l in lengths <==> HasLength(routes, l)
    ensures lengths == Lengths(routes)
  {
    LengthsMeaning(routes, MAX_CID_LENGTH);
    IncreasingIsUnique(lengths, Lengths(routes));
  }

  /** Scanning pays only when no two registered IDs share a length. */
  predicate ScanPays(routes: Routing, lengths: seq<nat>) {
    |lengths| > 1 && |lengths| == |routes|
  }

  // ---------------------------------------------------------------- lookup

  predicate CarriesCid(datagram: Bytes) {
    |datagram| >= 2 && datagram[0] / 16 % 2 == 1
  }

  /**
   * `found` is the owner of the registered ID that follows the datagram's first byte, or no registered ID follows it.
   */
  ghost predicate Owns(routes: Routing, datagram: Bytes, found: Option<Session>) {
    match found
    case Some(s) => CarriesCid(datagram) && exists c :: c in routes && c <= datagram[1..] && routes[c] == s
    case None => CarriesCid(datagram) ==> forall c :: c in routes ==> !(c <= datagram[1..])
  }

  /** Prefix-freedom makes the owner unique, so every correct lookup returns the same session. */
  lemma OwnerIsUnique(routes: Routing, datagram: Bytes, a: Option<Session>, b: Option<Session>)
    requires Good(routes) && Owns(routes, datagram, a) && Owns(routes, datagram, b)
    ensures a == b
  {
    if a.Some? && b.Some? {
      var c :| c in routes && c <= datagram[1..] && routes[c] == a.value;
      var d :| d in routes && d <= datagram[1..] && routes[d] == b.value;
      PrefixesOfOneAreComparable(c, d, datagram[1..]);
    }
  }

  /** Probes one slice per registered length. */
  method LookupByLength(routes: Routing, lengths: seq<nat>, datagram: Bytes) returns (found: Option<Session>)
    requires lengths == Lengths(routes) && Good(routes)
    ensures Owns(routes, datagram, found)
  {
    if !CarriesCid(datagram) { return None; }
    LengthsMeaning(routes, MAX_CID_LENGTH);
    for k := 0 to |lengths|
      invariant forall c, i :: 0 <= i < k && c in routes && |c| == lengths[i] ==> !(c <= datagram[1..])
    {
      if |datagram| >= 1 + lengths[k] {
        var slice := datagram[1..1 + lengths[k]];
        assert slice <= datagram[1..];
        assert forall c: Bytes :: |c| == lengths[k] && c <= datagram[1..] ==> c == slice;
        if slice in routes { return Some(routes[slice]); }
      }
    }
    forall c | c in routes ensures !(c <= datagram[1..]) {
      assert HasLength(routes, |c|);
      assert |c| in lengths;
    }
    return None;
  }

  /** Compares every registered ID, in any order, with the datagram. */
  method LookupByScan(routes: Routing, datagram: Bytes) returns (found: Option<Session>)
    ensures Owns(routes, datagram, found)
  {
    if !CarriesCid(datagram) { return None; }
    var unseen := routes.Keys;
    while unseen != {}
      invariant unseen <= routes.Keys
      invariant forall c :: c in routes && c !in unseen ==> !(c <= datagram[1..])
      decreases |unseen|
    {
      var c :| c in unseen;
      unseen := unseen - {c};
      assert |datagram| >= 1 + |c| ==> datagram[1..1 + |c|] == datagram[1..][..|c|];
      if |datagram| >= 1 + |c| && datagram[1..1 + |c|] == c { return Some(routes[c]); }
    }
    return None;
  }

  // ---------------------------------------------------------------- registration

  /** The new ID clashes with no other registered ID. */
  ghost predicate Fits(routes: Routing, cid: Bytes) {
    && 1 <= |cid| <= MAX_CID_LENGTH
    && forall c :: c in routes && c != cid ==> !Comparable(c, cid)
  }

  lemma AddKeepsGood(routes: Routing, cid: Bytes, s: Session)
    requires Good(routes) && Fits(routes, cid)
    ensures Good(routes[cid := s])
  {}

  /** Registering one ID: an empty one needs no route, a repeat by its owner changes nothing, any clash is an error. */
  ghost function RegisterOne(routes: Routing, s: Session, cid: Bytes): Option<Routing> {
    if cid == [] then Some(routes)
    else if cid in routes then (if routes[cid] == s then Some(routes) else None)
    else if exists c :: c in routes && Comparable(c, cid) then None
    else Some(routes[cid := s])
  }

  ghost function AddAll(routes: Routing, s: Session, cids: seq<Bytes>): Routing {
    if cids == [] then routes
    else
      var rest := AddAll(routes, s, cids[..|cids| - 1]);
      var cid := cids[|cids| - 1];
      if cid == [] then rest else rest[cid := s]
  }

  ghost predicate Allowed(routes: Routing, s: Session, cids: seq<Bytes>) {
    && (forall a :: a in cids ==> |a| <= MAX_CID_LENGTH)
    && (forall a, c :: a in cids && c in routes ==> a == c || !Comparable(a, c))
    && (forall a, b :: a in cids && b in cids ==> a == b || !Comparable(a, b))
    && (forall a :: a in cids && a in routes ==> routes[a] == s)
  }

  ghost function RegisterMany(routes: Routing, s: Session, cids: seq<Bytes>): Option<Routing> {
    if Allowed(routes, s, cids) then Some(AddAll(routes, s, cids)) else None
  }

  lemma {:induction false} AddAllMeaning(routes: Routing, s: Session, cids: seq<Bytes>)
    ensures forall c :: c in AddAll(routes, s, cids) <==> c in routes || (c in cids && c != [])
    ensures forall c :: c in cids && c != [] ==> AddAll(routes, s, cids)[c] == s
    ensures forall c :: c in routes && c !in cids ==> AddAll(routes, s, cids)[c] == routes[c]
  {
    if cids != [] {
      var last := |cids| - 1;
      AddAllMeaning(routes, s, cids[..last]);
      assert cids == cids[..last] + [cids[last]];
      assert [] in routes && [] in cids[..last] ==> [] in routes;
    }
  }

  lemma RegisterManyKeepsGood(routes: Routing, s: Session, cids: seq<Bytes>)
    requires Good(routes) && Allowed(routes, s, cids)
    ensures Good(AddAll(routes, s, cids))
  {
    AddAllMeaning(routes, s, cids);
  }

  /** Routes of other owners survive a registration, and everything asked for is routed. */
  lemma RegisterManyMeaning(routes: Routing, s: Session, cids: seq<Bytes>)
    requires Good(routes) && RegisterMany(routes, s, cids).Some?
    ensures var after := RegisterMany(routes, s, cids).value;
            && Good(after)
            && (forall c :: c in routes ==> c in after && after[c] == routes[c])
            && (forall c :: c in after && c !in routes ==> c in cids && after[c] == s)
            && (forall c :: c in cids && c != [] ==> c in after && after[c] == s)
  {
    AddAllMeaning(routes, s, cids);
    RegisterManyKeepsGood(routes, s, cids);
  }

  /** Dropping every route of one session. */
  function Without<K>(m: map<K, Session>, s: Session): map<K, Session> {
    map k | k in m && m[k] != s :: m[k]
  }

  function Unregister(routes: Routing, s: Session, cids: seq<Bytes>): Routing {
    map c | c in routes && !(c in cids && routes[c] == s) :: routes[c]
  }
}
