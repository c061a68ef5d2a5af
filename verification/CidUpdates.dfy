/** Connection ID updates: advertising local IDs, and holding the IDs the peer advertised. */
module CidUpdates {
  import opened Wire
  import opened ConnectionIds
  import opened ReceivingTraffic

  // ---------------------------------------------------------------- local IDs

  /** How far an advertisement got: the registration with the listener and the write of the flight may each fail. */
  datatype Attempt = Attempt(cids: seq<Bytes>, registered: bool, written: bool)

  /** The receive side of sending a NewConnectionId message: the new IDs are accepted before they are registered and
      written, and a later failure restores the earlier list. */
  function Advertise(r: Receiver, a: Attempt, maxConnectionIDs: nat): (Receiver, bool) {
    match Merge(r.acceptedCIDs, a.cids)
    case None => (r, false)
    case Some(merged) =>
      if |merged| > maxConnectionIDs then (r, false)
      else
        match AddConnectionIDs(r, a.cids)
        case None => (r, false)
        case Some(added) =>
          if !a.registered || !a.written then (RestoreConnectionIDs(added, r.acceptedCIDs), false)
          else (added, true)
  }

  datatype LocalStep = Send(attempt: Attempt) | Receive(sequence: nat, body: Bytes)

  function LocalNext(r: Receiver, step: LocalStep, maxConnectionIDs: nat, derive: Bytes -> Bytes): Receiver {
    match step
    case Send(attempt) => Advertise(r, attempt, maxConnectionIDs).0
    case Receive(sequence, body) => ProcessKeyUpdate(r, sequence, body, derive).0
  }

  function LocalRun(r: Receiver, steps: seq<LocalStep>, maxConnectionIDs: nat, derive: Bytes -> Bytes): Receiver {
    if steps == [] then r
    else LocalNext(LocalRun(r, steps[..|steps| - 1], maxConnectionIDs, derive), steps[|steps| - 1], maxConnectionIDs,
                   derive)
  }

  /** An advertisement succeeds completely or leaves the receive side untouched. */
  lemma AdvertiseIsAtomic(r: Receiver, a: Attempt, maxConnectionIDs: nat)
    requires Coherent(r)
    ensures var (after, ok) := Advertise(r, a, maxConnectionIDs);
            && Coherent(after)
            && (!ok ==> after == r)
            && (ok ==> Mergeable(r.acceptedCIDs, a.cids))
            && (ok <==> a.registered && a.written && r.hasConnectionID && Merge(r.acceptedCIDs, a.cids).Some?
                        && |Merge(r.acceptedCIDs, a.cids).value| <= maxConnectionIDs)
            && (ok ==>
                  after.acceptedCIDs == Merge(r.acceptedCIDs, a.cids).value && |after.acceptedCIDs| <= maxConnectionIDs)
  {
    AddThenRestore(r, a.cids);
    if r.hasConnectionID { MergeMeaning(r.acceptedCIDs, a.cids); }
  }

  /** Through any mix of advertisements, failed or not, and key updates, every installed epoch accepts exactly the
      connection's prefix-free list, and the list stays within its bound. */
  lemma {:induction false} EpochsAcceptOneList(r: Receiver, steps: seq<LocalStep>, maxConnectionIDs: nat,
                                               derive: Bytes -> Bytes)
    requires Coherent(r) && |r.acceptedCIDs| <= maxConnectionIDs
    ensures Coherent(LocalRun(r, steps, maxConnectionIDs, derive))
    ensures |LocalRun(r, steps, maxConnectionIDs, derive).acceptedCIDs| <= maxConnectionIDs
  {
    if steps != [] {
      EpochsAcceptOneList(r, steps[..|steps| - 1], maxConnectionIDs, derive);
      var before := LocalRun(r, steps[..|steps| - 1], maxConnectionIDs, derive);
      match steps[|steps| - 1]
      case Send(attempt) => AdvertiseIsAtomic(before, attempt, maxConnectionIDs);
      case Receive(sequence, body) =>
        KeyUpdateKeepsCoherence(before, sequence, body, derive);
        KeyUpdateMeaning(before, sequence, body, derive);
    }
  }

  // ---------------------------------------------------------------- the peer's IDs

  /** The ID in use towards the peer and the spares it advertised. */
  datatype PeerIds = PeerIds(active: Bytes, spares: seq<Bytes>, last: Option<nat>)

  ghost predicate WellHeld(p: PeerIds, maxConnectionIDs: nat) {
    PrefixFree([p.active] + p.spares) && 1 + |p.spares| <= maxConnectionIDs
  }

  function AddSpares(active: Bytes, spares: seq<Bytes>, cids: seq<Bytes>, maxConnectionIDs: nat): seq<Bytes>
    decreases |cids|
  {
    if cids == [] then spares
    else
      var cid := cids[0];
      var keep := cid != active && cid !in spares && 1 + |spares| < maxConnectionIDs;
      AddSpares(active, if keep then spares + [cid] else spares, cids[1..], maxConnectionIDs)
  }

  function Without(spares: seq<Bytes>, cid: Bytes): seq<Bytes> {
    if spares == [] then []
    else if spares[0] == cid then spares[1..]
    else [spares[0]] + Without(spares[1..], cid)
  }

  /** A NewConnectionId message: None is a protocol error; an old message changes nothing. */
  function ProcessNew(p: PeerIds, sequence: nat, cids: seq<Bytes>, immediate: bool,
                      maxConnectionIDs: nat): Option<PeerIds>
    requires immediate ==> cids != []
  {
    if p.last.Some? && sequence <= p.last.value then Some(p)
    else if Merge([p.active] + p.spares, cids).None? then None
    else
      var spares := AddSpares(p.active, p.spares, cids, maxConnectionIDs);
      if immediate then Some(PeerIds(cids[0], Without(spares, cids[0]), Some(sequence)))
      else Some(PeerIds(p.active, spares, Some(sequence)))
  }

  function UseNext(p: PeerIds): Option<PeerIds> {
    if p.spares == [] then None else Some(p.(active := p.spares[0], spares := p.spares[1..]))
  }

  /** After a path is validated: the probed spare, or without a probe the first one, becomes active. */
  function UseProbed(p: PeerIds, probe: Bytes): PeerIds {
    if probe == [] then (if p.spares == [] then p else UseNext(p).value)
    else if probe != p.active && probe in p.spares then p.(active := probe, spares := Without(p.spares, probe))
    else p
  }

  /** The connection's fields for the peer's IDs. */
  class PeerIdState {
    var active: Bytes
    var spares: seq<Bytes>
    var last: Option<nat>
    const maxConnectionIDs: nat

    function View(): PeerIds
      reads this
    {
      PeerIds(active, spares, last)
    }

    constructor (active: Bytes, maxConnectionIDs: nat)
      ensures View() == PeerIds(active, [], None) && this.maxConnectionIDs == maxConnectionIDs
    {
      this.active, spares, last, this.maxConnectionIDs := active, [], None, maxConnectionIDs;
    }

    method ProcessNewConnectionID(sequence: nat, cids: seq<Bytes>, immediate: bool) returns (ok: bool)
      requires immediate ==> cids != []
      modifies this
      ensures match ProcessNew(old(View()), sequence, cids, immediate, maxConnectionIDs)
              case None => !ok && View() == old(View())
              case Some(after) => ok && View() == after
    {
      if last.Some? && sequence <= last.value { return true; }
      var merged := MergeConnectionIDs([active] + spares, cids);
      if merged.None? { return false; }
      last := Some(sequence);
      var k := 0;
      while k < |cids|
        invariant k <= |cids| && active == old(active) && last == Some(sequence)
        invariant AddSpares(active, old(spares), cids, maxConnectionIDs)
                  == AddSpares(active, spares, cids[k..], maxConnectionIDs)
      {
        assert cids[k..][0] == cids[k] && cids[k..][1..] == cids[k + 1..];
        var duplicate := cids[k] == active || cids[k] in spares;
        if !duplicate && 1 + |spares| < maxConnectionIDs {
          spares := spares + [cids[k]];
        }
        k := k + 1;
      }
      if immediate {
        spares := RemoveSpare(spares, cids[0]);
        active := cids[0];
      }
      return true;
    }
  }

  method RemoveSpare(spares: seq<Bytes>, cid: Bytes) returns (kept: seq<Bytes>)
    ensures kept == Without(spares, cid)
  {
    var i := 0;
    while i < |spares| && spares[i] != cid
      invariant i <= |spares|
      invariant Without(spares, cid) == spares[..i] + Without(spares[i..], cid)
    {
      assert spares[i..][1..] == spares[i + 1..];
      assert spares[..i + 1] == spares[..i] + [spares[i]];
      i := i + 1;
    }
    if i == |spares| { return spares; }
    assert spares[i..][1..] == spares[i + 1..];
    return spares[..i] + spares[i + 1..];
  }

  /** All IDs of one prefix-free family: any two are equal or incomparable. */
  ghost predicate Family(ids: set<Bytes>) {
    forall a, b :: a in ids && b in ids ==> a == b || !Comparable(a, b)
  }

  ghost predicate DistinctIn(list: seq<Bytes>, ids: set<Bytes>) {
    && (forall i :: 0 <= i < |list| ==> list[i] in ids)
    && (forall i, j :: 0 <= i < j < |list| ==> list[i] != list[j])
  }

  lemma FamilyLists(list: seq<Bytes>, ids: set<Bytes>)
    requires Family(ids) && DistinctIn(list, ids)
    ensures PrefixFree(list)
  {}

  lemma MergedFamily(existing: seq<Bytes>, cids: seq<Bytes>) returns (ids: set<Bytes>)
    requires PrefixFree(existing) && Merge(existing, cids).Some?
    ensures Family(ids) && DistinctIn(existing, ids) && forall c :: c in cids ==> c in ids
  {
    MergeMeaning(existing, cids);
    var merged := Merge(existing, cids).value;
    ids := set c | c in merged;
    forall a, b | a in ids && b in ids ensures a == b || !Comparable(a, b) {
      var i :| 0 <= i < |merged| && merged[i] == a;
      var j :| 0 <= j < |merged| && merged[j] == b;
      assert i != j ==> !Comparable(merged[if i < j then i else j], merged[if i < j then j else i]);
    }
    forall i, j | 0 <= i < j < |existing| ensures existing[i] != existing[j] {
      assert !Comparable(existing[i], existing[j]);
    }
  }

  lemma {:induction false} AddSparesDistinct(active: Bytes, spares: seq<Bytes>, cids: seq<Bytes>, maxConnectionIDs: nat,
                                             ids: set<Bytes>)
    requires DistinctIn([active] + spares, ids) && (forall c :: c in cids ==> c in ids)
             && 1 + |spares| <= maxConnectionIDs
    ensures DistinctIn([active] + AddSpares(active, spares, cids, maxConnectionIDs), ids)
    ensures 1 + |AddSpares(active, spares, cids, maxConnectionIDs)| <= maxConnectionIDs
    ensures spares <= AddSpares(active, spares, cids, maxConnectionIDs)
    decreases |cids|
  {
    if cids != [] {
      var cid := cids[0];
      if cid != active && cid !in spares && 1 + |spares| < maxConnectionIDs {
        assert [active] + (spares + [cid]) == ([active] + spares) + [cid];
        assert forall i :: 0 <= i < |[active] + spares| ==> ([active] + spares)[i] != cid;
        AddSparesDistinct(active, spares + [cid], cids[1..], maxConnectionIDs, ids);
      } else {
        AddSparesDistinct(active, spares, cids[1..], maxConnectionIDs, ids);
      }
    }
  }

  lemma {:induction false} WithoutDistinct(spares: seq<Bytes>, cid: Bytes, ids: set<Bytes>)
    requires DistinctIn(spares, ids)
    ensures DistinctIn(Without(spares, cid), ids) && cid !in Without(spares, cid)
    ensures forall c :: c in Without(spares, cid) <==> c in spares && c != cid
    ensures |Without(spares, cid)| <= |spares|
    ensures cid in spares ==> |Without(spares, cid)| == |spares| - 1
  {
    if spares != [] {
      var rest := spares[1..];
      assert forall i :: 0 <= i < |rest| ==> rest[i] == spares[i + 1];
      WithoutDistinct(rest, cid, ids);
      assert spares == [spares[0]] + rest;
      if spares[0] != cid {
        var kept := Without(rest, cid);
        forall i | 0 <= i < |kept| ensures kept[i] in rest && kept[i] != spares[0] {
          assert kept[i] in kept;
          var j :| 0 <= j < |rest| && rest[j] == kept[i];
          assert spares[j + 1] == kept[i];
        }
      }
    }
  }

  lemma ActivatedDistinct(active: Bytes, spares: seq<Bytes>, cid: Bytes, ids: set<Bytes>)
    requires DistinctIn([active] + spares, ids) && cid in ids
    ensures DistinctIn([cid] + Without(spares, cid), ids)
  {
    assert forall i :: 0 <= i < |spares| ==> spares[i] == ([active] + spares)[i + 1];
    WithoutDistinct(spares, cid, ids);
    var list := [cid] + Without(spares, cid);
    forall i, j | 0 <= i < j < |list| ensures list[i] != list[j] {
      assert list[j] in Without(spares, cid);
    }
  }

  /** The active ID and the spares stay distinct, prefix-free and within the bound, whatever the peer advertises. */
  lemma ProcessNewHolds(p: PeerIds, sequence: nat, cids: seq<Bytes>, immediate: bool, maxConnectionIDs: nat)
    requires WellHeld(p, maxConnectionIDs) && (immediate ==> cids != [])
    ensures ProcessNew(p, sequence, cids, immediate, maxConnectionIDs).Some? ==>
              WellHeld(ProcessNew(p, sequence, cids, immediate, maxConnectionIDs).value, maxConnectionIDs)
  {
    if !(p.last.Some? && sequence <= p.last.value) && Merge([p.active] + p.spares, cids).Some? {
      var ids := MergedFamily([p.active] + p.spares, cids);
      AddSparesDistinct(p.active, p.spares, cids, maxConnectionIDs, ids);
      var spares := AddSpares(p.active, p.spares, cids, maxConnectionIDs);
      FamilyLists([p.active] + spares, ids);
      if immediate {
        ActivatedDistinct(p.active, spares, cids[0], ids);
        FamilyLists([cids[0]] + Without(spares, cids[0]), ids);
        assert DistinctIn(spares, ids) by {
          assert forall i :: 0 <= i < |spares| ==> spares[i] == ([p.active] + spares)[i + 1];
        }
        WithoutDistinct(spares, cids[0], ids);
      }
    }
  }

  /** Nothing the peer advertised is lost while there is room. */
  lemma {:induction false} SparesAreComplete(active: Bytes, spares: seq<Bytes>, cids: seq<Bytes>, maxConnectionIDs: nat)
    requires 1 + |spares| + |cids| <= maxConnectionIDs
    ensures forall c :: c in AddSpares(active, spares, cids, maxConnectionIDs) <==>
            c in spares || (c in cids && c != active)
    decreases |cids|
  {
    if cids != [] {
      var cid := cids[0];
      assert cids == [cid] + cids[1..];
      SparesAreComplete(active, if cid != active && cid !in spares then spares + [cid] else spares, cids[1..],
                        maxConnectionIDs);
    }
  }

  datatype PeerStep = Advertised(sequence: nat, cids: seq<Bytes>, immediate: bool) | Switch | Validated(probe: Bytes)

  /** A protocol error, or switching without a spare, leaves the IDs as they were. */
  function PeerNext(p: PeerIds, step: PeerStep, maxConnectionIDs: nat): PeerIds {
    match step
    case Advertised(sequence, cids, immediate) =>
      if immediate && cids == [] then p
      else
        (match ProcessNew(p, sequence, cids, immediate, maxConnectionIDs)
         case None => p
         case Some(after) => after)
    case Switch => if UseNext(p).Some? then UseNext(p).value else p
    case Validated(probe) => UseProbed(p, probe)
  }

  function PeerRun(p: PeerIds, steps: seq<PeerStep>, maxConnectionIDs: nat): PeerIds {
    if steps == [] then p
      else PeerNext(PeerRun(p, steps[..|steps| - 1], maxConnectionIDs), steps[|steps| - 1], maxConnectionIDs)
  }

  lemma HeldFamily(p: PeerIds) returns (ids: set<Bytes>)
    requires PrefixFree([p.active] + p.spares)
    ensures Family(ids) && DistinctIn([p.active] + p.spares, ids)
  {
    ids := MergedFamily([p.active] + p.spares, []);
  }

  lemma NextHolds(p: PeerIds, maxConnectionIDs: nat)
    requires WellHeld(p, maxConnectionIDs) && p.spares != []
    ensures WellHeld(UseNext(p).value, maxConnectionIDs)
  {
    var all, after := [p.active] + p.spares, [p.spares[0]] + p.spares[1..];
    assert forall i :: 0 <= i < |after| ==> after[i] == all[i + 1];
  }

  lemma ProbedHolds(p: PeerIds, probe: Bytes, maxConnectionIDs: nat)
    requires WellHeld(p, maxConnectionIDs) && probe in p.spares
    ensures WellHeld(p.(active := probe, spares := Without(p.spares, probe)), maxConnectionIDs)
  {
    var ids := HeldFamily(p);
    assert forall i :: 0 <= i < |p.spares| ==> p.spares[i] == ([p.active] + p.spares)[i + 1];
    ActivatedDistinct(p.active, p.spares, probe, ids);
    WithoutDistinct(p.spares, probe, ids);
    FamilyLists([probe] + Without(p.spares, probe), ids);
  }

  lemma SwitchHolds(p: PeerIds, probe: Bytes, maxConnectionIDs: nat)
    requires WellHeld(p, maxConnectionIDs)
    ensures UseNext(p).Some? ==> WellHeld(UseNext(p).value, maxConnectionIDs)
    ensures WellHeld(UseProbed(p, probe), maxConnectionIDs)
  {
    if p.spares != [] { NextHolds(p, maxConnectionIDs); }
    if probe in p.spares { ProbedHolds(p, probe, maxConnectionIDs); }
  }

  /** Over every run of advertisements, switches and validated paths. */
  lemma {:induction false} PeerIdsStayWellHeld(p: PeerIds, steps: seq<PeerStep>, maxConnectionIDs: nat)
    requires WellHeld(p, maxConnectionIDs)
    ensures WellHeld(PeerRun(p, steps, maxConnectionIDs), maxConnectionIDs)
  {
    if steps != [] {
      PeerIdsStayWellHeld(p, steps[..|steps| - 1], maxConnectionIDs);
      var before := PeerRun(p, steps[..|steps| - 1], maxConnectionIDs);
      match steps[|steps| - 1]
      case Advertised(sequence, cids, immediate) =>
        if !immediate || cids != [] { ProcessNewHolds(before, sequence, cids, immediate, maxConnectionIDs); }
      case Switch => SwitchHolds(before, [], maxConnectionIDs);
      case Validated(probe) => SwitchHolds(before, probe, maxConnectionIDs);
    }
  }

  // ---------------------------------------------------------------- what each step does with the IDs

  /** All IDs held for the peer, the active one first. */
  function Held(p: PeerIds): seq<Bytes> {
    [p.active] + p.spares
  }

  /** The spares only grow, at the end, by advertised IDs that were not held. */
  lemma {:induction false} AddSparesAppends(active: Bytes, spares: seq<Bytes>, cids: seq<Bytes>, maxConnectionIDs: nat)
    ensures var after := AddSpares(active, spares, cids, maxConnectionIDs);
            && spares <= after && (|after| == |spares| || 1 + |after| <= maxConnectionIDs)
            && forall c :: c in after[|spares|..] ==> c in cids && c != active && c !in spares
    decreases |cids|
  {
    if cids != [] {
      var cid := cids[0];
      var keep := cid != active && cid !in spares && 1 + |spares| < maxConnectionIDs;
      var more := if keep then spares + [cid] else spares;
      AddSparesAppends(active, more, cids[1..], maxConnectionIDs);
      var after := AddSpares(active, spares, cids, maxConnectionIDs);
      forall c | c in after[|spares|..] ensures c in cids && c != active && c !in spares {
        if keep { assert after[|spares|..] == [cid] + after[|more|..]; }
      }
    }
  }

  /**
   * A newer NewConnectionId is an error exactly when its IDs clash with those held. Otherwise, if it asks for an
   * immediate switch its first ID becomes active and the old one is given up; if not, the active ID stays. No spare is
   * lost but the one that becomes active, and while there is room everything advertised is held.
   */
  lemma NewIdsExactly(p: PeerIds, sequence: nat, cids: seq<Bytes>, immediate: bool, maxConnectionIDs: nat)
    requires WellHeld(p, maxConnectionIDs) && (immediate ==> cids != [])
    requires p.last.None? || sequence > p.last.value
    ensures ProcessNew(p, sequence, cids, immediate, maxConnectionIDs).None? <==> !Mergeable(Held(p), cids)
    ensures ProcessNew(p, sequence, cids, immediate, maxConnectionIDs).Some? ==>
              var after := ProcessNew(p, sequence, cids, immediate, maxConnectionIDs).value;
              && after.last == Some(sequence) && after.active == (if immediate then cids[0] else p.active)
              && (forall c :: c in p.spares ==> c in Held(after))
              && (forall c :: c in after.spares ==> (c in p.spares || c in cids) && c != p.active)
              && (|Held(p)| + |cids| <= maxConnectionIDs ==>
                    forall c :: c in cids ==> c in Held(after) || c == p.active)
              && (!immediate ==> Held(p) <= Held(after))
  {
    MergeMeaning(Held(p), cids);
    if Merge(Held(p), cids).Some? {
      var spares := AddSpares(p.active, p.spares, cids, maxConnectionIDs);
      AddSparesAppends(p.active, p.spares, cids, maxConnectionIDs);
      if |Held(p)| + |cids| <= maxConnectionIDs { SparesAreComplete(p.active, p.spares, cids, maxConnectionIDs); }
      NewSpares(p, cids, spares);
      if immediate { WithoutElements(spares, cids[0]); }
    }
  }

  lemma NewSpares(p: PeerIds, cids: seq<Bytes>, spares: seq<Bytes>)
    requires PrefixFree(Held(p)) && p.spares <= spares
    requires forall c :: c in spares[|p.spares|..] ==> c in cids && c != p.active
    ensures forall c :: c in spares ==> (c in p.spares || c in cids) && c != p.active
    ensures Held(p) <= [p.active] + spares
  {
    assert spares == p.spares + spares[|p.spares|..];
    forall c | c in p.spares ensures c != p.active {
      var i :| 0 <= i < |p.spares| && p.spares[i] == c;
      assert Held(p)[i + 1] == c && !Comparable(Held(p)[0], Held(p)[i + 1]);
    }
  }

  lemma {:induction false} WithoutElements(spares: seq<Bytes>, cid: Bytes)
    ensures forall c :: c in spares ==> c in Without(spares, cid) || c == cid
    ensures forall c :: c in Without(spares, cid) ==> c in spares
  {
    if spares != [] {
      WithoutElements(spares[1..], cid);
      assert spares == [spares[0]] + spares[1..];
    }
  }

  /** An old NewConnectionId, and one that clashes, change nothing. */
  lemma OldIdsChangeNothing(p: PeerIds, sequence: nat, cids: seq<Bytes>, immediate: bool, maxConnectionIDs: nat)
    requires p.last.Some? && sequence <= p.last.value
    ensures PeerNext(p, Advertised(sequence, cids, immediate), maxConnectionIDs) == p
  {}

  /** A switch gives up the active ID for the first spare; without one it changes nothing. */
  lemma SwitchTakesTheNext(p: PeerIds, maxConnectionIDs: nat)
    ensures var after := PeerNext(p, Switch, maxConnectionIDs);
            after.last == p.last && Held(after) == if p.spares == [] then Held(p) else p.spares
  {}

  /** A validated path takes the ID it was probed with, if that is still a spare. The old active ID is given up. */
  lemma ValidatedTakesTheProbe(p: PeerIds, probe: Bytes, maxConnectionIDs: nat)
    requires WellHeld(p, maxConnectionIDs)
    ensures var after := PeerNext(p, Validated(probe), maxConnectionIDs);
            && after.last == p.last
            && (probe == [] && p.spares != [] ==> Held(after) == p.spares)
            && (probe != [] && probe in p.spares ==>
                  after.active == probe && forall c :: c in Held(after) <==> c in p.spares)
            && ((probe == [] && p.spares == []) || (probe != [] && probe !in p.spares) ==> after == p)
  {
    hide WellHeld, Without;
    if probe in p.spares { ProbedElements(p, probe, maxConnectionIDs); }
  }

  lemma ProbedElements(p: PeerIds, probe: Bytes, maxConnectionIDs: nat)
    requires WellHeld(p, maxConnectionIDs) && probe in p.spares
    ensures probe != p.active
    ensures forall c :: c in [probe] + Without(p.spares, probe) <==> c in p.spares
  {
    hide Without, PrefixFree, Family;
    var ids := HeldFamily(p);
    assert forall i :: 0 <= i < |p.spares| ==> p.spares[i] == ([p.active] + p.spares)[i + 1];
    WithoutDistinct(p.spares, probe, ids);
    var i :| 0 <= i < |p.spares| && p.spares[i] == probe;
    assert ([p.active] + p.spares)[0] != ([p.active] + p.spares)[i + 1];
  }
}
