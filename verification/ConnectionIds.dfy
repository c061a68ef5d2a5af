/** Prefix-free connection ID lists: merging, matching and differences. */
module ConnectionIds {
  import opened Wire

  const MAX_CID_LENGTH := 255

  ghost predicate PrefixFree(cids: seq<Bytes>) {
    forall i, j :: 0 <= i < j < |cids| ==> !Comparable(cids[i], cids[j])
  }

  /** The scan of one addition over the merged list stops at the first equal or comparable entry. */
  datatype Scan = Absent | Duplicate | Clash

  function ScanFor(cids: seq<Bytes>, cid: Bytes): Scan {
    if cids == [] then Absent
    else if cids[0] == cid then Duplicate
    else if Comparable(cids[0], cid) then Clash
    else ScanFor(cids[1..], cid)
  }

  function Merge(existing: seq<Bytes>, additions: seq<Bytes>): Option<seq<Bytes>>
    decreases |additions|
  {
    if additions == [] then Some(existing)
    else if |additions[0]| > MAX_CID_LENGTH then None
    else match ScanFor(existing, additions[0])
      case Clash => None
      case Duplicate => Merge(existing, additions[1..])
      case Absent => Merge(existing + [additions[0]], additions[1..])
  }

  /** What the merge is for: every addition fits and is equal to, or incomparable with, every other entry. */
  ghost predicate Mergeable(existing: seq<Bytes>, additions: seq<Bytes>) {
    && (forall a :: a in additions ==> |a| <= MAX_CID_LENGTH)
    && (forall a, e :: a in additions && e in existing ==> a == e || !Comparable(a, e))
    && (forall a, b :: a in additions && b in additions ==> a == b || !Comparable(a, b))
  }

  lemma {:induction false} ScanMeaning(cids: seq<Bytes>, cid: Bytes)
    requires PrefixFree(cids)
    ensures ScanFor(cids, cid) == Absent <==> forall c :: c in cids ==> !Comparable(c, cid)
    ensures ScanFor(cids, cid) == Duplicate <==> cid in cids
  {
    if cids != [] {
      assert forall i, j :: 0 <= i < j < |cids[1..]| ==> cids[1..][i] == cids[i + 1] && cids[1..][j] == cids[j + 1];
      ScanMeaning(cids[1..], cid);
      assert cids == [cids[0]] + cids[1..];
      if cids[0] == cid {
        assert Comparable(cids[0], cid);
      }
    }
  }

  /** A merge succeeds exactly when it is well-defined, and then keeps the list in order, prefix-free and complete. */
  lemma {:induction false} MergeMeaning(existing: seq<Bytes>, additions: seq<Bytes>)
    requires PrefixFree(existing)
    ensures Merge(existing, additions).Some? <==> Mergeable(existing, additions)
    ensures Merge(existing, additions).Some? ==>
              var merged := Merge(existing, additions).value;
              && PrefixFree(merged)
              && existing <= merged
              && (forall c :: c in merged <==> c in existing || c in additions)
    decreases |additions|
  {
    if additions != [] {
      var first, rest := additions[0], additions[1..];
      assert additions == [first] + rest;
      ScanMeaning(existing, first);
      match ScanFor(existing, first)
      case Clash =>
        assert exists c :: c in existing && Comparable(c, first);
        assert first in additions;
      case Duplicate =>
        MergeMeaning(existing, rest);
        MergeStepDuplicate(existing, first, rest);
      case Absent =>
        MergeMeaning(existing + [first], rest);
        MergeStepAbsent(existing, first, rest);
    }
  }

  lemma MergeStepDuplicate(existing: seq<Bytes>, first: Bytes, rest: seq<Bytes>)
    requires PrefixFree(existing) && first in existing
    ensures Mergeable(existing, [first] + rest) <==> |first| <= MAX_CID_LENGTH && Mergeable(existing, rest)
  {
    forall e | e in existing ensures first == e || !Comparable(first, e) {
      var i :| 0 <= i < |existing| && existing[i] == first;
      var j :| 0 <= j < |existing| && existing[j] == e;
      assert i != j ==> !Comparable(existing[if i < j then i else j], existing[if i < j then j else i]);
    }
    if Mergeable(existing, [first] + rest) {
      assert first in [first] + rest;
      assert forall a :: a in rest ==> a in [first] + rest;
    }
  }

  lemma MergeStepAbsent(existing: seq<Bytes>, first: Bytes, rest: seq<Bytes>)
    requires forall c :: c in existing ==> !Comparable(c, first)
    ensures Mergeable(existing, [first] + rest) <==> |first| <= MAX_CID_LENGTH && Mergeable(existing + [first], rest)
  {
    if Mergeable(existing, [first] + rest) {
      assert first in [first] + rest;
      assert forall a :: a in rest ==> a in [first] + rest;
    } else if |first| <= MAX_CID_LENGTH && Mergeable(existing + [first], rest) {
      assert first in existing + [first];
      assert forall e :: e in existing ==> e in existing + [first];
    }
  }

  /** The source's nested loops. */
  method MergeConnectionIDs(existing: seq<Bytes>, additions: seq<Bytes>) returns (merged: Option<seq<Bytes>>)
    ensures merged == Merge(existing, additions)
  {
    var list := existing;
    var k := 0;
    while k < |additions|
      invariant k <= |additions|
      invariant Merge(existing, additions) == Merge(list, additions[k..])
    {
      var cid := additions[k];
      assert additions[k..][0] == cid && additions[k..][1..] == additions[k + 1..];
      if |cid| > MAX_CID_LENGTH { return None; }
      var duplicate := false;
      var j := 0;
      while j < |list|
        invariant j <= |list| && !duplicate
        invariant ScanFor(list, cid) == ScanFor(list[j..], cid)
      {
        assert list[j..][0] == list[j] && list[j..][1..] == list[j + 1..];
        if list[j] == cid {
          duplicate := true;
          break;
        }
        var shorter := if |cid| < |list[j]| then |cid| else |list[j]|;
        if list[j][..shorter] == cid[..shorter] {
          assert Comparable(list[j], cid);
          return None;
        }
        j := j + 1;
      }
      if !duplicate {
        list := list + [cid];
      }
      k := k + 1;
    }
    merged := Some(list);
  }

  /** The first accepted ID that starts the datagram. */
  function MatchConnectionID(accepted: seq<Bytes>, datagram: Bytes): Option<Bytes> {
    if accepted == [] then None
    else if accepted[0] <= datagram then Some(accepted[0])
    else MatchConnectionID(accepted[1..], datagram)
  }

  lemma FirstMatchIsOnly(accepted: seq<Bytes>, datagram: Bytes)
    requires PrefixFree(accepted) && accepted != [] && accepted[0] <= datagram
    ensures forall c :: c in accepted && c <= datagram ==> c == accepted[0]
  {
    forall c | c in accepted && c <= datagram ensures c == accepted[0] {
      var j :| 0 <= j < |accepted| && accepted[j] == c;
      assert j > 0 ==> !Comparable(accepted[0], accepted[j]);
      PrefixesOfOneAreComparable(c, accepted[0], datagram);
    }
  }

  lemma {:induction false} MatchIsUnique(accepted: seq<Bytes>, datagram: Bytes)
    requires PrefixFree(accepted)
    ensures match MatchConnectionID(accepted, datagram)
            case Some(cid) =>
              cid in accepted && cid <= datagram && forall c :: c in accepted && c <= datagram ==> c == cid
            case None => forall c :: c in accepted ==> !(c <= datagram)
  {
    if accepted != [] {
      assert forall i, j :: 0 <= i < j < |accepted[1..]| ==>
             accepted[1..][i] == accepted[i + 1] && accepted[1..][j] == accepted[j + 1];
      MatchIsUnique(accepted[1..], datagram);
      assert accepted == [accepted[0]] + accepted[1..];
      if accepted[0] <= datagram { FirstMatchIsOnly(accepted, datagram); }
    }
  }

  /** The listed IDs that are not already known, in order. */
  function Difference(cids: seq<Bytes>, existing: seq<Bytes>): seq<Bytes> {
    if cids == [] then []
    else (if cids[0] in existing then [] else [cids[0]]) + Difference(cids[1..], existing)
  }

  lemma {:induction false} DifferenceAppend(a: seq<Bytes>, b: seq<Bytes>, existing: seq<Bytes>)
    ensures Difference(a + b, existing) == Difference(a, existing) + Difference(b, existing)
  {
    if a == [] {
      assert a + b == b;
    } else {
      assert (a + b)[1..] == a[1..] + b;
      DifferenceAppend(a[1..], b, existing);
    }
  }

  lemma {:induction false} DifferenceOfKnown(cids: seq<Bytes>, existing: seq<Bytes>)
    ensures (forall c :: c in cids ==> c in existing) ==> Difference(cids, existing) == []
    ensures (forall c :: c in cids ==> c !in existing) ==> Difference(cids, existing) == cids
  {
    if cids != [] {
      DifferenceOfKnown(cids[1..], existing);
      assert cids == [cids[0]] + cids[1..];
    }
  }

  lemma DifferenceOfExtension(existing: seq<Bytes>, tail: seq<Bytes>)
    requires PrefixFree(existing + tail)
    ensures Difference(existing + tail, existing) == tail
  {
    var all := existing + tail;
    forall c | c in tail ensures c !in existing {
      var j :| 0 <= j < |tail| && tail[j] == c;
      forall i | 0 <= i < |existing| ensures existing[i] != c {
        assert !Comparable(all[i], all[|existing| + j]);
      }
    }
    DifferenceAppend(existing, tail, existing);
    DifferenceOfKnown(existing, existing);
    DifferenceOfKnown(tail, existing);
  }

  /** What is registered for a new advertisement is exactly the tail the merge appended. */
  lemma DifferenceIsMergedTail(existing: seq<Bytes>, additions: seq<Bytes>, merged: seq<Bytes>)
    requires PrefixFree(existing) && Merge(existing, additions) == Some(merged)
    ensures existing + Difference(merged, existing) == merged
  {
    MergeMeaning(existing, additions);
    assert merged == existing + merged[|existing|..];
    DifferenceOfExtension(existing, merged[|existing|..]);
  }
}
