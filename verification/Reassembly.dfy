/** Reassembly of handshake messages: incomplete messages are partial maps from offset to byte, within fixed limits. */
module Reassembly {
  import opened Wire
  import opened Fragments

  type Cells = seq<Option<Byte>>

  datatype Partial = Partial(typ: Byte, epoch: nat, hasEpoch: bool, cells: Cells)

  datatype Limits = Limits(maxSize: nat, maxMessages: nat, maxBytes: nat)

  datatype Store = Store(messages: map<nat, Partial>, reserved: int)

  datatype Outcome = Failed | Incomplete | Complete(body: Bytes)

  // ---------------------------------------------------------------- one message

  function Covered(cells: Cells): (n: nat)
    ensures n <= |cells|
  {
    if cells == [] then 0 else Covered(cells[..|cells| - 1]) + (if cells[|cells| - 1].Some? then 1 else 0)
  }

  predicate Full(cells: Cells) {
    forall i :: 0 <= i < |cells| ==> cells[i].Some?
  }

  lemma {:induction false} CoveredIsFull(cells: Cells)
    ensures Covered(cells) == |cells| <==> Full(cells)
  {
    if cells != [] {
      var last := |cells| - 1;
      CoveredIsFull(cells[..last]);
      if Full(cells[..last]) && cells[last].Some? {
        assert forall i :: 0 <= i < last ==> cells[i] == cells[..last][i];
      }
      if Full(cells) { assert Full(cells[..last]); }
    }
  }

  lemma {:induction false} CoveredAfterSet(cells: Cells, at: nat, v: Byte)
    requires at < |cells|
    ensures Covered(cells[at := Some(v)]) == Covered(cells) + (if cells[at].None? then 1 else 0)
  {
    var last := |cells| - 1;
    var after := cells[at := Some(v)];
    if at == last {
      assert after[..last] == cells[..last];
    } else {
      assert after[..last] == cells[..last][at := Some(v)];
      CoveredAfterSet(cells[..last], at, v);
    }
  }

  function Empty(length: nat): (cells: Cells)
    ensures |cells| == length
  {
    seq(length, i => None)
  }

  lemma {:induction false} CoveredEmpty(length: nat)
    ensures Covered(Empty(length)) == 0
  {
    if length > 0 {
      assert Empty(length)[..length - 1] == Empty(length - 1);
      CoveredEmpty(length - 1);
    }
  }

  /** Byte by byte, stopping at the first byte that differs from one already there. */
  function Fill(cells: Cells, at: nat, body: Bytes): (result: (Cells, bool))
    requires at + |body| <= |cells|
    ensures |result.0| == |cells|
    decreases |body|
  {
    if body == [] then (cells, true)
    else if cells[at].Some? && cells[at].value != body[0] then (cells, false)
    else Fill(cells[at := Some(body[0])], at + 1, body[1..])
  }

  predicate Compatible(cells: Cells, at: nat, body: Bytes)
    requires at + |body| <= |cells|
  {
    forall k :: 0 <= k < |body| ==> cells[at + k].None? || cells[at + k] == Some(body[k])
  }

  function Written(cells: Cells, at: nat, body: Bytes): (result: Cells)
    requires at + |body| <= |cells|
    ensures |result| == |cells|
  {
    seq(|cells|, i requires 0 <= i < |cells| => if at <= i < at + |body| then Some(body[i - at]) else cells[i])
  }

  /** Filling succeeds exactly when the overlap agrees, and then writes the bytes and nothing else. */
  lemma {:induction false} FillMeaning(cells: Cells, at: nat, body: Bytes)
    requires at + |body| <= |cells|
    ensures Fill(cells, at, body).1 <==> Compatible(cells, at, body)
    ensures Fill(cells, at, body).1 ==> Fill(cells, at, body).0 == Written(cells, at, body)
    ensures forall i :: 0 <= i < |cells| && cells[i].Some? ==> Fill(cells, at, body).0[i] == cells[i]
    decreases |body|
  {
    if body == [] {
      assert Written(cells, at, body) == cells;
    } else if cells[at].Some? && cells[at].value != body[0] {
      assert !Compatible(cells, at, body) by { assert cells[at + 0] != Some(body[0]); }
    } else {
      var next := cells[at := Some(body[0])];
      FillMeaning(next, at + 1, body[1..]);
      if Compatible(cells, at, body) {
        forall k | 0 <= k < |body[1..]| ensures next[at + 1 + k].None? || next[at + 1 + k] == Some(body[1..][k]) {
          assert cells[at + (k + 1)].None? || cells[at + (k + 1)] == Some(body[k + 1]);
        }
        assert Written(next, at + 1, body[1..]) == Written(cells, at, body);
      } else {
        var k :| 0 <= k < |body| && !(cells[at + k].None? || cells[at + k] == Some(body[k]));
        assert next[at + 1 + (k - 1)] == cells[at + k] && body[1..][k - 1] == body[k];
      }
    }
  }

  function BytesOf(cells: Cells): Bytes
    requires Full(cells)
  {
    seq(|cells|, i requires 0 <= i < |cells| => cells[i].value)
  }

  // ---------------------------------------------------------------- the store

  predicate SameEpoch(p: Partial, epoch: nat, protected: bool) {
    p.hasEpoch == protected && (protected ==> p.epoch == epoch)
  }

  /** A fragment for a message that is already being assembled. */
  function AddTo(s: Store, p: Partial, f: Fragment, epoch: nat, protected: bool): (Store, Outcome)
    requires f.offset + |f.body| <= f.length
  {
    if p.typ != f.typ || |p.cells| != f.length || !SameEpoch(p, epoch, protected) then (s, Failed)
    else
      var (cells, ok) := Fill(p.cells, f.offset, f.body);
      var updated := s.(messages := s.messages[f.sequence := p.(cells := cells)]);
      if !ok then (updated, Failed)
      else if Full(cells) then
        (Store(s.messages - {f.sequence}, s.reserved - |cells|), Complete(BytesOf(cells)))
      else (updated, Incomplete)
  }

  function Add(s: Store, f: Fragment, epoch: nat, protected: bool, limits: Limits): (Store, Outcome)
    requires f.offset + |f.body| <= f.length
  {
    if f.length > limits.maxSize then (s, Failed)
    else if f.sequence in s.messages then AddTo(s, s.messages[f.sequence], f, epoch, protected)
    else if |s.messages| >= limits.maxMessages then (s, Failed)
    else if s.reserved + f.length > limits.maxBytes then (s, Failed)
    else if f.offset == 0 && |f.body| == f.length then (s, Complete(f.body))
    else
      var p := Partial(f.typ, epoch, protected, Empty(f.length));
      AddTo(Store(s.messages[f.sequence := p], s.reserved + f.length), p, f, epoch, protected)
  }

  ghost function Total(messages: map<nat, Partial>): nat {
    if messages == map[] then 0
    else
      var k :| k in messages;
      |messages[k].cells| + Total(messages - {k})
  }

  lemma {:induction false} TotalWithout(messages: map<nat, Partial>, key: nat)
    requires key in messages
    ensures Total(messages) == |messages[key].cells| + Total(messages - {key})
  {
    var k :| k in messages && Total(messages) == |messages[k].cells| + Total(messages - {k});
    if k != key {
      TotalWithout(messages - {k}, key);
      TotalWithout(messages - {key}, k);
      assert messages - {k} - {key} == messages - {key} - {k};
    }
  }

  lemma TotalUpdated(messages: map<nat, Partial>, key: nat, p: Partial)
    ensures key in messages ==> Total(messages[key := p]) == Total(messages) - |messages[key].cells| + |p.cells|
    ensures key !in messages ==> Total(messages[key := p]) == Total(messages) + |p.cells|
  {
    TotalWithout(messages[key := p], key);
    if key in messages {
      TotalWithout(messages, key);
      assert messages[key := p] - {key} == messages - {key};
    } else {
      assert messages[key := p] - {key} == messages;
    }
  }

  /** The memory account is exact and all three limits hold. */
  ghost predicate Accounted(s: Store, limits: Limits) {
    && s.reserved == Total(s.messages) <= limits.maxBytes
    && |s.messages| <= limits.maxMessages
    && forall k :: k in s.messages ==> |s.messages[k].cells| <= limits.maxSize
  }

  /** No complete message is held back. */
  ghost predicate HoldsOnlyIncomplete(s: Store) {
    forall k :: k in s.messages ==> !Full(s.messages[k].cells)
  }

  lemma AccountReplaced(s: Store, key: nat, p: Partial, limits: Limits)
    requires Accounted(s, limits) && key in s.messages && |p.cells| == |s.messages[key].cells|
    ensures Accounted(s.(messages := s.messages[key := p]), limits)
  {
    TotalUpdated(s.messages, key, p);
    assert s.messages[key := p].Keys == s.messages.Keys;
  }

  lemma AccountRemoved(s: Store, key: nat, limits: Limits)
    requires Accounted(s, limits) && key in s.messages
    ensures Accounted(Store(s.messages - {key}, s.reserved - |s.messages[key].cells|), limits)
  {
    TotalWithout(s.messages, key);
    assert (s.messages - {key}).Keys == s.messages.Keys - {key};
  }

  lemma AccountInserted(s: Store, key: nat, p: Partial, limits: Limits)
    requires Accounted(s, limits) && key !in s.messages && |p.cells| <= limits.maxSize
    requires |s.messages| < limits.maxMessages && s.reserved + |p.cells| <= limits.maxBytes
    ensures Accounted(Store(s.messages[key := p], s.reserved + |p.cells|), limits)
  {
    TotalUpdated(s.messages, key, p);
    assert s.messages[key := p].Keys == s.messages.Keys + {key};
  }

  lemma AddToKeepsAccount(s: Store, p: Partial, f: Fragment, epoch: nat, protected: bool, limits: Limits)
    requires f.offset + |f.body| <= f.length
    requires f.sequence in s.messages && s.messages[f.sequence] == p
    requires Accounted(s, limits)
    ensures Accounted(AddTo(s, p, f, epoch, protected).0, limits)
  {
    if p.typ == f.typ && |p.cells| == f.length && SameEpoch(p, epoch, protected) {
      AccountReplaced(s, f.sequence, p.(cells := Fill(p.cells, f.offset, f.body).0), limits);
      AccountRemoved(s, f.sequence, limits);
    }
  }

  /** Whatever fragments arrive, the account stays exact and the limits hold. */
  lemma AddKeepsAccount(s: Store, f: Fragment, epoch: nat, protected: bool, limits: Limits)
    requires f.offset + |f.body| <= f.length
    requires Accounted(s, limits)
    ensures Accounted(Add(s, f, epoch, protected, limits).0, limits)
  {
    var after := Add(s, f, epoch, protected, limits).0;
    if f.length > limits.maxSize {
      assert after == s;
    } else if f.sequence in s.messages {
      AddToKeepsAccount(s, s.messages[f.sequence], f, epoch, protected, limits);
    } else if |s.messages| >= limits.maxMessages || s.reserved + f.length > limits.maxBytes
      || (f.offset == 0 && |f.body| == f.length) {
      assert after == s;
    } else {
      NewKeepsAccount(s, f, epoch, protected, limits);
    }
  }

  lemma NewKeepsAccount(s: Store, f: Fragment, epoch: nat, protected: bool, limits: Limits)
    requires f.offset + |f.body| <= f.length <= limits.maxSize && Accounted(s, limits) && f.sequence !in s.messages
    requires |s.messages| < limits.maxMessages && s.reserved + f.length <= limits.maxBytes
    ensures var p := Partial(f.typ, epoch, protected, Empty(f.length));
            Accounted(AddTo(Store(s.messages[f.sequence := p], s.reserved + f.length), p, f, epoch, protected).0,
                      limits)
  {
    var p := Partial(f.typ, epoch, protected, Empty(f.length));
    AccountInserted(s, f.sequence, p, limits);
    AddToKeepsAccount(Store(s.messages[f.sequence := p], s.reserved + f.length), p, f, epoch, protected, limits);
  }

  /** The byte received at position `i` contradicts the one in the body. */
  predicate DiffersAt(cells: Cells, at: nat, body: Bytes, i: nat)
    requires at <= i < at + |body| <= |cells|
  {
    cells[i].Some? && cells[i].value != body[i - at]
  }

  /** Position `i` is the first that differs, and every byte still missing comes before it. */
  predicate FillsBefore(cells: Cells, at: nat, body: Bytes, i: nat)
    requires at + |body| <= |cells|
  {
    && at <= i < at + |body| && DiffersAt(cells, at, body, i)
    && (forall k :: at <= k < i ==> !DiffersAt(cells, at, body, k))
    && (forall k :: 0 <= k < |cells| && cells[k].None? ==> at <= k < i)
  }

  predicate FillsBeforeDiffering(cells: Cells, at: nat, body: Bytes)
    requires at + |body| <= |cells|
  {
    exists i :: at <= i < at + |body| && FillsBefore(cells, at, body, i)
  }

  lemma {:induction false} FullAfterFailure(cells: Cells, at: nat, body: Bytes)
    requires at + |body| <= |cells|
    ensures !Fill(cells, at, body).1 && Full(Fill(cells, at, body).0) <==> FillsBeforeDiffering(cells, at, body)
    decreases |body|
  {
    if body != [] {
      if DiffersAt(cells, at, body, at) {
        assert Fill(cells, at, body) == (cells, false);
        if Full(cells) { assert FillsBefore(cells, at, body, at); }
      } else {
        var next, rest := cells[at := Some(body[0])], body[1..];
        FullAfterFailure(next, at + 1, rest);
        forall i | at + 1 <= i < at + |body|
          ensures FillsBefore(cells, at, body, i) == FillsBefore(next, at + 1, rest, i) {
          FillsShift(cells, at, body, i);
        }
        assert !FillsBefore(cells, at, body, at);
        if FillsBeforeDiffering(cells, at, body) {
          var i :| at <= i < at + |body| && FillsBefore(cells, at, body, i);
          assert FillsBefore(next, at + 1, rest, i);
        }
        if FillsBeforeDiffering(next, at + 1, rest) {
          var i :| at + 1 <= i < at + 1 + |rest| && FillsBefore(next, at + 1, rest, i);
          assert FillsBefore(cells, at, body, i);
        }
      }
    }
  }

  lemma FillsShift(cells: Cells, at: nat, body: Bytes, i: nat)
    requires at < i < at + |body| <= |cells| && !DiffersAt(cells, at, body, at)
    ensures FillsBefore(cells, at, body, i) == FillsBefore(cells[at := Some(body[0])], at + 1, body[1..], i)
  {
    var next, rest, from := cells[at := Some(body[0])], body[1..], at + 1;
    assert forall k :: from <= k < at + |body| ==> DiffersAt(next, from, rest, k) == DiffersAt(cells, at, body, k);
    assert forall k :: 0 <= k < |cells| && k != at ==> next[k] == cells[k];
    if FillsBefore(next, from, rest, i) {
      forall k | at <= k < i ensures !DiffersAt(cells, at, body, k) {
        if k > at { assert !DiffersAt(next, from, rest, k); }
      }
      forall k | 0 <= k < |cells| && cells[k].None? ensures at <= k < i {
        if k != at { assert next[k].None?; }
      }
    }
    if FillsBefore(cells, at, body, i) {
      assert DiffersAt(next, from, rest, i);
      forall k | from <= k < i ensures !DiffersAt(next, from, rest, k) {
        assert !DiffersAt(cells, at, body, k);
      }
      forall k | 0 <= k < |next| && next[k].None? ensures from <= k < i {
        assert cells[k].None?;
      }
    }
  }

  /** A fragment of a message being assembled that brings its last missing bytes and then contradicts a later one. */
  predicate Overfills(s: Store, f: Fragment, epoch: nat, protected: bool, limits: Limits)
    requires f.offset + |f.body| <= f.length
  {
    f.length <= limits.maxSize && f.sequence in s.messages &&
    var p := s.messages[f.sequence];
    p.typ == f.typ && |p.cells| == f.length && SameEpoch(p, epoch, protected)
      && FillsBeforeDiffering(p.cells, f.offset, f.body)
  }

  lemma AddToHolds(s: Store, p: Partial, f: Fragment, epoch: nat, protected: bool)
    requires f.offset + |f.body| <= f.length == |p.cells| && p.typ == f.typ && SameEpoch(p, epoch, protected)
    requires f.sequence in s.messages && s.messages[f.sequence] == p
    requires forall k :: k in s.messages && k != f.sequence ==> !Full(s.messages[k].cells)
    ensures var (cells, ok) := Fill(p.cells, f.offset, f.body);
            HoldsOnlyIncomplete(AddTo(s, p, f, epoch, protected).0) <==> ok || !Full(cells)
  {
    var (cells, ok) := Fill(p.cells, f.offset, f.body);
    var after := AddTo(s, p, f, epoch, protected).0;
    if !ok { assert f.sequence in after.messages && after.messages[f.sequence].cells == cells; }
  }

  /** No complete message is held back after a call, except exactly when the fragment overfills. */
  lemma AddHoldsOnlyIncomplete(s: Store, f: Fragment, epoch: nat, protected: bool, limits: Limits)
    requires f.offset + |f.body| <= f.length
    requires HoldsOnlyIncomplete(s)
    ensures HoldsOnlyIncomplete(Add(s, f, epoch, protected, limits).0) <==> !Overfills(s, f, epoch, protected, limits)
  {
    if f.sequence in s.messages {
      var p := s.messages[f.sequence];
      if f.length <= limits.maxSize && p.typ == f.typ && |p.cells| == f.length && SameEpoch(p, epoch, protected) {
        FullAfterFailure(p.cells, f.offset, f.body);
        AddToHolds(s, p, f, epoch, protected);
      }
    } else if f.length <= limits.maxSize {
      FullAfterFailure(Empty(f.length), f.offset, f.body);
      var p := Partial(f.typ, epoch, protected, Empty(f.length));
      AddToHolds(Store(s.messages[f.sequence := p], s.reserved + f.length), p, f, epoch, protected);
    }
  }

  /**
   * A failing call may store the last missing byte before it meets the byte that differs, and then keeps the full
   * message.
   */
  lemma FailureMayHoldFullMessage()
    ensures var p := Partial(1, 0, false, [None, Some(7)]);
            var (after, outcome) := AddTo(Store(map[0 := p], 2), p, Fragment(1, 0, 2, 0, [5, 6]), 0, false);
            outcome == Failed && after.messages[0].cells == [Some(5), Some(7)]
  {
    var cells: Cells := [None, Some(7)];
    assert cells[0 := Some(5)] == [Some(5), Some(7)];
    assert Fill(cells, 0, [5, 6]) == Fill(cells[0 := Some(5)], 1, [5, 6][1..]);
    assert [5, 6][1..] == [6];
  }

  // ---------------------------------------------------------------- assembling a message that was really sent

  /** The partial message holds bytes of `m` only. */
  ghost predicate Approximates(p: Partial, m: Message) {
    && p.typ == m.typ && |p.cells| == |m.body|
    && forall i :: 0 <= i < |p.cells| && p.cells[i].Some? ==> p.cells[i].value == m.body[i]
  }

  lemma FillApproximates(p: Partial, f: Fragment, m: Message)
    requires Approximates(p, m) && IsPartOf(f, m)
    ensures Fill(p.cells, f.offset, f.body).1
    ensures Fill(p.cells, f.offset, f.body).0 == Written(p.cells, f.offset, f.body)
    ensures Approximates(p.(cells := Fill(p.cells, f.offset, f.body).0), m)
    ensures Full(Fill(p.cells, f.offset, f.body).0) ==> BytesOf(Fill(p.cells, f.offset, f.body).0) == m.body
  {
    FillMeaning(p.cells, f.offset, f.body);
    assert Compatible(p.cells, f.offset, f.body);
    var cells := Fill(p.cells, f.offset, f.body).0;
    if Full(cells) { assert BytesOf(cells) == m.body; }
  }

  /** Parts of one message complete it only as itself, and completion is full coverage by what arrived. */
  lemma AddedPartsComplete(s: Store, f: Fragment, epoch: nat, protected: bool, limits: Limits, m: Message)
    requires IsPartOf(f, m)
    requires f.sequence in s.messages ==> Approximates(s.messages[f.sequence], m)
    ensures var (after, outcome) := Add(s, f, epoch, protected, limits);
            && (outcome.Complete? ==> outcome.body == m.body)
            && (f.sequence in after.messages ==> Approximates(after.messages[f.sequence], m))
            && (forall k :: k in after.messages && k != f.sequence ==>
                k in s.messages && after.messages[k] == s.messages[k])
            && (forall k :: k in s.messages && k != f.sequence ==> k in after.messages)
  {
    if f.sequence in s.messages {
      FillApproximates(s.messages[f.sequence], f, m);
    } else {
      FillApproximates(Partial(f.typ, epoch, protected, Empty(f.length)), f, m);
    }
  }

  // ---------------------------------------------------------------- what a call does, exactly

  /** What was known of the fragment's message before: nothing, when it is new. */
  function KnownCells(s: Store, f: Fragment): Cells {
    if f.sequence in s.messages then s.messages[f.sequence].cells else Empty(f.length)
  }

  /** The fragment is refused before any byte is stored. */
  predicate Unacceptable(s: Store, f: Fragment, epoch: nat, protected: bool, limits: Limits) {
    || f.length > limits.maxSize
    || (if f.sequence in s.messages
        then
          var p := s.messages[f.sequence];
          p.typ != f.typ || |p.cells| != f.length || p.hasEpoch != protected || (protected && p.epoch != epoch)
        else |s.messages| >= limits.maxMessages || s.reserved + f.length > limits.maxBytes)
  }

  /** Byte `i` of the message is known once the fragment has been added. */
  predicate KnownAfter(cells: Cells, f: Fragment, i: nat)
    requires i < |cells|
  {
    cells[i].Some? || f.offset <= i < f.offset + |f.body|
  }

  /** The body has exactly the bytes in the cells, and every cell has one. */
  predicate Spells(body: Bytes, cells: Cells) {
    |body| == |cells| && forall i :: 0 <= i < |cells| ==> cells[i] == Some(body[i])
  }

  lemma AddToRefuses(s: Store, p: Partial, f: Fragment, epoch: nat, protected: bool)
    requires f.offset + |f.body| <= f.length
    requires p.typ != f.typ || |p.cells| != f.length || p.hasEpoch != protected || (protected && p.epoch != epoch)
    ensures AddTo(s, p, f, epoch, protected) == (s, Failed)
  {}

  lemma AddToOutcome(s: Store, p: Partial, f: Fragment, epoch: nat, protected: bool)
    requires f.offset + |f.body| <= f.length == |p.cells| && p.typ == f.typ && SameEpoch(p, epoch, protected)
    ensures var (after, outcome) := AddTo(s, p, f, epoch, protected);
            && (outcome == Failed <==> !Compatible(p.cells, f.offset, f.body))
            && (outcome.Complete? <==>
                  Compatible(p.cells, f.offset, f.body) && forall i :: 0 <= i < |p.cells| ==> KnownAfter(p.cells, f, i))
            && (outcome == Incomplete ==>
                  && f.sequence in after.messages
                  && after.messages[f.sequence] == p.(cells := Written(p.cells, f.offset, f.body)))
            && (outcome.Complete?
                ==> f.sequence !in after.messages && Spells(outcome.body, Written(p.cells, f.offset, f.body)))
  {
    FillMeaning(p.cells, f.offset, f.body);
    var written := Written(p.cells, f.offset, f.body);
    assert forall i :: 0 <= i < |written| ==> (written[i].Some? <==> KnownAfter(p.cells, f, i));
  }

  /**
   * A call fails exactly when the fragment is unacceptable or contradicts a byte that is known, and completes the
   * message exactly when it then knows every byte. An incomplete message keeps its type and protection, and has the
   * new bytes.
   */
  lemma AddExactly(s: Store, f: Fragment, epoch: nat, protected: bool, limits: Limits)
    requires f.offset + |f.body| <= f.length
    ensures var (after, outcome) := Add(s, f, epoch, protected, limits);
            var cells := KnownCells(s, f);
            && (outcome == Failed <==>
                  Unacceptable(s, f, epoch, protected, limits) || !Compatible(cells, f.offset, f.body))
            && (outcome.Complete? ==> |cells| == f.length && forall i :: 0 <= i < f.length ==> KnownAfter(cells, f, i))
            && (outcome == Incomplete
                ==> |cells| == f.length && exists i :: 0 <= i < f.length && !KnownAfter(cells, f, i))
            && (outcome == Incomplete ==>
                  && f.sequence in after.messages
                  && after.messages[f.sequence].cells == Written(cells, f.offset, f.body)
                  && after.messages[f.sequence].typ == f.typ && after.messages[f.sequence].hasEpoch == protected
                  && (protected ==> after.messages[f.sequence].epoch == epoch))
            && (outcome.Complete? ==>
                  f.sequence !in after.messages && Spells(outcome.body, Written(cells, f.offset, f.body)))
  {
    hide AddTo;
    if !Unacceptable(s, f, epoch, protected, limits) {
      if f.sequence in s.messages {
        AddToOutcome(s, s.messages[f.sequence], f, epoch, protected);
      } else if !(f.offset == 0 && |f.body| == f.length) {
        var p := Partial(f.typ, epoch, protected, Empty(f.length));
        AddToOutcome(Store(s.messages[f.sequence := p], s.reserved + f.length), p, f, epoch, protected);
      }
    } else if f.sequence in s.messages && f.length <= limits.maxSize {
      AddToRefuses(s, s.messages[f.sequence], f, epoch, protected);
    }
  }
}
