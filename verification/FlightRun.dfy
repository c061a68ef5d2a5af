/** Flight completion over every run of acknowledgements, retransmissions and refragmentations of a combined flight. */
module FlightRun {
  import opened Wire
  import opened RecordNumbers
  import opened Fragments
  import opened Flights

  /** One part of a flight: its messages, its records, and the next free number of its epoch. */
  datatype Part = Part(epoch: nat, messages: seq<Message>, records: seq<FlightRecord>, next: nat)

  /**
   * The largest fragment body that fits a record: `overhead` bytes around the fragment, at most `maxContent` inside.
   */
  function MaxFragment(mtu: nat, overhead: nat, maxContent: nat): int {
    var fits := mtu - overhead - HEADER_LENGTH;
    if fits > maxContent - HEADER_LENGTH then maxContent - HEADER_LENGTH else fits
  }

  /** The check that a built record exceeds the MTU can never fire, and no record exceeds the content limit. */
  lemma RecordsFit(mtu: nat, overhead: nat, maxContent: nat, messages: seq<Message>, f: Fragment)
    requires MaxFragment(mtu, overhead, maxContent) >= 1
    requires f in AllFragments(messages, MaxFragment(mtu, overhead, maxContent))
    ensures overhead + HEADER_LENGTH + |f.body| <= mtu && HEADER_LENGTH + |f.body| <= maxContent
  {
    var m := FragmentOwner(messages, MaxFragment(mtu, overhead, maxContent), f);
  }

  lemma {:induction false} FragmentOwner(messages: seq<Message>, maxFragment: nat, f: Fragment) returns (k: nat)
    requires maxFragment > 0 && f in AllFragments(messages, maxFragment)
    ensures k < |messages| && f in FragmentsOf(messages[k], maxFragment) && IsPartOf(f, messages[k])
            && |f.body| <= maxFragment
  {
    var last := |messages| - 1;
    if f in FragmentsOf(messages[last], maxFragment) {
      k := last;
      CutsAddUp(messages[last], 0, maxFragment);
    } else {
      k := FragmentOwner(messages[..last], maxFragment, f);
    }
  }

  /** The two parts a server sends as one flight; a simple flight has an empty other part. All numbers issued, with
      the fragment they carried, and those the peer received. */
  datatype World = World(plain: Part, protected: Part, issued: map<RecordNumber, Fragment>, received: set<RecordNumber>)

  datatype Step =
    | ReceiveRecord(number: RecordNumber)      // the peer receives a transmission, perhaps again
    | ReceiveACK(numbers: seq<RecordNumber>)   // an ACK naming received records arrives
    | RefreshFlight
    | ResizeFlight(plainMax: nat, protectedMax: nat)
    | SendFlight
    | SealOther(count: nat)                    // the same cipher seals other records in between

  /** The records of the combined flight: the first part's, then the second's. */
  function Combined(w: World): seq<FlightRecord> {
    w.plain.records + w.protected.records
  }

  function Current(records: seq<FlightRecord>): map<RecordNumber, Fragment> {
    if records == [] then map[]
    else Current(records[..|records| - 1])[records[|records| - 1].number := records[|records| - 1].fragment]
  }

  function RefreshPart(p: Part): Part {
    var (records, next) := Refresh(p.records, p.epoch, p.next);
    p.(records := records, next := next)
  }

  /** The plaintext part recovers its next number from its records; the protected part asks its cipher. */
  function ResizePart(p: Part, maxFragment: nat): Part
    requires maxFragment > 0
  {
    var first := if p.epoch == 0 then NextRecordSequence(p.records) else p.next;
    var records := Build(p.messages, maxFragment, p.epoch, first);
    p.(records := records, next := first + |records|)
  }

  /** State set on the combined flight is copied into each part before the parts are rebuilt. */
  function Carry(w: World, records: seq<FlightRecord>): World
    requires |records| == |w.plain.records| + |w.protected.records|
  {
    w.(plain := w.plain.(records := records[..|w.plain.records|]),
       protected := w.protected.(records := records[|w.plain.records|..]))
  }

  function Reassign(w: World, plain: Part, protected: Part): World {
    World(plain, protected, w.issued + Current(plain.records) + Current(protected.records), w.received)
  }

  ghost function Next(w: World, step: Step): World {
    match step
    case ReceiveRecord(number) => if number in w.issued then w.(received := w.received + {number}) else w
    case ReceiveACK(numbers) =>
      if exists n :: n in numbers && n in w.issued && n !in w.received then w else Carry(w, Ack(Combined(w), numbers))
    case RefreshFlight => Reassign(w, RefreshPart(w.plain), RefreshPart(w.protected))
    case ResizeFlight(plainMax, protectedMax) =>
      if plainMax < 1 || protectedMax < 1 then w
      else Reassign(w, ResizePart(w.plain, plainMax), ResizePart(w.protected, protectedMax))
    case SendFlight => Carry(w, SendNext(Combined(w)))
    case SealOther(count) => w.(protected := w.protected.(next := w.protected.next + count))
  }

  function Start(plainMessages: seq<Message>, plainMax: nat, plainFirst: nat,
                 protectedMessages: seq<Message>, protectedMax: nat, epoch: nat, protectedFirst: nat): World
    requires plainMax > 0 && protectedMax > 0
  {
    var a := Build(plainMessages, plainMax, 0, plainFirst);
    var b := Build(protectedMessages, protectedMax, epoch, protectedFirst);
    World(Part(0, plainMessages, a, plainFirst + |a|), Part(epoch, protectedMessages, b, protectedFirst + |b|),
          Current(a) + Current(b), {})
  }

  ghost function Run(w: World, steps: seq<Step>): World {
    if steps == [] then w else Next(Run(w, steps[..|steps| - 1]), steps[|steps| - 1])
  }

  // ---------------------------------------------------------------- the invariant

  /** A record's numbers were all issued for its own fragment, below the part's counter; an acknowledged record has one
      that the peer received. */
  ghost predicate RecordGood(r: FlightRecord, p: Part, issued: map<RecordNumber, Fragment>,
                             received: set<RecordNumber>) {
    && (forall n :: HasNumber(r, n) ==>
        n.epoch == p.epoch && n.sequence < p.next && n in issued && issued[n] == r.fragment)
    && (r.acked ==> exists n :: HasNumber(r, n) && n in received)
  }

  ghost predicate RecordsGood(p: Part, issued: map<RecordNumber, Fragment>, received: set<RecordNumber>) {
    forall i :: 0 <= i < |p.records| ==> RecordGood(p.records[i], p, issued, received)
  }

  /** No number belongs to two records. */
  ghost predicate Disjoint(records: seq<FlightRecord>) {
    forall i, j, n :: 0 <= i < j < |records| && HasNumber(records[i], n) ==> !HasNumber(records[j], n)
  }

  /** The records carry one complete fragmentation of the messages. */
  ghost predicate WholeFragmentation(p: Part) {
    exists maxFragment: nat :: maxFragment > 0 && Carries(p.records, AllFragments(p.messages, maxFragment))
  }

  ghost predicate Carries(records: seq<FlightRecord>, fragments: seq<Fragment>) {
    |records| == |fragments| && forall i :: 0 <= i < |records| ==> records[i].fragment == fragments[i]
  }

  ghost predicate BelowCounter(p: Part, issued: map<RecordNumber, Fragment>) {
    forall n :: n in issued && n.epoch == p.epoch ==> n.sequence < p.next
  }

  /** The largest plaintext number ever issued is still some record's current number. */
  ghost predicate TopIsCurrent(p: Part) {
    p.epoch == 0 && p.records != [] ==> NextRecordSequence(p.records) == p.next
  }

  ghost predicate PartGood(p: Part, issued: map<RecordNumber, Fragment>, received: set<RecordNumber>) {
    RecordsGood(p, issued, received) && Disjoint(p.records) && WholeFragmentation(p) && BelowCounter(p, issued)
      && TopIsCurrent(p)
  }

  ghost predicate Inv(w: World) {
    && w.plain.epoch == 0 && w.protected.epoch > 0
    && PartGood(w.plain, w.issued, w.received) && PartGood(w.protected, w.issued, w.received)
    && (forall n :: n in w.issued ==> n.epoch == 0 || n.epoch == w.protected.epoch)
    && (w.plain.records == [] ==> forall n :: n in w.issued ==> n.epoch != 0)
  }

  // ---------------------------------------------------------------- refreshing

  function Pending(records: seq<FlightRecord>): nat {
    if records == [] then 0 else Pending(records[..|records| - 1]) + (if records[|records| - 1].acked then 0 else 1)
  }

  lemma {:induction false} PendingGrows(records: seq<FlightRecord>, i: nat, j: nat)
    requires i < j <= |records|
    ensures Pending(records[..i]) <= Pending(records[..j])
    ensures !records[i].acked ==> Pending(records[..i]) < Pending(records[..j])
  {
    assert records[..j][..j - 1] == records[..j - 1];
    if i < j - 1 { PendingGrows(records, i, j - 1); }
  }

  function Refreshed(records: seq<FlightRecord>, epoch: nat, next: nat, i: nat): FlightRecord
    requires i < |records|
  {
    if records[i].acked then records[i]
      else ReplaceNumber(records[i], RecordNumber(epoch, next + Pending(records[..i])))
  }

  /** What refreshing does to each record. */
  lemma {:induction false} RefreshForm(records: seq<FlightRecord>, epoch: nat, next: nat)
    ensures Refresh(records, epoch, next).1 == next + Pending(records)
    ensures forall i :: 0 <= i < |records| ==> Refresh(records, epoch, next).0[i] == Refreshed(records, epoch, next, i)
  {
    if records != [] {
      var last := |records| - 1;
      RefreshForm(records[..last], epoch, next);
      forall i | 0 <= i < |records| ensures Refresh(records, epoch, next).0[i] == Refreshed(records, epoch, next, i) {
        if i < last { assert records[..last][..i] == records[..i]; }
      }
    }
  }

  lemma {:induction false} CurrentMeaning(records: seq<FlightRecord>)
    ensures forall n :: n in Current(records) ==>
            exists i :: 0 <= i < |records| && records[i].number == n && records[i].fragment == Current(records)[n]
    ensures forall i :: 0 <= i < |records| ==> records[i].number in Current(records)
  {
    if records != [] {
      var last := |records| - 1;
      CurrentMeaning(records[..last]);
      forall n | n in Current(records)
        ensures exists i :: 0 <= i < |records| && records[i].number == n && records[i].fragment == Current(records)[n] {
        if n == records[last].number {
        } else {
          var i :| 0 <= i < last && records[..last][i].number == n
            && records[..last][i].fragment == Current(records[..last])[n];
          assert records[i].number == n;
        }
      }
    }
  }

  lemma CurrentOf(records: seq<FlightRecord>, i: nat)
    requires Disjoint(records) && i < |records|
    ensures records[i].number in Current(records) && Current(records)[records[i].number] == records[i].fragment
  {
    CurrentMeaning(records);
    var n := records[i].number;
    var j :| 0 <= j < |records| && records[j].number == n && records[j].fragment == Current(records)[n];
    assert HasNumber(records[i], n) && HasNumber(records[j], n);
  }

  lemma RefreshDisjoint(p: Part, issued: map<RecordNumber, Fragment>, received: set<RecordNumber>)
    requires RecordsGood(p, issued, received) && Disjoint(p.records)
    ensures Disjoint(RefreshPart(p).records)
  {
    var after := RefreshPart(p).records;
    RefreshForm(p.records, p.epoch, p.next);
    forall i, j, n | 0 <= i < j < |after| && HasNumber(after[i], n) ensures !HasNumber(after[j], n) {
      PendingGrows(p.records, i, j);
      assert HasNumber(p.records[i], n) ==> n.sequence < p.next && !HasNumber(p.records[j], n);
      assert HasNumber(p.records[j], n) ==> n.sequence < p.next;
      if !p.records[i].acked {
        ReplaceKeepsNumbers(p.records[i], RecordNumber(p.epoch, p.next + Pending(p.records[..i])), n);
      }
      if !p.records[j].acked {
        ReplaceKeepsNumbers(p.records[j], RecordNumber(p.epoch, p.next + Pending(p.records[..j])), n);
      }
    }
  }

  /**
   * A part is renumbered: its epoch and messages stay, and a current number that was issued before was issued for the
   * same fragment.
   */
  ghost predicate Renumbers(p: Part, p': Part, issued: map<RecordNumber, Fragment>) {
    && p'.epoch == p.epoch && p'.messages == p.messages && p.next <= p'.next && Disjoint(p'.records)
    && forall i :: 0 <= i < |p'.records| ==>
         var r := p'.records[i];
         r.number.epoch == p.epoch && r.number.sequence < p'.next
           && (r.number in issued ==> issued[r.number] == r.fragment)
  }

  lemma IssuedExtends(issued: map<RecordNumber, Fragment>, p: Part, p': Part, n: RecordNumber)
    requires Renumbers(p, p', issued)
    ensures n in issued ==> n in issued + Current(p'.records) && (issued + Current(p'.records))[n] == issued[n]
    ensures n in issued + Current(p'.records) ==> n in issued || (n.epoch == p.epoch && n.sequence < p'.next)
    ensures n.epoch != p.epoch ==> (n in issued + Current(p'.records) <==> n in issued)
  {
    CurrentMeaning(p'.records);
    if n in Current(p'.records) {
      var i :| 0 <= i < |p'.records| && p'.records[i].number == n && p'.records[i].fragment == Current(p'.records)[n];
    }
  }

  lemma IssuedCurrent(issued: map<RecordNumber, Fragment>, p: Part, p': Part, i: nat)
    requires Renumbers(p, p', issued) && i < |p'.records|
    ensures p'.records[i].number in issued + Current(p'.records)
    ensures (issued + Current(p'.records))[p'.records[i].number] == p'.records[i].fragment
  {
    CurrentOf(p'.records, i);
  }

  /**
   * A record is good if its numbers are its own current one, now issued, and numbers of a good record of the same
   * fragment.
   */
  ghost predicate Descends(r': FlightRecord, r: FlightRecord) {
    && r'.fragment == r.fragment && r'.acked == r.acked
    && (forall n :: HasNumber(r', n) ==> HasNumber(r, n) || n == r'.number)
    && (forall n :: HasNumber(r, n) ==> HasNumber(r', n))
  }

  lemma DescendantGood(r: FlightRecord, r': FlightRecord, p: Part, p': Part,
                       issued: map<RecordNumber, Fragment>, issued': map<RecordNumber, Fragment>,
                       received: set<RecordNumber>)
    requires RecordGood(r, p, issued, received) && Descends(r', r) && p'.epoch == p.epoch && p.next <= p'.next
    requires forall n :: n in issued ==> n in issued' && issued'[n] == issued[n]
    requires r'.number.epoch == p.epoch && r'.number.sequence < p'.next
    requires r'.number in issued' && issued'[r'.number] == r'.fragment
    ensures RecordGood(r', p', issued', received)
  {
    if r'.acked {
      var n :| HasNumber(r, n) && n in received;
      assert HasNumber(r', n);
    }
  }

  lemma RefreshRenumbers(p: Part, issued: map<RecordNumber, Fragment>, received: set<RecordNumber>)
    requires PartGood(p, issued, received)
    ensures Renumbers(p, RefreshPart(p), issued)
    ensures forall i :: 0 <= i < |p.records| ==> Descends(RefreshPart(p).records[i], p.records[i])
  {
    RefreshDisjoint(p, issued, received);
    RefreshForm(p.records, p.epoch, p.next);
    var p' := RefreshPart(p);
    forall i | 0 <= i < |p.records|
      ensures Descends(p'.records[i], p.records[i])
      ensures p'.records[i].number.epoch == p.epoch && p'.records[i].number.sequence < p'.next
      ensures p'.records[i].number in issued ==> issued[p'.records[i].number] == p'.records[i].fragment
    {
      assert HasNumber(p.records[i], p.records[i].number);
      assert p.records[..|p.records|] == p.records;
      PendingGrows(p.records, i, |p.records|);
    }
  }

  lemma {:induction false} NextSequenceBound(records: seq<FlightRecord>, bound: nat)
    requires forall i :: 0 <= i < |records| ==> records[i].number.epoch == 0 && records[i].number.sequence < bound
    ensures NextRecordSequence(records) <= bound
    ensures (exists i :: 0 <= i < |records| && records[i].number.sequence == bound - 1)
            ==> NextRecordSequence(records) == bound
  {
    if records != [] {
      var last := |records| - 1;
      NextSequenceBound(records[..last], bound);
      if i :| 0 <= i < |records| && records[i].number.sequence == bound - 1 {
        if i < last { assert records[..last][i].number.sequence == bound - 1; }
      }
    }
  }

  lemma RefreshTop(p: Part, issued: map<RecordNumber, Fragment>, received: set<RecordNumber>)
    requires PartGood(p, issued, received)
    ensures TopIsCurrent(RefreshPart(p))
  {
    var p' := RefreshPart(p);
    if p.epoch == 0 && p.records != [] {
      RefreshRenumbers(p, issued, received);
      RefreshForm(p.records, p.epoch, p.next);
      if Pending(p.records) == 0 {
        NonePending(p.records);
        assert p'.records == p.records;
      } else {
        var i := LastPending(p.records);
        assert p'.records[i].number.sequence == p'.next - 1;
        NextSequenceBound(p'.records, p'.next);
      }
    }
  }

  lemma {:induction false} NonePending(records: seq<FlightRecord>)
    requires Pending(records) == 0
    ensures forall i :: 0 <= i < |records| ==> records[i].acked
  {
    if records != [] { NonePending(records[..|records| - 1]); }
  }

  lemma {:induction false} LastPending(records: seq<FlightRecord>) returns (i: nat)
    requires Pending(records) > 0
    ensures i < |records| && !records[i].acked && Pending(records[..i]) == Pending(records) - 1
  {
    var last := |records| - 1;
    if !records[last].acked {
      i := last;
    } else {
      i := LastPending(records[..last]);
      assert records[..last][..i] == records[..i];
    }
  }

  lemma SameFragments(p: Part, p': Part)
    requires WholeFragmentation(p) && p'.messages == p.messages && |p'.records| == |p.records|
    requires forall i :: 0 <= i < |p.records| ==> p'.records[i].fragment == p.records[i].fragment
    ensures WholeFragmentation(p')
  {
    var maxFragment: nat :| maxFragment > 0 && Carries(p.records, AllFragments(p.messages, maxFragment));
    assert Carries(p'.records, AllFragments(p'.messages, maxFragment));
  }

  lemma RefreshPartGood(p: Part, issued: map<RecordNumber, Fragment>, received: set<RecordNumber>)
    requires PartGood(p, issued, received)
    ensures PartGood(RefreshPart(p), issued + Current(RefreshPart(p).records), received)
  {
    var p' := RefreshPart(p);
    var issued' := issued + Current(p'.records);
    RefreshRenumbers(p, issued, received);
    forall n | n in issued' ensures n in issued ==> issued'[n] == issued[n] { IssuedExtends(issued, p, p', n); }
    forall i | 0 <= i < |p'.records| ensures RecordGood(p'.records[i], p', issued', received) {
      IssuedCurrent(issued, p, p', i);
      DescendantGood(p.records[i], p'.records[i], p, p', issued, issued', received);
    }
    forall n | n in issued' && n.epoch == p'.epoch ensures n.sequence < p'.next { IssuedExtends(issued, p, p', n); }
    SameFragments(p, p');
    RefreshTop(p, issued, received);
  }

  // ---------------------------------------------------------------- refragmenting

  lemma NewHasOneNumber(number: RecordNumber, fragment: Fragment, n: RecordNumber)
    ensures HasNumber(NewRecord(number, fragment), n) <==> n == number
  {}

  lemma NumberedRecords(fragments: seq<Fragment>, epoch: nat, first: nat)
    ensures var records := Number(fragments, epoch, first);
            && Disjoint(records) && Carries(records, fragments)
            && forall i, n :: 0 <= i < |records| && HasNumber(records[i], n) ==> n == RecordNumber(epoch, first + i)
  {
    var records := Number(fragments, epoch, first);
    forall i, n | 0 <= i < |records| && HasNumber(records[i], n) ensures n == RecordNumber(epoch, first + i) {
      NewHasOneNumber(RecordNumber(epoch, first + i), fragments[i], n);
    }
  }

  lemma BuiltRecords(p: Part, maxFragment: nat, first: nat)
    requires maxFragment > 0
    ensures var records := Build(p.messages, maxFragment, p.epoch, first);
            && Disjoint(records) && Carries(records, AllFragments(p.messages, maxFragment))
            && forall i, n :: 0 <= i < |records| && HasNumber(records[i], n) ==> n == RecordNumber(p.epoch, first + i)
  {
    NumberedRecords(AllFragments(p.messages, maxFragment), p.epoch, first);
  }

  lemma {:induction false} EmptyFlight(messages: seq<Message>, maxFragment: nat)
    requires maxFragment > 0
    ensures AllFragments(messages, maxFragment) == [] <==> messages == []
  {
    if messages != [] {
      var m := messages[|messages| - 1];
      CutsAddUp(m, 0, maxFragment);
      if m.body != [] { EveryByteIsCarried(m, 0, maxFragment, 0); }
    }
  }

  lemma ResizeStartsFresh(p: Part, issued: map<RecordNumber, Fragment>, received: set<RecordNumber>, maxFragment: nat)
    requires PartGood(p, issued, received) && maxFragment > 0
    ensures p.epoch == 0 && p.records == [] ==> ResizePart(p, maxFragment).records == []
    ensures p.epoch != 0 || p.records != [] ==>
              ResizePart(p, maxFragment).records == Build(p.messages, maxFragment, p.epoch, p.next)
              && ResizePart(p, maxFragment).next == p.next + |ResizePart(p, maxFragment).records|
  {
    if p.epoch == 0 && p.records == [] {
      var m: nat :| m > 0 && Carries(p.records, AllFragments(p.messages, m));
      EmptyFlight(p.messages, m);
      EmptyFlight(p.messages, maxFragment);
    }
  }

  lemma BuildTop(p: Part, maxFragment: nat, first: nat)
    requires maxFragment > 0 && p.epoch == 0
    ensures var records := Build(p.messages, maxFragment, 0, first);
            records != [] ==> NextRecordSequence(records) == first + |records|
  {
    var records := Build(p.messages, maxFragment, 0, first);
    if records != [] {
      assert records[|records| - 1].number.sequence == first + |records| - 1;
      NextSequenceBound(records, first + |records|);
    }
  }

  function Recut(p: Part, maxFragment: nat): Part
    requires maxFragment > 0
  {
    var records := Build(p.messages, maxFragment, p.epoch, p.next);
    p.(records := records, next := p.next + |records|)
  }

  /** Every number of a recut part is fresh. */
  lemma RecutIsFresh(p: Part, issued: map<RecordNumber, Fragment>, maxFragment: nat)
    requires BelowCounter(p, issued) && maxFragment > 0
    ensures Renumbers(p, Recut(p, maxFragment), issued)
    ensures forall i, n ::
              0 <= i < |Recut(p, maxFragment).records| && HasNumber(Recut(p, maxFragment).records[i], n) ==>
                n !in issued && n == Recut(p, maxFragment).records[i].number
  {
    BuiltRecords(p, maxFragment, p.next);
    var records := Recut(p, maxFragment).records;
    assert forall i :: 0 <= i < |records| ==> HasNumber(records[i], records[i].number);
  }

  lemma RecutRecords(p: Part, issued: map<RecordNumber, Fragment>, received: set<RecordNumber>, maxFragment: nat)
    requires BelowCounter(p, issued) && maxFragment > 0
    ensures var p' := Recut(p, maxFragment); RecordsGood(p', issued + Current(p'.records), received)
  {
    hide AllFragments, BelowCounter, Current;
    var p' := Recut(p, maxFragment);
    RecutIsFresh(p, issued, maxFragment);
    forall i | 0 <= i < |p'.records| ensures RecordGood(p'.records[i], p', issued + Current(p'.records), received) {
      IssuedCurrent(issued, p, p', i);
    }
  }

  lemma RecutBelow(p: Part, issued: map<RecordNumber, Fragment>, maxFragment: nat)
    requires BelowCounter(p, issued) && maxFragment > 0
    ensures var p' := Recut(p, maxFragment); BelowCounter(p', issued + Current(p'.records))
  {
    var p' := Recut(p, maxFragment);
    RecutIsFresh(p, issued, maxFragment);
    forall n | n in issued + Current(p'.records) && n.epoch == p'.epoch ensures n.sequence < p'.next {
      IssuedExtends(issued, p, p', n);
    }
  }

  lemma RecutGood(p: Part, issued: map<RecordNumber, Fragment>, received: set<RecordNumber>, maxFragment: nat)
    requires BelowCounter(p, issued) && maxFragment > 0
    ensures PartGood(Recut(p, maxFragment), issued + Current(Recut(p, maxFragment).records), received)
  {
    RecutRecords(p, issued, received, maxFragment);
    RecutBelow(p, issued, maxFragment);
    BuiltRecords(p, maxFragment, p.next);
    var p' := Recut(p, maxFragment);
    assert Carries(p'.records, AllFragments(p'.messages, maxFragment));
    if p.epoch == 0 { BuildTop(p, maxFragment, p.next); }
  }

  /** Recutting starts at the first number never used, so the new records own only fresh numbers. */
  lemma ResizePartGood(p: Part, issued: map<RecordNumber, Fragment>, received: set<RecordNumber>, maxFragment: nat)
    requires PartGood(p, issued, received) && maxFragment > 0
    requires p.epoch == 0 && p.records == [] ==> forall n :: n in issued ==> n.epoch != 0
    ensures PartGood(ResizePart(p, maxFragment), issued + Current(ResizePart(p, maxFragment).records), received)
    ensures forall i, n ::
              0 <= i < |ResizePart(p, maxFragment).records| && HasNumber(ResizePart(p, maxFragment).records[i], n) ==>
                n !in issued
  {
    var p' := ResizePart(p, maxFragment);
    ResizeStartsFresh(p, issued, received, maxFragment);
    if p.epoch == 0 && p.records == [] {
      assert issued + Current(p'.records) == issued;
      assert Carries(p'.records, AllFragments(p'.messages, maxFragment));
    } else {
      assert p' == Recut(p, maxFragment);
      RecutGood(p, issued, received, maxFragment);
      RecutIsFresh(p, issued, maxFragment);
    }
  }

  // ---------------------------------------------------------------- the other steps

  /** A part is unaffected by numbers of other epochs and by further receptions. */
  lemma PartFrame(p: Part, issued: map<RecordNumber, Fragment>, received: set<RecordNumber>,
                  issued': map<RecordNumber, Fragment>, received': set<RecordNumber>)
    requires PartGood(p, issued, received) && received <= received'
    requires forall n: RecordNumber :: n.epoch == p.epoch ==>
             (n in issued <==> n in issued') && (n in issued ==> issued'[n] == issued[n])
    ensures PartGood(p, issued', received')
  {
    forall i | 0 <= i < |p.records| ensures RecordGood(p.records[i], p, issued', received') {
      assert RecordGood(p.records[i], p, issued, received);
    }
  }

  lemma {:induction false} SameNextSequence(a: seq<FlightRecord>, b: seq<FlightRecord>)
    requires |a| == |b| && forall i :: 0 <= i < |a| ==> a[i].number == b[i].number
    ensures NextRecordSequence(a) == NextRecordSequence(b)
  {
    if a != [] { SameNextSequence(a[..|a| - 1], b[..|b| - 1]); }
  }

  lemma CurrentEpoch(p: Part, issued: map<RecordNumber, Fragment>, received: set<RecordNumber>, n: RecordNumber)
    requires RecordsGood(p, issued, received) && n in Current(p.records)
    ensures n.epoch == p.epoch
  {
    CurrentMeaning(p.records);
    var i :| 0 <= i < |p.records| && p.records[i].number == n;
    assert RecordGood(p.records[i], p, issued, received) && HasNumber(p.records[i], n);
  }

  /** Parts renumbered independently stay good together, because their epochs differ. */
  lemma ReassignGood(w: World, plain: Part, protected: Part)
    requires Inv(w) && plain.epoch == 0 && protected.epoch == w.protected.epoch
    requires PartGood(plain, w.issued + Current(plain.records), w.received)
    requires PartGood(protected, w.issued + Current(protected.records), w.received)
    requires plain.records == [] ==> w.plain.records == []
    ensures Inv(Reassign(w, plain, protected))
  {
    var a, b := Current(plain.records), Current(protected.records);
    var issued := w.issued + a + b;
    forall n | n in a ensures n.epoch == 0 { CurrentEpoch(plain, w.issued + a, w.received, n); }
    forall n | n in b ensures n.epoch == protected.epoch { CurrentEpoch(protected, w.issued + b, w.received, n); }
    PartFrame(plain, w.issued + a, w.received, issued, w.received);
    PartFrame(protected, w.issued + b, w.received, issued, w.received);
  }

  lemma SameEmptiness(p: Part, p': Part, issued: map<RecordNumber, Fragment>, received: set<RecordNumber>,
                      issued': map<RecordNumber, Fragment>)
    requires PartGood(p, issued, received) && PartGood(p', issued', received) && p'.messages == p.messages
    ensures p.records == [] <==> p'.records == []
  {
    var a: nat :| a > 0 && Carries(p.records, AllFragments(p.messages, a));
    var b: nat :| b > 0 && Carries(p'.records, AllFragments(p'.messages, b));
    EmptyFlight(p.messages, a);
    EmptyFlight(p.messages, b);
  }

  lemma RefreshKeeps(w: World)
    requires Inv(w)
    ensures Inv(Next(w, RefreshFlight))
  {
    RefreshPartGood(w.plain, w.issued, w.received);
    RefreshPartGood(w.protected, w.issued, w.received);
    ReassignGood(w, RefreshPart(w.plain), RefreshPart(w.protected));
  }

  lemma ResizeKeeps(w: World, plainMax: nat, protectedMax: nat)
    requires Inv(w) && plainMax > 0 && protectedMax > 0
    ensures Inv(Next(w, ResizeFlight(plainMax, protectedMax)))
  {
    hide RecordsGood, WholeFragmentation;
    ResizePartGood(w.plain, w.issued, w.received, plainMax);
    ResizePartGood(w.protected, w.issued, w.received, protectedMax);
    var plain := ResizePart(w.plain, plainMax);
    SameEmptiness(w.plain, plain, w.issued, w.received, w.issued + Current(plain.records));
    ReassignGood(w, plain, ResizePart(w.protected, protectedMax));
  }

  /** `records` differs from the combined flight in flags only, and new acknowledgements are for received numbers. */
  ghost predicate OnlyFlags(w: World, records: seq<FlightRecord>) {
    && |records| == |Combined(w)|
    && forall i :: 0 <= i < |records| ==> FlagsFor(w, Combined(w)[i], records[i])
  }

  ghost predicate FlagsFor(w: World, r: FlightRecord, r': FlightRecord) {
    && r' == r.(acked := r'.acked, sent := r'.sent)
    && (r'.acked && !r.acked ==> exists n :: HasNumber(r, n) && n in w.received)
  }

  lemma FlagsKeepPart(p: Part, p': Part, w: World)
    requires PartGood(p, w.issued, w.received) && p' == p.(records := p'.records) && |p'.records| == |p.records|
    requires forall i :: 0 <= i < |p.records| ==> FlagsFor(w, p.records[i], p'.records[i])
    ensures PartGood(p', w.issued, w.received)
  {
    forall i, n | 0 <= i < |p.records| ensures HasNumber(p'.records[i], n) <==> HasNumber(p.records[i], n) {
      assert FlagsFor(w, p.records[i], p'.records[i]);
    }
    forall i | 0 <= i < |p'.records| ensures RecordGood(p'.records[i], p', w.issued, w.received) {
      assert RecordGood(p.records[i], p, w.issued, w.received) && FlagsFor(w, p.records[i], p'.records[i]);
      if p'.records[i].acked {
        var n :| HasNumber(p.records[i], n) && n in w.received;
        assert HasNumber(p'.records[i], n);
      }
    }
    SameFragments(p, p');
    SameNextSequence(p.records, p'.records);
  }

  lemma FlagsKeep(w: World, records: seq<FlightRecord>)
    requires Inv(w) && OnlyFlags(w, records)
    ensures Inv(Carry(w, records))
  {
    var k, w' := |w.plain.records|, Carry(w, records);
    forall i | 0 <= i < k ensures FlagsFor(w, w.plain.records[i], w'.plain.records[i]) {
      assert FlagsFor(w, Combined(w)[i], records[i]);
    }
    forall i | 0 <= i < |w.protected.records| ensures FlagsFor(w, w.protected.records[i], w'.protected.records[i]) {
      assert FlagsFor(w, Combined(w)[k + i], records[k + i]);
    }
    FlagsKeepPart(w.plain, w'.plain, w);
    FlagsKeepPart(w.protected, w'.protected, w);
  }

  lemma RecordNumbersIssued(w: World, i: nat, n: RecordNumber)
    requires Inv(w) && i < |Combined(w)| && HasNumber(Combined(w)[i], n)
    ensures n in w.issued && w.issued[n] == Combined(w)[i].fragment
  {
    if i < |w.plain.records| {
      assert RecordGood(w.plain.records[i], w.plain, w.issued, w.received);
    } else {
      assert RecordGood(w.protected.records[i - |w.plain.records|], w.protected, w.issued, w.received);
    }
  }

  lemma AckKeeps(w: World, numbers: seq<RecordNumber>)
    requires Inv(w)
    ensures Inv(Next(w, ReceiveACK(numbers)))
  {
    if !exists n :: n in numbers && n in w.issued && n !in w.received {
      var records := Ack(Combined(w), numbers);
      forall i | 0 <= i < |records| ensures FlagsFor(w, Combined(w)[i], records[i]) {
        if records[i].acked && !Combined(w)[i].acked {
          var n :| n in numbers && HasNumber(Combined(w)[i], n);
          RecordNumbersIssued(w, i, n);
        }
      }
      FlagsKeep(w, records);
    }
  }

  lemma SendKeeps(w: World)
    requires Inv(w)
    ensures Inv(Next(w, SendFlight))
  {
    var all := Combined(w);
    SendUnsentCounts(all, Capacity(all));
    forall i | 0 <= i < |all| ensures FlagsFor(w, all[i], SendNext(all)[i]) {}
    FlagsKeep(w, SendNext(all));
  }

  lemma ReceiveKeeps(w: World, number: RecordNumber)
    requires Inv(w)
    ensures Inv(Next(w, ReceiveRecord(number)))
  {
    var received := w.received + {number};
    PartFrame(w.plain, w.issued, w.received, w.issued, received);
    PartFrame(w.protected, w.issued, w.received, w.issued, received);
  }

  lemma SealOtherKeeps(w: World, count: nat)
    requires Inv(w)
    ensures Inv(Next(w, SealOther(count)))
  {
    var p := w.protected;
    var p' := p.(next := p.next + count);
    forall i | 0 <= i < |p'.records| ensures RecordGood(p'.records[i], p', w.issued, w.received) {
      assert RecordGood(p.records[i], p, w.issued, w.received);
    }
    SameFragments(p, p');
  }

  lemma StepKeeps(w: World, step: Step)
    requires Inv(w)
    ensures Inv(Next(w, step))
  {
    match step
    case ReceiveRecord(number) => ReceiveKeeps(w, number);
    case ReceiveACK(numbers) => AckKeeps(w, numbers);
    case RefreshFlight => RefreshKeeps(w);
    case ResizeFlight(plainMax, protectedMax) =>
      if plainMax > 0 && protectedMax > 0 { ResizeKeeps(w, plainMax, protectedMax); }
    case SendFlight => SendKeeps(w);
    case SealOther(count) => SealOtherKeeps(w, count);
  }

  lemma StartIsGood(plainMessages: seq<Message>, plainMax: nat, plainFirst: nat,
                    protectedMessages: seq<Message>, protectedMax: nat, epoch: nat, protectedFirst: nat)
    requires plainMax > 0 && protectedMax > 0 && epoch > 0
    ensures Inv(Start(plainMessages, plainMax, plainFirst, protectedMessages, protectedMax, epoch, protectedFirst))
  {
    var p, q := Part(0, plainMessages, [], plainFirst), Part(epoch, protectedMessages, [], protectedFirst);
    StartPart(p, plainMax);
    StartPart(q, protectedMax);
    StartTogether(Recut(p, plainMax), Recut(q, protectedMax));
    StartForm(plainMessages, plainMax, plainFirst, protectedMessages, protectedMax, epoch, protectedFirst);
  }

  lemma StartForm(plainMessages: seq<Message>, plainMax: nat, plainFirst: nat,
                  protectedMessages: seq<Message>, protectedMax: nat, epoch: nat, protectedFirst: nat)
    requires plainMax > 0 && protectedMax > 0
    ensures var a := Recut(Part(0, plainMessages, [], plainFirst), plainMax);
            var b := Recut(Part(epoch, protectedMessages, [], protectedFirst), protectedMax);
            Start(plainMessages, plainMax, plainFirst, protectedMessages, protectedMax, epoch, protectedFirst)
            == World(a, b, Current(a.records) + Current(b.records), {})
  {}

  lemma StartPart(p: Part, maxFragment: nat)
    requires maxFragment > 0
    ensures PartGood(Recut(p, maxFragment), Current(Recut(p, maxFragment).records), {})
  {
    var none: map<RecordNumber, Fragment> := map[];
    RecutGood(p, none, {}, maxFragment);
    assert none + Current(Recut(p, maxFragment).records) == Current(Recut(p, maxFragment).records);
  }

  lemma StartTogether(a: Part, b: Part)
    requires a.epoch == 0 && b.epoch > 0 && PartGood(a, Current(a.records), {}) && PartGood(b, Current(b.records), {})
    ensures Inv(World(a, b, Current(a.records) + Current(b.records), {}))
  {
    var issued := Current(a.records) + Current(b.records);
    forall n | n in Current(a.records) ensures n.epoch == 0 { CurrentEpoch(a, Current(a.records), {}, n); }
    forall n | n in Current(b.records) ensures n.epoch == b.epoch { CurrentEpoch(b, Current(b.records), {}, n); }
    PartFrame(a, Current(a.records), {}, issued, {});
    PartFrame(b, Current(b.records), {}, issued, {});
  }

  lemma {:induction false} RunKeeps(w: World, steps: seq<Step>)
    requires Inv(w)
    ensures Inv(Run(w, steps))
  {
    if steps != [] {
      RunKeeps(w, steps[..|steps| - 1]);
      StepKeeps(Run(w, steps[..|steps| - 1]), steps[|steps| - 1]);
    }
  }

  // ---------------------------------------------------------------- what completion means

  /** The peer received a record that carried this byte of the message. */
  ghost predicate ByteArrived(w: World, m: Message, k: nat) {
    exists n :: n in w.received && n in w.issued && IsPartOf(w.issued[n], m)
      && w.issued[n].offset <= k < w.issued[n].offset + |w.issued[n].body|
  }

  lemma AckedArrived(p: Part, w: World, i: nat)
    requires PartGood(p, w.issued, w.received) && i < |p.records| && p.records[i].acked
    ensures exists n :: n in w.received && n in w.issued && w.issued[n] == p.records[i].fragment
  {
    assert RecordGood(p.records[i], p, w.issued, w.received);
  }

  lemma {:induction false} MessageFragments(messages: seq<Message>, maxFragment: nat, j: nat, f: Fragment)
    requires maxFragment > 0 && j < |messages| && f in FragmentsOf(messages[j], maxFragment)
    ensures f in AllFragments(messages, maxFragment)
  {
    if j < |messages| - 1 { MessageFragments(messages[..|messages| - 1], maxFragment, j, f); }
  }

  lemma CompletePartArrived(p: Part, w: World, j: nat, k: nat)
    requires PartGood(p, w.issued, w.received) && CompleteFlight(p.records) && j < |p.messages|
             && k < |p.messages[j].body|
    ensures ByteArrived(w, p.messages[j], k)
  {
    var m := p.messages[j];
    var maxFragment: nat :| maxFragment > 0 && Carries(p.records, AllFragments(p.messages, maxFragment));
    EveryByteIsCarried(m, 0, maxFragment, k);
    var f :| f in CutFrom(m, 0, maxFragment) && f.offset <= k < f.offset + |f.body|;
    CutsAddUp(m, 0, maxFragment);
    MessageFragments(p.messages, maxFragment, j, f);
    var i :| 0 <= i < |p.records| && p.records[i].fragment == f;
    AckedArrived(p, w, i);
  }

  lemma CompleteParts(a: seq<FlightRecord>, b: seq<FlightRecord>)
    requires CompleteFlight(a + b)
    ensures CompleteFlight(a) && CompleteFlight(b)
  {
    assert forall i :: 0 <= i < |a| ==> (a + b)[i] == a[i];
    assert forall i :: 0 <= i < |b| ==> (a + b)[|a| + i] == b[i];
  }

  lemma CompleteWorldArrived(w: World, m: Message, k: nat)
    requires Inv(w) && CompleteFlight(Combined(w)) && (m in w.plain.messages || m in w.protected.messages)
             && k < |m.body|
    ensures ByteArrived(w, m, k)
  {
    CompleteParts(w.plain.records, w.protected.records);
    if m in w.plain.messages {
      var j :| 0 <= j < |w.plain.messages| && w.plain.messages[j] == m;
      CompletePartArrived(w.plain, w, j, k);
    } else {
      var j :| 0 <= j < |w.protected.messages| && w.protected.messages[j] == m;
      CompletePartArrived(w.protected, w, j, k);
    }
  }

  /** When the flight is complete, every byte of every message reached the peer in some transmission. */
  lemma CompletionIsSound(plainMessages: seq<Message>, plainMax: nat, plainFirst: nat, protectedMessages: seq<Message>,
                          protectedMax: nat, epoch: nat, protectedFirst: nat, steps: seq<Step>, m: Message, k: nat)
    requires plainMax > 0 && protectedMax > 0 && epoch > 0
    requires (m in plainMessages || m in protectedMessages) && k < |m.body|
    ensures var w := Run(Start(plainMessages, plainMax, plainFirst, protectedMessages, protectedMax, epoch,
                               protectedFirst), steps);
            CompleteFlight(Combined(w)) ==> ByteArrived(w, m, k)
  {
    var start := Start(plainMessages, plainMax, plainFirst, protectedMessages, protectedMax, epoch, protectedFirst);
    StartIsGood(plainMessages, plainMax, plainFirst, protectedMessages, protectedMax, epoch, protectedFirst);
    RunKeeps(start, steps);
    MessagesStay(start, steps);
    if CompleteFlight(Combined(Run(start, steps))) { CompleteWorldArrived(Run(start, steps), m, k); }
  }

  lemma {:induction false} MessagesStay(w: World, steps: seq<Step>)
    ensures Run(w, steps).plain.messages == w.plain.messages && Run(w, steps).protected.messages == w.protected.messages
  {
    if steps != [] { MessagesStay(w, steps[..|steps| - 1]); }
  }

  lemma EpochOfNumber(w: World, i: nat, n: RecordNumber)
    requires Inv(w) && i < |Combined(w)| && HasNumber(Combined(w)[i], n)
    ensures n.epoch == if i < |w.plain.records| then 0 else w.protected.epoch
  {
    if i < |w.plain.records| {
      assert RecordGood(w.plain.records[i], w.plain, w.issued, w.received);
    } else {
      assert RecordGood(w.protected.records[i - |w.plain.records|], w.protected, w.issued, w.received);
    }
  }

  lemma DisjointParts(w: World, i: nat, j: nat, n: RecordNumber)
    requires Disjoint(w.plain.records) && Disjoint(w.protected.records)
    requires i < j < |Combined(w)| && HasNumber(Combined(w)[i], n) && (j < |w.plain.records| || |w.plain.records| <= i)
    ensures !HasNumber(Combined(w)[j], n)
  {
    var k := |w.plain.records|;
    if j >= k { assert Combined(w)[i] == w.protected.records[i - k] && Combined(w)[j] == w.protected.records[j - k]; }
  }

  /**
   * In every reachable state each number belongs to at most one record of the combined flight, the one whose fragment
   * it carried.
   */
  lemma NumbersBelongToOneRecord(plainMessages: seq<Message>, plainMax: nat, plainFirst: nat,
                                 protectedMessages: seq<Message>, protectedMax: nat, epoch: nat, protectedFirst: nat,
                                 steps: seq<Step>, i: nat, j: nat, n: RecordNumber)
    requires plainMax > 0 && protectedMax > 0 && epoch > 0
    ensures var w := Run(Start(plainMessages, plainMax, plainFirst, protectedMessages, protectedMax, epoch,
                               protectedFirst), steps);
            i < |Combined(w)| && HasNumber(Combined(w)[i], n) ==>
              && n in w.issued && w.issued[n] == Combined(w)[i].fragment
              && (j < |Combined(w)| && HasNumber(Combined(w)[j], n) ==> j == i)
  {
    var start := Start(plainMessages, plainMax, plainFirst, protectedMessages, protectedMax, epoch, protectedFirst);
    StartIsGood(plainMessages, plainMax, plainFirst, protectedMessages, protectedMax, epoch, protectedFirst);
    RunKeeps(start, steps);
    var w := Run(start, steps);
    if i < |Combined(w)| && HasNumber(Combined(w)[i], n) {
      RecordNumbersIssued(w, i, n);
      if i < j < |Combined(w)| { OneRecord(w, i, j, n); }
      if j < i && HasNumber(Combined(w)[j], n) { OneRecord(w, j, i, n); }
    }
  }

  lemma OneRecord(w: World, i: nat, j: nat, n: RecordNumber)
    requires Inv(w) && i < j < |Combined(w)| && HasNumber(Combined(w)[i], n)
    ensures !HasNumber(Combined(w)[j], n)
  {
    EpochOfNumber(w, i, n);
    if HasNumber(Combined(w)[j], n) { EpochOfNumber(w, j, n); }
    if j < |w.plain.records| || |w.plain.records| <= i { DisjointParts(w, i, j, n); }
  }

  ghost predicate AllFresh(records: seq<FlightRecord>, issued: map<RecordNumber, Fragment>) {
    forall i, n :: 0 <= i < |records| && HasNumber(records[i], n) ==> n !in issued
  }

  lemma FreshIsUnacknowledged(records: seq<FlightRecord>, issued: map<RecordNumber, Fragment>,
                              numbers: seq<RecordNumber>)
    requires AllFresh(records, issued) && forall n :: n in numbers ==> n in issued
    ensures Ack(records, numbers) == records
  {
    forall i | 0 <= i < |records| ensures !AcknowledgedBy(records[i], numbers) {
      assert forall n :: n in numbers ==> !HasNumber(records[i], n);
    }
  }

  lemma FreshTogether(a: seq<FlightRecord>, b: seq<FlightRecord>, issued: map<RecordNumber, Fragment>)
    requires AllFresh(a, issued) && AllFresh(b, issued)
    ensures AllFresh(a + b, issued)
  {
    forall i, n | 0 <= i < |a + b| && HasNumber((a + b)[i], n) ensures n !in issued {
      assert (a + b)[i] == if i < |a| then a[i] else b[i - |a|];
    }
  }

  /** The numbers of the old map stay used, and no record carries one of them. */
  ghost predicate Outgrown(w: World, past: map<RecordNumber, Fragment>) {
    AllFresh(w.plain.records, past) && AllFresh(w.protected.records, past) && past.Keys <= w.issued.Keys
  }

  lemma ResizeForm(w: World, plainMax: nat, protectedMax: nat)
    requires plainMax > 0 && protectedMax > 0
    ensures Next(w, ResizeFlight(plainMax, protectedMax))
            == Reassign(w, ResizePart(w.plain, plainMax), ResizePart(w.protected, protectedMax))
  {}

  lemma ReassignIssues(w: World, plain: Part, protected: Part)
    ensures w.issued.Keys <= Reassign(w, plain, protected).issued.Keys
  {}

  /** Refragmenting leaves no number of any earlier transmission on a record. */
  lemma ResizeOutgrows(w: World, plainMax: nat, protectedMax: nat, past: map<RecordNumber, Fragment>)
    requires Inv(w) && plainMax > 0 && protectedMax > 0 && past.Keys <= w.issued.Keys
    ensures Outgrown(Next(w, ResizeFlight(plainMax, protectedMax)), past)
  {
    ResizePartGood(w.plain, w.issued, w.received, plainMax);
    ResizePartGood(w.protected, w.issued, w.received, protectedMax);
    ResizeForm(w, plainMax, protectedMax);
    ReassignIssues(w, ResizePart(w.plain, plainMax), ResizePart(w.protected, protectedMax));
  }

  /** A retransmission only adds a number at or above the counter. */
  lemma RefreshStaysFresh(p: Part, past: map<RecordNumber, Fragment>)
    requires AllFresh(p.records, past) && BelowCounter(p, past)
    ensures AllFresh(RefreshPart(p).records, past)
  {
    var after := RefreshPart(p).records;
    RefreshForm(p.records, p.epoch, p.next);
    forall i, n | 0 <= i < |after| && HasNumber(after[i], n) ensures n !in past {
      if !p.records[i].acked {
        ReplaceKeepsNumbers(p.records[i], RecordNumber(p.epoch, p.next + Pending(p.records[..i])), n);
      }
    }
  }

  lemma RefreshStaysOutgrown(w: World, past: map<RecordNumber, Fragment>)
    requires Inv(w) && Outgrown(w, past)
    ensures Outgrown(Next(w, RefreshFlight), past)
  {
    RefreshStaysFresh(w.plain, past);
    RefreshStaysFresh(w.protected, past);
    ReassignIssues(w, RefreshPart(w.plain), RefreshPart(w.protected));
  }

  /** Flags do not change numbers. */
  lemma CarryStaysOutgrown(w: World, records: seq<FlightRecord>, past: map<RecordNumber, Fragment>)
    requires Outgrown(w, past) && |records| == |Combined(w)|
    requires forall i :: 0 <= i < |records| ==>
             records[i] == Combined(w)[i].(acked := records[i].acked, sent := records[i].sent)
    ensures Outgrown(Carry(w, records), past)
  {
    FreshTogether(w.plain.records, w.protected.records, past);
    var w' := Carry(w, records);
    forall i, n | 0 <= i < |records| && HasNumber(records[i], n) ensures n !in past {
      assert HasNumber(Combined(w)[i], n);
    }
    assert forall i :: 0 <= i < |w'.protected.records| ==> w'.protected.records[i] == records[|w.plain.records| + i];
  }

  lemma SendStaysOutgrown(w: World, past: map<RecordNumber, Fragment>)
    requires Outgrown(w, past)
    ensures Outgrown(Next(w, SendFlight), past)
  {
    hide SendUnsent, Outgrown;
    SendOnlyMarks(Combined(w));
    CarryStaysOutgrown(w, SendNext(Combined(w)), past);
  }

  lemma SendOnlyMarks(records: seq<FlightRecord>)
    ensures var after := SendNext(records);
            forall i :: 0 <= i < |records| ==> after[i] == records[i].(acked := after[i].acked, sent := after[i].sent)
  {
    SendUnsentMarks(records, Capacity(records));
  }

  lemma StepStaysOutgrown(w: World, step: Step, past: map<RecordNumber, Fragment>)
    requires Inv(w) && Outgrown(w, past)
    ensures Outgrown(Next(w, step), past)
  {
    match step
    case ReceiveACK(numbers) => CarryStaysOutgrown(w, Ack(Combined(w), numbers), past);
    case RefreshFlight => RefreshStaysOutgrown(w, past);
    case ResizeFlight(plainMax, protectedMax) =>
      if plainMax > 0 && protectedMax > 0 { ResizeOutgrows(w, plainMax, protectedMax, past); }
    case SendFlight => SendStaysOutgrown(w, past);
    case _ =>
  }

  lemma {:induction false} RunStaysOutgrown(w: World, steps: seq<Step>, past: map<RecordNumber, Fragment>)
    requires Inv(w) && Outgrown(w, past)
    ensures Outgrown(Run(w, steps), past)
  {
    if steps != [] {
      var before := steps[..|steps| - 1];
      RunStaysOutgrown(w, before, past);
      RunKeeps(w, before);
      StepStaysOutgrown(Run(w, before), steps[|steps| - 1], past);
    }
  }

  /**
   * After a refragmentation, at any later point of the run, an ACK for anything sent before it acknowledges nothing.
   */
  lemma StaleAcksMatchNothing(w: World, plainMax: nat, protectedMax: nat, steps: seq<Step>, numbers: seq<RecordNumber>)
    requires Inv(w) && plainMax > 0 && protectedMax > 0 && forall n :: n in numbers ==> n in w.issued
    ensures var later := Run(Next(w, ResizeFlight(plainMax, protectedMax)), steps);
            Ack(Combined(later), numbers) == Combined(later)
  {
    var resized := Next(w, ResizeFlight(plainMax, protectedMax));
    StepKeeps(w, ResizeFlight(plainMax, protectedMax));
    ResizeOutgrows(w, plainMax, protectedMax, w.issued);
    RunStaysOutgrown(resized, steps, w.issued);
    var later := Run(resized, steps);
    FreshTogether(later.plain.records, later.protected.records, w.issued);
    FreshIsUnacknowledged(Combined(later), w.issued, numbers);
  }
}
