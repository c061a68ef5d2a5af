/** What ACKs achieve: an ACK of any transmission of a record counts, and enough of them complete the flight. */
module FlightProgress {
  import opened Wire
  import opened RecordNumbers
  import opened Fragments
  import opened Flights
  import opened FlightRun

  /** Nothing is recut, so every record keeps its place in the flight. */
  ghost predicate KeepsSizes(steps: seq<Step>) {
    forall i :: 0 <= i < |steps| ==> !steps[i].ResizeFlight?
  }

  /** A record keeps its fragment, its numbers and its acknowledgement. */
  ghost predicate Keeps(r: FlightRecord, r': FlightRecord) {
    && r'.fragment == r.fragment && (r.acked ==> r'.acked)
    && forall n :: HasNumber(r, n) ==> HasNumber(r', n)
  }

  ghost predicate AllKept(before: seq<FlightRecord>, after: seq<FlightRecord>) {
    |after| == |before| && forall i :: 0 <= i < |before| ==> Keeps(before[i], after[i])
  }

  lemma CarriedRecords(w: World, records: seq<FlightRecord>)
    requires |records| == |Combined(w)|
    ensures Combined(Carry(w, records)) == records
  {}

  lemma RefreshKeepsPart(p: Part)
    ensures AllKept(p.records, RefreshPart(p).records)
  {
    var after := RefreshPart(p).records;
    RefreshForm(p.records, p.epoch, p.next);
    forall i | 0 <= i < |after| ensures Keeps(p.records[i], after[i]) {
      forall n | HasNumber(p.records[i], n) ensures HasNumber(after[i], n) {
        ReplaceKeepsNumbers(p.records[i], RecordNumber(p.epoch, p.next + Pending(p.records[..i])), n);
      }
    }
  }

  lemma KeptTogether(a: seq<FlightRecord>, b: seq<FlightRecord>, a': seq<FlightRecord>, b': seq<FlightRecord>)
    requires AllKept(a, a') && AllKept(b, b')
    ensures AllKept(a + b, a' + b')
  {
    forall i | 0 <= i < |a + b| ensures Keeps((a + b)[i], (a' + b')[i]) {
      if i >= |a| { assert (a + b)[i] == b[i - |a|] && (a' + b')[i] == b'[i - |a|]; }
    }
  }

  lemma StepKeepsRecords(w: World, step: Step)
    requires !step.ResizeFlight?
    ensures AllKept(Combined(w), Combined(Next(w, step)))
  {
    match step
    case ReceiveACK(numbers) => CarriedRecords(w, Ack(Combined(w), numbers));
    case RefreshFlight =>
      RefreshKeepsPart(w.plain);
      RefreshKeepsPart(w.protected);
      KeptTogether(w.plain.records, w.protected.records, RefreshPart(w.plain).records,
                   RefreshPart(w.protected).records);
    case SendFlight =>
      SendUnsentMarks(Combined(w), Capacity(Combined(w)));
      CarriedRecords(w, SendNext(Combined(w)));
    case _ =>
  }

  lemma {:induction false} RunKeepsRecords(w: World, steps: seq<Step>)
    requires KeepsSizes(steps)
    ensures AllKept(Combined(w), Combined(Run(w, steps)))
  {
    if steps != [] {
      hide Keeps, Next;
      var last := |steps| - 1;
      RunKeepsRecords(w, steps[..last]);
      StepKeepsRecords(Run(w, steps[..last]), steps[last]);
      KeptTwice(Combined(w), Combined(Run(w, steps[..last])), Combined(Run(w, steps)));
    }
  }

  lemma KeptTwice(a: seq<FlightRecord>, b: seq<FlightRecord>, c: seq<FlightRecord>)
    requires AllKept(a, b) && AllKept(b, c)
    ensures AllKept(a, c)
  {
    forall i | 0 <= i < |a| ensures Keeps(a[i], c[i]) {
      assert Keeps(a[i], b[i]) && Keeps(b[i], c[i]);
    }
  }

  lemma {:induction false} RunsCompose(w: World, steps: seq<Step>, k: nat)
    requires k <= |steps|
    ensures Run(w, steps) == Run(Run(w, steps[..k]), steps[k..])
    decreases |steps|
  {
    hide Next;
    if k < |steps| {
      var last := |steps| - 1;
      RunsCompose(w, steps[..last], k);
      assert steps[..last][..k] == steps[..k] && steps[..last][k..] == steps[k..][..last - k];
      assert steps[k..][last - k] == steps[last] && |steps[k..]| - 1 == last - k;
    } else {
      assert steps[..k] == steps && steps[k..] == [];
    }
  }

  // ---------------------------------------------------------------- completion

  /** An ACK that names only received records. */
  ghost predicate Honest(w: World, numbers: seq<RecordNumber>) {
    forall n :: n in numbers && n in w.issued ==> n in w.received
  }

  lemma AckOfNumber(w: World, numbers: seq<RecordNumber>, i: nat, n: RecordNumber)
    requires i < |Combined(w)| && n in numbers && HasNumber(Combined(w)[i], n) && Honest(w, numbers)
    ensures i < |Combined(Next(w, ReceiveACK(numbers)))| && Combined(Next(w, ReceiveACK(numbers)))[i].acked
  {
    CarriedRecords(w, Ack(Combined(w), numbers));
  }

  /** At time `k` record `i` was sent as `n`, and at time `j`, then or later, an honest ACK names `n`. */
  ghost predicate Answered(w: World, steps: seq<Step>, i: nat, k: nat, j: nat, n: RecordNumber) {
    && k <= j < |steps| && i < |Combined(Run(w, steps[..k]))| && Combined(Run(w, steps[..k]))[i].number == n
    && steps[j].ReceiveACK? && n in steps[j].numbers && Honest(Run(w, steps[..j]), steps[j].numbers)
  }

  /** An ACK of any transmission of a record, however late, acknowledges the record for good. */
  lemma AnsweredIsAcknowledged(w: World, steps: seq<Step>, i: nat, k: nat, j: nat, n: RecordNumber)
    requires KeepsSizes(steps) && Answered(w, steps, i, k, j, n)
    ensures i < |Combined(Run(w, steps))| && Combined(Run(w, steps))[i].acked
  {
    hide Keeps, Next, Run, Honest;
    var sent, before, after := Run(w, steps[..k]), Run(w, steps[..j]), Run(w, steps[..j + 1]);
    assert steps[..j][..k] == steps[..k] && HasNumber(Combined(sent)[i], n);
    RunsCompose(w, steps[..j], k);
    RunKeepsRecords(sent, steps[..j][k..]);
    KeptNumber(Combined(sent), Combined(before), i, n);
    AckOfNumber(before, steps[j].numbers, i, n);
    LastStep(w, steps, j);
    RunsCompose(w, steps, j + 1);
    RunKeepsRecords(after, steps[j + 1..]);
    KeptAck(Combined(after), Combined(Run(w, steps)), i);
  }

  lemma LastStep(w: World, steps: seq<Step>, j: nat)
    requires j < |steps|
    ensures Run(w, steps[..j + 1]) == Next(Run(w, steps[..j]), steps[j])
  {
    assert steps[..j + 1][..j] == steps[..j];
  }

  lemma KeptNumber(before: seq<FlightRecord>, after: seq<FlightRecord>, i: nat, n: RecordNumber)
    requires AllKept(before, after) && i < |before| && HasNumber(before[i], n)
    ensures HasNumber(after[i], n)
  {
    assert Keeps(before[i], after[i]);
  }

  lemma KeptAck(before: seq<FlightRecord>, after: seq<FlightRecord>, i: nat)
    requires AllKept(before, after) && i < |before| && before[i].acked
    ensures after[i].acked
  {
    assert Keeps(before[i], after[i]);
  }

  /** Once each record was acknowledged under one of the numbers it was sent as, the flight is complete. */
  lemma AnsweredFlightIsComplete(w: World, steps: seq<Step>)
    requires KeepsSizes(steps)
    requires forall i :: 0 <= i < |Combined(w)| ==>
               Combined(w)[i].acked || exists k, j, n :: Answered(w, steps, i, k, j, n)
    ensures CompleteFlight(Combined(Run(w, steps)))
  {
    hide Keeps, Next, Run, Answered;
    RunKeepsRecords(w, steps);
    var after := Combined(Run(w, steps));
    forall i | 0 <= i < |after| ensures after[i].acked {
      if Combined(w)[i].acked {
        KeptAck(Combined(w), after, i);
      } else {
        var k, j, n :| Answered(w, steps, i, k, j, n);
        AnsweredIsAcknowledged(w, steps, i, k, j, n);
      }
    }
  }

  // ---------------------------------------------------------------- every number counts

  /** Every number issued beyond those in `past` belongs to a record of the flight. */
  ghost predicate Owned(w: World, past: map<RecordNumber, Fragment>) {
    forall n :: n in w.issued && n !in past ==> HasOwner(Combined(w), n)
  }

  ghost predicate HasOwner(records: seq<FlightRecord>, n: RecordNumber) {
    exists i :: 0 <= i < |records| && HasNumber(records[i], n)
  }

  lemma CurrentIsOwned(w: World, n: RecordNumber)
    requires n in Current(w.plain.records) || n in Current(w.protected.records)
    ensures HasOwner(Combined(w), n)
  {
    CurrentMeaning(w.plain.records);
    CurrentMeaning(w.protected.records);
    if n in Current(w.plain.records) {
      var i :| 0 <= i < |w.plain.records| && w.plain.records[i].number == n;
      assert HasNumber(Combined(w)[i], n);
    } else {
      var i :| 0 <= i < |w.protected.records| && w.protected.records[i].number == n;
      assert HasNumber(Combined(w)[|w.plain.records| + i], n);
    }
  }

  lemma ReassignOwns(w: World, plain: Part, protected: Part, past: map<RecordNumber, Fragment>)
    requires Owned(w, past) && AllKept(Combined(w), plain.records + protected.records)
    ensures Owned(Reassign(w, plain, protected), past)
  {
    var w' := Reassign(w, plain, protected);
    forall n | n in w'.issued && n !in past ensures HasOwner(Combined(w'), n) {
      if n in Current(plain.records) || n in Current(protected.records) {
        CurrentIsOwned(w', n);
      } else {
        StillOwned(Combined(w), Combined(w'), n);
      }
    }
  }

  lemma StillOwned(before: seq<FlightRecord>, after: seq<FlightRecord>, n: RecordNumber)
    requires AllKept(before, after) && HasOwner(before, n)
    ensures HasOwner(after, n)
  {
    var i :| 0 <= i < |before| && HasNumber(before[i], n);
    KeptNumber(before, after, i, n);
  }

  lemma StepOwns(w: World, step: Step, past: map<RecordNumber, Fragment>)
    requires Owned(w, past) && !step.ResizeFlight?
    ensures Owned(Next(w, step), past)
  {
    StepKeepsRecords(w, step);
    if step.RefreshFlight? {
      ReassignOwns(w, RefreshPart(w.plain), RefreshPart(w.protected), past);
    } else {
      var w' := Next(w, step);
      assert w'.issued == w.issued;
      forall n | n in w'.issued && n !in past ensures HasOwner(Combined(w'), n) {
        StillOwned(Combined(w), Combined(w'), n);
      }
    }
  }

  lemma {:induction false} RunOwns(w: World, steps: seq<Step>, past: map<RecordNumber, Fragment>)
    requires Owned(w, past) && KeepsSizes(steps)
    ensures Owned(Run(w, steps), past)
  {
    if steps != [] {
      hide Owned, Next;
      RunOwns(w, steps[..|steps| - 1], past);
      StepOwns(Run(w, steps[..|steps| - 1]), steps[|steps| - 1], past);
    }
  }

  /** Just recut, the flight owns exactly what was issued for it. */
  lemma ResizeOwns(w: World, plainMax: nat, protectedMax: nat)
    requires plainMax > 0 && protectedMax > 0
    ensures Owned(Next(w, ResizeFlight(plainMax, protectedMax)), w.issued)
  {
    var w' := Next(w, ResizeFlight(plainMax, protectedMax));
    forall n | n in w'.issued && n !in w.issued ensures HasOwner(Combined(w'), n) { CurrentIsOwned(w', n); }
  }

  lemma StartOwns(plainMessages: seq<Message>, plainMax: nat, plainFirst: nat,
                  protectedMessages: seq<Message>, protectedMax: nat, epoch: nat, protectedFirst: nat)
    requires plainMax > 0 && protectedMax > 0
    ensures Owned(Start(plainMessages, plainMax, plainFirst, protectedMessages, protectedMax, epoch, protectedFirst),
                  map[])
  {
    var w := Start(plainMessages, plainMax, plainFirst, protectedMessages, protectedMax, epoch, protectedFirst);
    forall n | n in w.issued ensures HasOwner(Combined(w), n) { CurrentIsOwned(w, n); }
  }

  /** An ACK of `n` alone acknowledges the record whose fragment `n` carried, and no other. */
  ghost predicate AcknowledgesOne(w: World, n: RecordNumber, i: nat) {
    var after := Combined(Next(w, ReceiveACK([n])));
    && i < |Combined(w)| == |after| && n in w.issued && Combined(w)[i].fragment == w.issued[n]
    && after[i] == Combined(w)[i].(acked := true)
    && forall j :: 0 <= j < |after| && j != i ==> after[j] == Combined(w)[j]
  }

  lemma AckAcknowledgesOne(w: World, n: RecordNumber, i: nat)
    requires Inv(w) && i < |Combined(w)| && HasNumber(Combined(w)[i], n) && n in w.received
    ensures AcknowledgesOne(w, n, i)
  {
    hide Inv;
    var records := Combined(w);
    var after := Ack(records, [n]);
    RecordNumbersIssued(w, i, n);
    CarriedRecords(w, after);
    assert n in [n];
    forall j | 0 <= j < |after| && j != i ensures after[j] == records[j] {
      if i < j { OneRecord(w, i, j, n); }
      if j < i && HasNumber(records[j], n) { OneRecord(w, j, i, n); }
    }
  }

  /**
   * Whatever was sent since the last refragmentation, first time or again, before or after any other step: once it was
   * received, its ACK acknowledges the one record it carried.
   */
  lemma EveryTransmissionCounts(w: World, plainMax: nat, protectedMax: nat, steps: seq<Step>, n: RecordNumber)
    requires Inv(w) && plainMax > 0 && protectedMax > 0 && KeepsSizes(steps)
    ensures var later := Run(Next(w, ResizeFlight(plainMax, protectedMax)), steps);
            n in later.issued && n !in w.issued && n in later.received ==>
              exists i :: AcknowledgesOne(later, n, i)
  {
    var resized := Next(w, ResizeFlight(plainMax, protectedMax));
    StepKeeps(w, ResizeFlight(plainMax, protectedMax));
    ResizeOwns(w, plainMax, protectedMax);
    OwnedCounts(resized, steps, w.issued, n);
  }

  lemma OwnedCounts(w: World, steps: seq<Step>, past: map<RecordNumber, Fragment>, n: RecordNumber)
    requires Inv(w) && Owned(w, past) && KeepsSizes(steps)
    ensures var later := Run(w, steps);
            n in later.issued && n !in past && n in later.received ==> exists i :: AcknowledgesOne(later, n, i)
  {
    hide Inv, AcknowledgesOne;
    RunKeeps(w, steps);
    RunOwns(w, steps, past);
    var later := Run(w, steps);
    if n in later.issued && n !in past && n in later.received {
      var i :| 0 <= i < |Combined(later)| && HasNumber(Combined(later)[i], n);
      AckAcknowledgesOne(later, n, i);
    }
  }

  /** The same from the first transmission on. */
  lemma EveryFirstTransmissionCounts(plainMessages: seq<Message>, plainMax: nat, plainFirst: nat,
                                     protectedMessages: seq<Message>, protectedMax: nat, epoch: nat,
                                     protectedFirst: nat, steps: seq<Step>, n: RecordNumber)
    requires plainMax > 0 && protectedMax > 0 && epoch > 0 && KeepsSizes(steps)
    ensures var later := Run(Start(plainMessages, plainMax, plainFirst, protectedMessages, protectedMax, epoch,
                                   protectedFirst), steps);
            n in later.issued && n in later.received ==> exists i :: AcknowledgesOne(later, n, i)
  {
    hide AcknowledgesOne;
    StartIsGood(plainMessages, plainMax, plainFirst, protectedMessages, protectedMax, epoch, protectedFirst);
    StartOwns(plainMessages, plainMax, plainFirst, protectedMessages, protectedMax, epoch, protectedFirst);
    OwnedCounts(Start(plainMessages, plainMax, plainFirst, protectedMessages, protectedMax, epoch, protectedFirst),
                steps, map[], n);
  }

  // ---------------------------------------------------------------- what goes out

  /**
   * An acknowledged record is left alone; a pending one gets a number never used before, in the order of the records.
   */
  ghost predicate Resent(p: Part, after: Part, issued: map<RecordNumber, Fragment>) {
    && |after.records| == |p.records|
    && (forall i :: 0 <= i < |p.records| ==>
          if p.records[i].acked then after.records[i] == p.records[i]
          else
            && after.records[i].number !in issued && after.records[i].number.epoch == p.epoch
            && after.records[i].fragment == p.records[i].fragment && after.records[i].sent == p.records[i].sent
            && !after.records[i].acked)
    && (forall i, j :: 0 <= i < j < |p.records| && !p.records[i].acked && !p.records[j].acked ==>
          after.records[i].number.sequence < after.records[j].number.sequence)
  }

  lemma RefreshResends(p: Part, issued: map<RecordNumber, Fragment>)
    requires BelowCounter(p, issued)
    ensures Resent(p, RefreshPart(p), issued)
  {
    RefreshForm(p.records, p.epoch, p.next);
    forall i, j | 0 <= i < j < |p.records| && !p.records[i].acked && !p.records[j].acked
      ensures RefreshPart(p).records[i].number.sequence < RefreshPart(p).records[j].number.sequence {
      PendingGrows(p.records, i, j);
    }
  }

  /** A retransmission renews every pending record of both parts, and the new numbers are those of their fragments. */
  lemma PendingIsResent(w: World, i: nat)
    requires Inv(w)
    ensures var w' := Next(w, RefreshFlight);
            && Resent(w.plain, w'.plain, w.issued) && Resent(w.protected, w'.protected, w.issued)
            && (i < |Combined(w')| ==>
                  var r := Combined(w')[i]; r.number in w'.issued && w'.issued[r.number] == r.fragment)
  {
    hide Resent;
    RefreshResends(w.plain, w.issued);
    RefreshResends(w.protected, w.issued);
    StepKeeps(w, RefreshFlight);
    var w' := Next(w, RefreshFlight);
    if i < |Combined(w')| { RecordNumbersIssued(w', i, Combined(w')[i].number); }
  }

  /** Records are sent in order: none is marked while an earlier one is still unsent. */
  lemma {:induction false} SendsFromTheFront(records: seq<FlightRecord>, capacity: nat, i: nat, j: nat)
    requires i < j < |records|
    ensures var after := SendUnsent(records, capacity).0;
            !after[i].acked && !after[i].sent ==> after[j] == records[j]
    ensures !SendUnsent(records, capacity).0[i].acked && !SendUnsent(records, capacity).0[i].sent
            ==> SendUnsent(records, capacity).1 == capacity
  {
    var last := |records| - 1;
    SendUnsentMarks(records, capacity);
    if j < last {
      SendsFromTheFront(records[..last], capacity, i, j);
    } else {
      SendUnsentMarks(records[..last], capacity);
    }
  }

  /** The fragment size is the largest that the MTU and the content limit both leave beside the 12-byte header. */
  lemma FragmentSizeIsLargest(mtu: nat, overhead: nat, maxContent: nat, size: nat)
    ensures size <= MaxFragment(mtu, overhead, maxContent) <==> overhead + 12 + size <= mtu && 12 + size <= maxContent
  {}

  /** The records of a new flight carry the fragments of its messages, in order, under consecutive numbers. */
  lemma BuiltInOrder(messages: seq<Message>, maxFragment: nat, epoch: nat, first: nat)
    requires maxFragment > 0
    ensures var records := Build(messages, maxFragment, epoch, first);
            && Carries(records, AllFragments(messages, maxFragment))
            && forall i :: 0 <= i < |records| ==>
                 && records[i].number == RecordNumber(epoch, first + i) && !records[i].acked && !records[i].sent
                 && forall n :: HasNumber(records[i], n) ==> n == records[i].number
  {
    hide AllFragments;
  }

  function Joined(messages: seq<Message>): Bytes {
    if messages == [] then [] else Joined(messages[..|messages| - 1]) + messages[|messages| - 1].body
  }

  lemma {:induction false} BodiesJoin(a: seq<Fragment>, b: seq<Fragment>)
    ensures Bodies(a + b) == Bodies(a) + Bodies(b)
  {
    if a == [] {
      assert a + b == b;
    } else {
      assert (a + b)[1..] == a[1..] + b;
      BodiesJoin(a[1..], b);
    }
  }

  /** The bodies of all fragments, put together, are the bodies of the messages, put together. */
  lemma {:induction false} FragmentsCarryTheMessages(messages: seq<Message>, maxFragment: nat)
    requires maxFragment > 0
    ensures Bodies(AllFragments(messages, maxFragment)) == Joined(messages)
  {
    if messages != [] {
      var last := |messages| - 1;
      var before, cut := AllFragments(messages[..last], maxFragment), FragmentsOf(messages[last], maxFragment);
      FragmentsCarryTheMessages(messages[..last], maxFragment);
      CutsAddUp(messages[last], 0, maxFragment);
      BodiesJoin(before, cut);
      if messages[last].body == [] {
        assert cut == [Cut(messages[last], 0, 0)] && cut[1..] == [];
      } else {
        assert messages[last].body[0..] == messages[last].body;
      }
    }
  }
}
