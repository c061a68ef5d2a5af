/** A combined flight has its own copy of the records and synchronises its two parts only when it is rebuilt. */
module FlightCopies {
  import opened RecordNumbers
  import opened Fragments
  import opened Flights
  import opened FlightRun

  /** ACK and send state live in `combined`; the parts keep what they had when they were last rebuilt. */
  datatype Copies = Copies(
    first: Part,
    second: Part,
    combined: seq<FlightRecord>,
    issued: map<RecordNumber, Fragment>,
    received: set<RecordNumber>)

  /** Copies the combined state into a part, as far as both reach. */
  function CopyInto(p: Part, records: seq<FlightRecord>): Part {
    var n := if |records| < |p.records| then |records| else |p.records|;
    p.(records := records[..n] + p.records[n..])
  }

  function Rebuilt(c: Copies, first: Part, second: Part): Copies {
    Copies(first, second, first.records + second.records,
           c.issued + Current(first.records) + Current(second.records), c.received)
  }

  ghost function NextCopies(c: Copies, step: Step): Copies {
    match step
    case ReceiveRecord(number) => if number in c.issued then c.(received := c.received + {number}) else c
    case ReceiveACK(numbers) =>
      if exists n :: n in numbers && n in c.issued && n !in c.received then c
      else c.(combined := Ack(c.combined, numbers))
    case RefreshFlight =>
      if CompleteFlight(c.combined) then c
      else
        var first := CopyInto(c.first, c.combined);
        var from := if |first.records| < |c.combined| then |first.records| else |c.combined|;
        Rebuilt(c, RefreshPart(first), RefreshPart(CopyInto(c.second, c.combined[from..])))
    case ResizeFlight(plainMax, protectedMax) =>
      if plainMax < 1 || protectedMax < 1 then c
      else Rebuilt(c, ResizePart(c.first, plainMax), ResizePart(c.second, protectedMax))
    case SendFlight => c.(combined := SendNext(c.combined))
    case SealOther(count) => c.(second := c.second.(next := c.second.next + count))
  }

  ghost function RunCopies(c: Copies, steps: seq<Step>): Copies {
    if steps == [] then c else NextCopies(RunCopies(c, steps[..|steps| - 1]), steps[|steps| - 1])
  }

  // ---------------------------------------------------------------- refinement

  /** A part's own copy agrees with the combined one on everything but flags and history. */
  ghost predicate Behind(p: Part, q: Part) {
    && p.epoch == q.epoch && p.messages == q.messages && p.next == q.next && |p.records| == |q.records|
    && forall i :: 0 <= i < |p.records| ==> p.records[i].number == q.records[i].number
  }

  ghost predicate Stands(c: Copies, w: World) {
    && c.combined == Combined(w) && c.issued == w.issued && c.received == w.received
    && Behind(c.first, w.plain) && Behind(c.second, w.protected)
  }

  lemma CopyCatchesUp(p: Part, q: Part, records: seq<FlightRecord>)
    requires Behind(p, q) && q.records <= records
    ensures CopyInto(p, records) == q
  {
    assert records[..|p.records|] == q.records;
    assert q.records + p.records[|p.records|..] == q.records;
  }

  lemma {:induction false} NothingToRefresh(records: seq<FlightRecord>, epoch: nat, next: nat)
    requires CompleteFlight(records)
    ensures Refresh(records, epoch, next) == (records, next)
  {
    if records != [] {
      NothingToRefresh(records[..|records| - 1], epoch, next);
      assert records == records[..|records| - 1] + [records[|records| - 1]];
    }
  }

  lemma CurrentIsIssued(p: Part, issued: map<RecordNumber, Fragment>, received: set<RecordNumber>)
    requires RecordsGood(p, issued, received)
    ensures issued + Current(p.records) == issued
  {
    CurrentMeaning(p.records);
    forall n | n in Current(p.records) ensures n in issued && issued[n] == Current(p.records)[n] {
      var i :| 0 <= i < |p.records| && p.records[i].number == n && p.records[i].fragment == Current(p.records)[n];
      assert RecordGood(p.records[i], p, issued, received) && HasNumber(p.records[i], n);
    }
  }

  lemma CompleteRefreshIsIdle(w: World)
    requires Inv(w) && CompleteFlight(Combined(w))
    ensures Next(w, RefreshFlight) == w
  {
    CompleteParts(w.plain.records, w.protected.records);
    NothingToRefresh(w.plain.records, w.plain.epoch, w.plain.next);
    NothingToRefresh(w.protected.records, w.protected.epoch, w.protected.next);
    CurrentIsIssued(w.plain, w.issued, w.received);
    CurrentIsIssued(w.protected, w.issued, w.received);
  }

  lemma RefreshStands(c: Copies, w: World)
    requires Inv(w) && Stands(c, w)
    ensures Stands(NextCopies(c, RefreshFlight), Next(w, RefreshFlight))
  {
    hide Inv, Refresh, HasNumber;
    if CompleteFlight(c.combined) {
      CompleteRefreshIsIdle(w);
    } else {
      CopyCatchesUp(c.first, w.plain, c.combined);
      assert c.combined[|w.plain.records|..] == w.protected.records;
      CopyCatchesUp(c.second, w.protected, w.protected.records);
    }
  }

  lemma {:induction false} ResizeFromCopy(p: Part, q: Part, maxFragment: nat)
    requires Behind(p, q) && maxFragment > 0
    ensures ResizePart(p, maxFragment) == ResizePart(q, maxFragment)
  {
    SameNextSequence(p.records, q.records);
  }

  lemma ResizeStands(c: Copies, w: World, plainMax: nat, protectedMax: nat)
    requires Stands(c, w) && plainMax > 0 && protectedMax > 0
    ensures Stands(NextCopies(c, ResizeFlight(plainMax, protectedMax)), Next(w, ResizeFlight(plainMax, protectedMax)))
  {
    ResizeFromCopy(c.first, w.plain, plainMax);
    ResizeFromCopy(c.second, w.protected, protectedMax);
    ResizeForm(w, plainMax, protectedMax);
  }

  /** Flags set on the combined flight leave the parts behind. */
  lemma CarryStands(c: Copies, w: World, records: seq<FlightRecord>)
    requires Stands(c, w) && |records| == |Combined(w)|
    requires forall i :: 0 <= i < |records| ==> records[i].number == Combined(w)[i].number
    ensures Stands(c.(combined := records), Carry(w, records))
  {
    var w' := Carry(w, records);
    assert Combined(w') == records;
    forall i | 0 <= i < |w'.protected.records| ensures w'.protected.records[i].number == w.protected.records[i].number {
      assert Combined(w)[|w.plain.records| + i] == w.protected.records[i];
    }
    forall i | 0 <= i < |w'.plain.records| ensures w'.plain.records[i].number == w.plain.records[i].number {
      assert Combined(w)[i] == w.plain.records[i];
    }
  }

  lemma AckStands(c: Copies, w: World, numbers: seq<RecordNumber>)
    requires Stands(c, w)
    ensures Stands(NextCopies(c, ReceiveACK(numbers)), Next(w, ReceiveACK(numbers)))
  {
    CarryStands(c, w, Ack(Combined(w), numbers));
  }

  lemma SendStands(c: Copies, w: World)
    requires Stands(c, w)
    ensures Stands(NextCopies(c, SendFlight), Next(w, SendFlight))
  {
    SendOnlyMarks(Combined(w));
    CarryStands(c, w, SendNext(Combined(w)));
  }

  lemma StepStands(c: Copies, w: World, step: Step)
    requires Inv(w) && Stands(c, w)
    ensures Stands(NextCopies(c, step), Next(w, step))
  {
    match step
    case ReceiveACK(numbers) => AckStands(c, w, numbers);
    case RefreshFlight => RefreshStands(c, w);
    case ResizeFlight(plainMax, protectedMax) =>
      if plainMax > 0 && protectedMax > 0 { ResizeStands(c, w, plainMax, protectedMax); }
    case SendFlight => SendStands(c, w);
    case _ =>
  }

  /**
   * Over every run the combined copy is what one shared copy would be, although the parts lag behind it: what is
   * proved of the single copy holds of the combined flight.
   */
  lemma {:induction false} CopiesStayInStep(c: Copies, w: World, steps: seq<Step>)
    requires Inv(w) && Stands(c, w)
    ensures Stands(RunCopies(c, steps), Run(w, steps))
  {
    if steps != [] {
      var before := steps[..|steps| - 1];
      CopiesStayInStep(c, w, before);
      RunKeeps(w, before);
      StepStands(RunCopies(c, before), Run(w, before), steps[|steps| - 1]);
    }
  }

  /** Two flights just built and combined stand for the start of a run. */
  lemma CombineStands(w: World)
    ensures Stands(Copies(w.plain, w.protected, w.plain.records + w.protected.records, w.issued, w.received), w)
  {}
}
