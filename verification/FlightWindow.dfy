/** The sending window of a flight with protected records, over every run. */
module FlightWindow {
  import opened Fragments
  import opened RecordNumbers
  import opened Flights
  import opened FlightRun

  /** At most ten records of a flight with protected records are on the wire unacknowledged. */
  ghost predicate Windowed(records: seq<FlightRecord>) {
    Protected(records) ==> CountOutstanding(records) <= 10
  }

  ghost predicate SameEpochs(a: seq<FlightRecord>, b: seq<FlightRecord>) {
    |a| == |b| && forall i :: 0 <= i < |a| ==> a[i].number.epoch == b[i].number.epoch
  }

  lemma {:induction false} FewerOutstanding(a: seq<FlightRecord>, b: seq<FlightRecord>)
    requires |a| == |b| && forall i :: 0 <= i < |a| ==> Outstanding(b[i]) ==> Outstanding(a[i])
    ensures CountOutstanding(b) <= CountOutstanding(a)
  {
    if a != [] {
      FewerOutstanding(a[..|a| - 1], b[..|b| - 1]);
    }
  }

  lemma {:induction false} NoneOutstanding(a: seq<FlightRecord>)
    requires forall i :: 0 <= i < |a| ==> !a[i].sent
    ensures CountOutstanding(a) == 0
  {
    if a != [] { NoneOutstanding(a[..|a| - 1]); }
  }

  lemma {:induction false} RefreshKeepsFlags(records: seq<FlightRecord>, epoch: nat, next: nat)
    requires forall i :: 0 <= i < |records| ==> records[i].number.epoch == epoch
    ensures var after := Refresh(records, epoch, next).0;
            && SameEpochs(records, after)
            && forall i :: 0 <= i < |records| ==>
                 after[i].sent == records[i].sent && after[i].acked == records[i].acked
  {
    if records != [] {
      var last := |records| - 1;
      RefreshKeepsFlags(records[..last], epoch, next);
    }
  }

  lemma PartEpochs(w: World)
    requires Inv(w)
    ensures forall i :: 0 <= i < |w.plain.records| ==> w.plain.records[i].number.epoch == 0
    ensures forall i :: 0 <= i < |w.protected.records| ==> w.protected.records[i].number.epoch == w.protected.epoch
  {
    forall i | 0 <= i < |w.plain.records| ensures w.plain.records[i].number.epoch == 0 {
      assert RecordGood(w.plain.records[i], w.plain, w.issued, w.received)
             && HasNumber(w.plain.records[i], w.plain.records[i].number);
    }
    forall i | 0 <= i < |w.protected.records| ensures w.protected.records[i].number.epoch == w.protected.epoch {
      assert RecordGood(w.protected.records[i], w.protected, w.issued, w.received)
          && HasNumber(w.protected.records[i], w.protected.records[i].number);
    }
  }

  /** Same epochs, and nothing newly outstanding. */
  ghost predicate Calmer(a: seq<FlightRecord>, b: seq<FlightRecord>) {
    SameEpochs(a, b) && forall i :: 0 <= i < |a| ==> Outstanding(b[i]) ==> Outstanding(a[i])
  }

  lemma CalmerTogether(a: seq<FlightRecord>, b: seq<FlightRecord>, a': seq<FlightRecord>, b': seq<FlightRecord>)
    requires Calmer(a, a') && Calmer(b, b')
    ensures Calmer(a + b, a' + b')
  {}

  lemma RefreshIsCalm(records: seq<FlightRecord>, epoch: nat, next: nat)
    requires forall i :: 0 <= i < |records| ==> records[i].number.epoch == epoch
    ensures Calmer(records, Refresh(records, epoch, next).0)
  {
    RefreshKeepsFlags(records, epoch, next);
  }

  lemma RefreshKeepsWindow(w: World)
    requires Inv(w) && Windowed(Combined(w))
    ensures Windowed(Combined(Next(w, RefreshFlight)))
  {
    PartEpochs(w);
    var a, b := RefreshPart(w.plain).records, RefreshPart(w.protected).records;
    RefreshIsCalm(w.plain.records, 0, w.plain.next);
    RefreshIsCalm(w.protected.records, w.protected.epoch, w.protected.next);
    CalmerTogether(w.plain.records, w.protected.records, a, b);
    WindowFrame(Combined(w), a + b);
  }

  lemma WindowFrame(a: seq<FlightRecord>, b: seq<FlightRecord>)
    requires Windowed(a) && Calmer(a, b)
    ensures Windowed(b)
  {
    FewerOutstanding(a, b);
  }

  lemma SendKeepsWindow(records: seq<FlightRecord>)
    requires Windowed(records)
    ensures Windowed(SendNext(records))
  {
    SendUnsentCounts(records, Capacity(records));
    var after := SendNext(records);
    assert SameEpochs(records, after);
    if Protected(after) {
      assert Protected(records);
      WindowIsTen(records);
    }
  }

  lemma CarryCombines(w: World, records: seq<FlightRecord>)
    requires |records| == |w.plain.records| + |w.protected.records|
    ensures Combined(Carry(w, records)) == records
  {}

  lemma BuildUnsent(messages: seq<Message>, maxFragment: nat, epoch: nat, first: nat)
    requires maxFragment > 0
    ensures Unsent(Build(messages, maxFragment, epoch, first))
  {}

  ghost predicate Unsent(records: seq<FlightRecord>) {
    forall i :: 0 <= i < |records| ==> !records[i].sent
  }

  lemma UnsentIsWindowed(a: seq<FlightRecord>, b: seq<FlightRecord>)
    requires Unsent(a) && Unsent(b)
    ensures Windowed(a + b)
  {
    NoneOutstanding(a + b);
  }

  lemma ResizeUnsent(p: Part, maxFragment: nat)
    requires maxFragment > 0
    ensures Unsent(ResizePart(p, maxFragment).records)
  {
    BuildUnsent(p.messages, maxFragment, p.epoch, if p.epoch == 0 then NextRecordSequence(p.records) else p.next);
  }

  lemma ResizeKeepsWindow(w: World, plainMax: nat, protectedMax: nat)
    requires Windowed(Combined(w))
    ensures Windowed(Combined(Next(w, ResizeFlight(plainMax, protectedMax))))
  {
    if plainMax > 0 && protectedMax > 0 {
      ResizeUnsent(w.plain, plainMax);
      ResizeUnsent(w.protected, protectedMax);
      UnsentIsWindowed(ResizePart(w.plain, plainMax).records, ResizePart(w.protected, protectedMax).records);
    }
  }

  lemma AckKeepsWindow(w: World, numbers: seq<RecordNumber>)
    requires Windowed(Combined(w))
    ensures Windowed(Combined(Next(w, ReceiveACK(numbers))))
  {
    CarryCombines(w, Ack(Combined(w), numbers));
    WindowFrame(Combined(w), Ack(Combined(w), numbers));
  }

  lemma SendFlightKeepsWindow(w: World)
    requires Windowed(Combined(w))
    ensures Windowed(Combined(Next(w, SendFlight)))
  {
    CarryCombines(w, SendNext(Combined(w)));
    SendKeepsWindow(Combined(w));
  }

  lemma OthersKeepRecords(w: World, step: Step)
    requires step.ReceiveRecord? || step.SealOther?
    ensures Combined(Next(w, step)) == Combined(w)
  {}

  lemma StepKeepsWindow(w: World, step: Step)
    requires Inv(w) && Windowed(Combined(w))
    ensures Windowed(Combined(Next(w, step)))
  {
    match step
    case ReceiveACK(numbers) => AckKeepsWindow(w, numbers);
    case RefreshFlight => RefreshKeepsWindow(w);
    case ResizeFlight(plainMax, protectedMax) => ResizeKeepsWindow(w, plainMax, protectedMax);
    case SendFlight => SendFlightKeepsWindow(w);
    case _ => OthersKeepRecords(w, step);
  }

  /** Through any mix of acknowledgement, sending, retransmission and refragmentation the window is kept. */
  lemma {:induction false} WindowHolds(w: World, steps: seq<Step>)
    requires Inv(w) && Windowed(Combined(w))
    ensures Windowed(Combined(Run(w, steps)))
  {
    if steps != [] {
      var before := steps[..|steps| - 1];
      WindowHolds(w, before);
      RunKeeps(w, before);
      StepKeepsWindow(Run(w, before), steps[|steps| - 1]);
    }
  }

  /** A flight starts with nothing sent, so every run of it keeps the window. */
  lemma AtMostTenOutstanding(plainMessages: seq<Message>, plainMax: nat, plainFirst: nat,
                             protectedMessages: seq<Message>, protectedMax: nat, epoch: nat, protectedFirst: nat,
                             steps: seq<Step>)
    requires plainMax > 0 && protectedMax > 0 && epoch > 0
    ensures Windowed(Combined(Run(Start(plainMessages, plainMax, plainFirst, protectedMessages, protectedMax, epoch,
                                        protectedFirst), steps)))
  {
    var start := Start(plainMessages, plainMax, plainFirst, protectedMessages, protectedMax, epoch, protectedFirst);
    StartIsGood(plainMessages, plainMax, plainFirst, protectedMessages, protectedMax, epoch, protectedFirst);
    BuildUnsent(plainMessages, plainMax, 0, plainFirst);
    BuildUnsent(protectedMessages, protectedMax, epoch, protectedFirst);
    UnsentIsWindowed(start.plain.records, start.protected.records);
    WindowHolds(start, steps);
  }
}
