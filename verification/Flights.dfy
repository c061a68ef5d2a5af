/** Flights: fragments kept until acknowledged, resent under fresh numbers, and recut when the MTU shrinks. */
module Flights {
  import opened Wire
  import opened RecordNumbers
  import opened Fragments

  /** One fragment with the number of its latest transmission and those of all earlier ones. */
  datatype FlightRecord = FlightRecord(
    number: RecordNumber,
    prior: Option<RecordNumber>,
    earlier: seq<RecordNumber>,
    fragment: Fragment,
    acked: bool,
    sent: bool)

  function NewRecord(number: RecordNumber, fragment: Fragment): FlightRecord {
    FlightRecord(number, None, [], fragment, false, false)
  }

  function ReplaceNumber(r: FlightRecord, number: RecordNumber): FlightRecord {
    r.(earlier := if r.prior.Some? then r.earlier + [r.prior.value] else r.earlier, prior := Some(r.number),
       number := number)
  }

  predicate HasNumber(r: FlightRecord, number: RecordNumber) {
    r.number == number || r.prior == Some(number) || number in r.earlier
  }

  /** A retransmission adds one number to a record and forgets none. */
  lemma ReplaceKeepsNumbers(r: FlightRecord, number: RecordNumber, n: RecordNumber)
    ensures HasNumber(ReplaceNumber(r, number), n) <==> HasNumber(r, n) || n == number
  {}

  predicate AcknowledgedBy(r: FlightRecord, numbers: seq<RecordNumber>) {
    exists n :: n in numbers && HasNumber(r, n)
  }

  function Ack(records: seq<FlightRecord>, numbers: seq<RecordNumber>): (result: seq<FlightRecord>)
    ensures |result| == |records|
  {
    seq(|records|,
        i requires 0 <= i < |records| => records[i].(acked := records[i].acked || AcknowledgedBy(records[i], numbers)))
  }

  predicate CompleteFlight(records: seq<FlightRecord>) {
    forall i :: 0 <= i < |records| ==> records[i].acked
  }

  /** Unacknowledged records are rebuilt, in order, under consecutive fresh numbers starting at `next`. */
  function Refresh(records: seq<FlightRecord>, epoch: nat, next: nat): (result: (seq<FlightRecord>, nat))
    ensures |result.0| == |records|
  {
    if records == [] then ([], next)
    else
      var last := |records| - 1;
      var (before, free) := Refresh(records[..last], epoch, next);
      if records[last].acked then (before + [records[last]], free)
      else (before + [ReplaceNumber(records[last], RecordNumber(epoch, free))], free + 1)
  }

  /** All fragments of all messages, in order. */
  function AllFragments(messages: seq<Message>, maxFragment: nat): seq<Fragment>
    requires maxFragment > 0
  {
    if messages == [] then []
      else AllFragments(messages[..|messages| - 1], maxFragment) + FragmentsOf(messages[|messages| - 1], maxFragment)
  }

  function Number(fragments: seq<Fragment>, epoch: nat, first: nat): seq<FlightRecord> {
    seq(|fragments|, i requires 0 <= i < |fragments| => NewRecord(RecordNumber(epoch, first + i), fragments[i]))
  }

  /** A new flight, or a flight recut at another size: all numbers are fresh and nothing is acknowledged or sent. */
  function Build(messages: seq<Message>, maxFragment: nat, epoch: nat, first: nat): seq<FlightRecord>
    requires maxFragment > 0
  {
    Number(AllFragments(messages, maxFragment), epoch, first)
  }

  /** The next free plaintext number as a flight recovers it: one more than the largest current number. */
  function NextRecordSequence(records: seq<FlightRecord>): nat {
    if records == [] then 0
    else
      var last := records[|records| - 1];
      var before := NextRecordSequence(records[..|records| - 1]);
      if last.number.epoch == 0 && last.number.sequence >= before then last.number.sequence + 1 else before
  }

  // ---------------------------------------------------------------- the sliding window of protected records

  predicate Outstanding(r: FlightRecord) {
    r.sent && !r.acked
  }

  function CountOutstanding(records: seq<FlightRecord>): nat {
    if records == [] then 0
    else CountOutstanding(records[..|records| - 1]) + (if Outstanding(records[|records| - 1]) then 1 else 0)
  }

  predicate Protected(records: seq<FlightRecord>) {
    exists i :: 0 <= i < |records| && records[i].number.epoch > 0
  }

  function Capacity(records: seq<FlightRecord>): nat {
    if Protected(records) then (if CountOutstanding(records) < 10 then 10 - CountOutstanding(records) else 0)
      else |records|
  }

  /** Marks up to `capacity` unsent records as sent, from the front; also says how many. */
  function SendUnsent(records: seq<FlightRecord>, capacity: nat): (result: (seq<FlightRecord>, nat))
    ensures |result.0| == |records| && result.1 <= capacity
  {
    if records == [] then ([], 0)
    else
      var last := |records| - 1;
      var (before, used) := SendUnsent(records[..last], capacity);
      if used == capacity || records[last].acked || records[last].sent then (before + [records[last]], used)
      else (before + [records[last].(sent := true)], used + 1)
  }

  function SendNext(records: seq<FlightRecord>): seq<FlightRecord> {
    SendUnsent(records, Capacity(records)).0
  }

  lemma {:induction false} SendUnsentTotal(records: seq<FlightRecord>, capacity: nat)
    ensures CountOutstanding(SendUnsent(records, capacity).0)
            == CountOutstanding(records) + SendUnsent(records, capacity).1
  {
    if records != [] {
      var last := |records| - 1;
      SendUnsentTotal(records[..last], capacity);
      assert SendUnsent(records, capacity).0[..last] == SendUnsent(records[..last], capacity).0;
    }
  }

  /** Only the mark of an unsent record changes, and none is left unmarked while the window has room. */
  ghost predicate Marked(records: seq<FlightRecord>, after: seq<FlightRecord>, full: bool) {
    && |after| == |records|
    && (forall i :: 0 <= i < |records| ==>
        after[i] == records[i].(sent := after[i].sent) && (records[i].sent ==> after[i].sent))
    && (!full ==> forall i :: 0 <= i < |records| ==> after[i].acked || after[i].sent)
  }

  lemma {:induction false} SendUnsentMarks(records: seq<FlightRecord>, capacity: nat)
    ensures Marked(records, SendUnsent(records, capacity).0, SendUnsent(records, capacity).1 == capacity)
  {
    if records != [] {
      var last := |records| - 1;
      SendUnsentMarks(records[..last], capacity);
      assert records == records[..last] + [records[last]];
    }
  }

  lemma SendUnsentCounts(records: seq<FlightRecord>, capacity: nat)
    ensures var (after, used) := SendUnsent(records, capacity);
            && CountOutstanding(after) == CountOutstanding(records) + used
            && (forall i :: 0 <= i < |records| ==>
                after[i] == records[i].(sent := after[i].sent) && (records[i].sent ==> after[i].sent))
            && (used < capacity ==> forall i :: 0 <= i < |records| ==> after[i].acked || after[i].sent)
  {
    SendUnsentTotal(records, capacity);
    SendUnsentMarks(records, capacity);
  }

  /** A protected flight never has more than ten records unacknowledged on the wire because of a send, and a send uses
      the whole window while unsent records remain. */
  lemma WindowIsTen(records: seq<FlightRecord>)
    requires Protected(records) && CountOutstanding(records) <= 10
    ensures CountOutstanding(SendNext(records)) <= 10
    ensures CountOutstanding(SendNext(records)) < 10
            ==> forall i :: 0 <= i < |records| ==> SendNext(records)[i].acked || SendNext(records)[i].sent
  {
    hide CountOutstanding, SendUnsent, Protected;
    SendUnsentCounts(records, Capacity(records));
  }

  // ---------------------------------------------------------------- the mutable flight

  class Flight {
    var records: seq<FlightRecord>

    constructor (records: seq<FlightRecord>)
      ensures this.records == records
    {
      this.records := records;
    }

    method ApplyACK(numbers: seq<RecordNumber>) returns (changed: nat)
      modifies this
      ensures records == Ack(old(records), numbers)
      ensures (changed == 0) == (records == old(records))
    {
      changed := 0;
      var i := 0;
      while i < |records|
        invariant i <= |records| == |old(records)|
        invariant forall k :: 0 <= k < i ==> records[k] == Ack(old(records), numbers)[k]
        invariant forall k :: i <= k < |records| ==> records[k] == old(records)[k]
        invariant (changed == 0) == (records == old(records))
      {
        if !records[i].acked {
          var named := IsNamed(records[i], numbers);
          if named {
            records := records[i := records[i].(acked := true)];
            assert records[i] != old(records)[i];
            changed := changed + 1;
          }
        }
        i := i + 1;
      }
    }

    method IsComplete() returns (done: bool)
      ensures done == CompleteFlight(records)
    {
      var i := 0;
      while i < |records|
        invariant i <= |records| && forall k :: 0 <= k < i ==> records[k].acked
      {
        if !records[i].acked { return false; }
        i := i + 1;
      }
      return true;
    }

    /** Collects the pending indices, then gives each record a fresh number. */
    method RefreshPending(epoch: nat, next: nat) returns (free: nat)
      modifies this
      ensures (records, free) == Refresh(old(records), epoch, next)
    {
      free := next;
      var i := 0;
      while i < |records|
        invariant i <= |records| == |old(records)|
        invariant Refresh(old(records)[..i], epoch, next) == (records[..i], free)
        invariant forall k :: i <= k < |records| ==> records[k] == old(records)[k]
      {
        ghost var was, sofar := records, old(records)[..i + 1];
        assert sofar[..i] == old(records)[..i] && sofar[i] == records[i];
        if !records[i].acked {
          records := records[i := ReplaceNumber(records[i], RecordNumber(epoch, free))];
          free := free + 1;
        }
        assert records[..i + 1] == was[..i] + [records[i]];
        i := i + 1;
      }
      assert old(records)[..i] == old(records) && records[..i] == records;
    }

    method NextUnsent()
      modifies this
      ensures records == SendNext(old(records))
    {
      var outstanding, i, protected := 0, 0, false;
      while i < |records|
        invariant i <= |records|
        invariant outstanding == CountOutstanding(records[..i])
        invariant protected == Protected(records[..i])
      {
        assert records[..i + 1][..i] == records[..i];
        if records[i].number.epoch > 0 {
          assert records[..i + 1][i].number.epoch > 0;
          protected := true;
        } else if protected {
          var k :| 0 <= k < i && records[..i][k].number.epoch > 0;
          assert records[..i + 1][k].number.epoch > 0;
        }
        if records[i].sent && !records[i].acked { outstanding := outstanding + 1; }
        i := i + 1;
      }
      assert records[..i] == records;
      var capacity := if protected then (if outstanding < 10 then 10 - outstanding else 0) else |records|;
      MarkSent(capacity);
    }

    method MarkSent(capacity: nat)
      modifies this
      ensures records == SendUnsent(old(records), capacity).0
    {
      var used, i := 0, 0;
      while i < |records|
        invariant i <= |records| == |old(records)|
        invariant SendUnsent(old(records)[..i], capacity) == (records[..i], used)
        invariant forall k :: i <= k < |records| ==> records[k] == old(records)[k]
      {
        ghost var was, sofar := records, old(records)[..i + 1];
        assert sofar[..i] == old(records)[..i] && sofar[i] == records[i];
        if used != capacity && !records[i].acked && !records[i].sent {
          records := records[i := records[i].(sent := true)];
          used := used + 1;
        }
        assert records[..i + 1] == was[..i] + [records[i]];
        i := i + 1;
      }
      assert old(records)[..i] == old(records) && records[..i] == records;
    }
  }

  method IsNamed(r: FlightRecord, numbers: seq<RecordNumber>) returns (named: bool)
    ensures named == AcknowledgedBy(r, numbers)
  {
    var i := 0;
    while i < |numbers|
      invariant i <= |numbers| && forall k :: 0 <= k < i ==> !HasNumber(r, numbers[k])
    {
      if HasNumber(r, numbers[i]) { return true; }
      i := i + 1;
    }
    return false;
  }
}
