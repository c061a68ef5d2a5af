/** ACK messages: canonical record number lists, their encoding, and their division into records that fit the MTU. */
module Acks {
  import opened Wire
  import opened RecordNumbers

  const MAX_ENTRIES := 4095
  const PLAIN_HEADER := 13

  ghost predicate Canonical(numbers: seq<RecordNumber>) {
    forall i, j :: 0 <= i < j < |numbers| ==> Less(numbers[i], numbers[j])
  }

  ghost predicate SameElements(a: seq<RecordNumber>, b: seq<RecordNumber>) {
    forall n :: n in a <==> n in b
  }

  // ---------------------------------------------------------------- canonicalisation

  predicate Ordered(a: RecordNumber, b: RecordNumber) {
    a == b || Less(a, b)
  }

  ghost predicate Sorted(numbers: seq<RecordNumber>) {
    forall i, j :: 0 <= i < j < |numbers| ==> Ordered(numbers[i], numbers[j])
  }

  lemma InsertedElements(sorted: seq<RecordNumber>, at: nat, x: RecordNumber)
    requires at <= |sorted|
    ensures SameElements(sorted[..at] + [x] + sorted[at..], sorted + [x])
  {
    assert sorted == sorted[..at] + sorted[at..];
  }

  method Insert(sorted: seq<RecordNumber>, x: RecordNumber) returns (longer: seq<RecordNumber>)
    requires Sorted(sorted)
    ensures Sorted(longer) && SameElements(longer, sorted + [x]) && |longer| == |sorted| + 1
  {
    hide SameElements;
    var at := 0;
    while at < |sorted| && Less(sorted[at], x)
      invariant at <= |sorted| && forall i :: 0 <= i < at ==> Less(sorted[i], x)
    {
      at := at + 1;
    }
    longer := sorted[..at] + [x] + sorted[at..];
    InsertedElements(sorted, at, x);
  }

  method SortNumbers(numbers: seq<RecordNumber>) returns (sorted: seq<RecordNumber>)
    ensures Sorted(sorted) && SameElements(sorted, numbers) && |sorted| == |numbers|
  {
    sorted := [];
    for k := 0 to |numbers|
      invariant Sorted(sorted) && SameElements(sorted, numbers[..k]) && |sorted| == k
    {
      sorted := Insert(sorted, numbers[k]);
      assert numbers[..k + 1] == numbers[..k] + [numbers[k]];
    }
    assert numbers[..|numbers|] == numbers;
  }

  method Dedup(sorted: seq<RecordNumber>) returns (dedup: seq<RecordNumber>)
    requires Sorted(sorted)
    ensures Canonical(dedup) && SameElements(dedup, sorted) && |dedup| <= |sorted|
  {
    dedup := [];
    for k := 0 to |sorted|
      invariant Canonical(dedup) && SameElements(dedup, sorted[..k]) && |dedup| <= k
      invariant dedup != [] ==> k > 0 && dedup[|dedup| - 1] == sorted[k - 1]
      invariant k > 0 ==> dedup != []
    {
      assert sorted[..k + 1] == sorted[..k] + [sorted[k]];
      if |dedup| == 0 || dedup[|dedup| - 1] != sorted[k] {
        dedup := dedup + [sorted[k]];
      }
    }
    assert sorted[..|sorted|] == sorted;
  }

  /** An already increasing list is returned as it is; otherwise a copy is sorted and its repeats dropped. */
  method CanonicalNumbers(numbers: seq<RecordNumber>) returns (canonical: seq<RecordNumber>)
    ensures Canonical(canonical) && SameElements(canonical, numbers) && |canonical| <= |numbers|
    ensures Canonical(numbers) ==> canonical == numbers
  {
    var i := 1;
    while i < |numbers| && Less(numbers[i - 1], numbers[i])
      invariant 1 <= i && (i <= |numbers| || |numbers| == 0)
      invariant |numbers| > 0 ==> Canonical(numbers[..i])
    {
      assert numbers[..i + 1] == numbers[..i] + [numbers[i]];
      i := i + 1;
    }
    if i >= |numbers| {
      assert |numbers| > 0 ==> numbers[..i] == numbers;
      return numbers;
    }
    var sorted := SortNumbers(numbers);
    canonical := Dedup(sorted);
  }

  lemma TailElements(a: seq<RecordNumber>)
    requires Canonical(a) && a != []
    ensures forall n :: n in a[1..] <==> n in a && n != a[0]
  {
    assert a == [a[0]] + a[1..];
    forall n | n in a[1..] ensures n != a[0] {
      var k :| 0 <= k < |a[1..]| && a[1..][k] == n;
      assert Less(a[0], a[k + 1]);
    }
  }

  /** There is one canonical list with given elements. */
  lemma {:induction false} CanonicalIsUnique(a: seq<RecordNumber>, b: seq<RecordNumber>)
    requires Canonical(a) && Canonical(b) && SameElements(a, b)
    ensures a == b
  {
    assert a != [] ==> a[0] in a;
    assert b != [] ==> b[0] in b;
    if a != [] {
      var j :| 0 <= j < |b| && b[j] == a[0];
      var i :| 0 <= i < |a| && a[i] == b[0];
      assert i == 0 && j == 0;
      TailElements(a);
      TailElements(b);
      CanonicalIsUnique(a[1..], b[1..]);
      assert a == [a[0]] + a[1..] && b == [b[0]] + b[1..];
    }
  }

  // ---------------------------------------------------------------- codec

  predicate Fits(n: RecordNumber) {
    n.epoch < U64_LIMIT && n.sequence < U64_LIMIT
  }

  function PutNumber(n: RecordNumber): (b: Bytes)
    ensures |b| == 16
  {
    PutUint(n.epoch, 8) + PutUint(n.sequence, 8)
  }

  function PutNumbers(numbers: seq<RecordNumber>): (b: Bytes)
    ensures |b| == 16 * |numbers|
  {
    if numbers == [] then [] else PutNumber(numbers[0]) + PutNumbers(numbers[1..])
  }

  /** Encoding of a list that is already canonical; too many entries are an error. */
  function Marshal(numbers: seq<RecordNumber>): Option<Bytes> {
    if |numbers| > MAX_ENTRIES then None else Some(PutUint(16 * |numbers|, 2) + PutNumbers(numbers))
  }

  function GetNumber(b: Bytes): RecordNumber
    requires |b| >= 16
  {
    RecordNumber(GetUint(b[..8]), GetUint(b[8..16]))
  }

  function GetNumbers(b: Bytes): (numbers: seq<RecordNumber>)
    requires |b| % 16 == 0
    ensures |numbers| == |b| / 16
    decreases |b|
  {
    if b == [] then [] else [GetNumber(b)] + GetNumbers(b[16..])
  }

  predicate Increasing(numbers: seq<RecordNumber>) {
    forall i :: 0 < i < |numbers| ==> Less(numbers[i - 1], numbers[i])
  }

  function Parse(b: Bytes): Option<seq<RecordNumber>> {
    if |b| < 2 then None
    else
      var n := GetUint(b[..2]);
      if n % 16 != 0 || n != |b| - 2 then None
      else
        var numbers := GetNumbers(b[2..]);
        if Increasing(numbers) then Some(numbers) else None
  }

  lemma {:induction false} GetPutNumbers(numbers: seq<RecordNumber>)
    requires forall n :: n in numbers ==> Fits(n)
    ensures GetNumbers(PutNumbers(numbers)) == numbers
  {
    if numbers != [] {
      var n, rest := numbers[0], numbers[1..];
      assert n in numbers && Fits(n);
      RadixValues();
      GetPut(n.epoch, 8);
      GetPut(n.sequence, 8);
      var b := PutNumbers(numbers);
      assert b[..8] == PutUint(n.epoch, 8) && b[8..16] == PutUint(n.sequence, 8) && b[16..] == PutNumbers(rest);
      GetPutNumbers(rest);
      assert numbers == [n] + rest;
    }
  }

  lemma {:induction false} PutGetNumbers(b: Bytes)
    requires |b| % 16 == 0
    ensures PutNumbers(GetNumbers(b)) == b
    ensures forall n :: n in GetNumbers(b) ==> Fits(n)
    decreases |b|
  {
    if b != [] {
      RadixValues();
      PutGet(b[..8]);
      PutGet(b[8..16]);
      PutGetNumbers(b[16..]);
      assert GetNumbers(b)[1..] == GetNumbers(b[16..]);
      assert b == b[..8] + b[8..16] + b[16..];
    }
  }

  lemma {:induction false} IncreasingIsCanonical(numbers: seq<RecordNumber>)
    ensures Increasing(numbers) <==> Canonical(numbers)
  {
    if Increasing(numbers) && |numbers| > 1 {
      var last := |numbers| - 1;
      IncreasingIsCanonical(numbers[..last]);
      assert Less(numbers[last - 1], numbers[last]);
      forall i | 0 <= i < last ensures Less(numbers[i], numbers[last]) {
        assert i < last - 1 ==> Less(numbers[..last][i], numbers[..last][last - 1]);
      }
      assert forall i, j :: 0 <= i < j < last ==> numbers[..last][i] == numbers[i] && numbers[..last][j] == numbers[j];
    }
  }

  /** Every canonical list that fits parses back to itself. */
  lemma ParseMarshal(numbers: seq<RecordNumber>)
    requires Canonical(numbers) && |numbers| <= MAX_ENTRIES && forall n :: n in numbers ==> Fits(n)
    ensures Marshal(numbers).Some? && Parse(Marshal(numbers).value) == Some(numbers)
  {
    var b := Marshal(numbers).value;
    RadixValues();
    GetPut(16 * |numbers|, 2);
    assert b[..2] == PutUint(16 * |numbers|, 2) && b[2..] == PutNumbers(numbers);
    GetPutNumbers(numbers);
    IncreasingIsCanonical(numbers);
  }

  /** An ACK (section 7 of RFC 9147): the length of the list, then epoch and sequence number of each record. */
  lemma AckLayout(numbers: seq<RecordNumber>, i: nat)
    requires |numbers| <= 4095 && i < |numbers| && Fits(numbers[i])
    ensures Marshal(numbers).Some?
    ensures var b, at := Marshal(numbers).value, 2 + 16 * i;
            && |b| == 2 + 16 * |numbers| && GetUint(b[..2]) == 16 * |numbers|
            && GetUint(b[at..at + 8]) == numbers[i].epoch && GetUint(b[at + 8..at + 16]) == numbers[i].sequence
  {
    RadixValues();
    var b := Marshal(numbers).value;
    GetPut(16 * |numbers|, 2);
    assert b[..2] == PutUint(16 * |numbers|, 2) && b[2..] == PutNumbers(numbers);
    EntryBytes(numbers, i);
    var entry := PutNumber(numbers[i]);
    assert b[2 + 16 * i..2 + 16 * i + 8] == b[2..][16 * i..16 * i + 16][..8] == entry[..8];
    assert b[2 + 16 * i + 8..2 + 16 * i + 16] == b[2..][16 * i..16 * i + 16][8..] == entry[8..];
    GetPut(numbers[i].epoch, 8);
    GetPut(numbers[i].sequence, 8);
    assert entry[..8] == PutUint(numbers[i].epoch, 8) && entry[8..] == PutUint(numbers[i].sequence, 8);
  }

  lemma {:induction false} EntryBytes(numbers: seq<RecordNumber>, i: nat)
    requires i < |numbers|
    ensures 16 * i + 16 <= |PutNumbers(numbers)|
    ensures PutNumbers(numbers)[16 * i..16 * i + 16] == PutNumber(numbers[i])
  {
    hide PutNumber;
    var all, rest := PutNumbers(numbers), PutNumbers(numbers[1..]);
    assert all[..16] == PutNumber(numbers[0]) && all[16..] == rest;
    if i > 0 {
      EntryBytes(numbers[1..], i - 1);
      assert all[16 * i..16 * i + 16] == rest[16 * i - 16..16 * i];
    }
  }

  /** Accepted bytes are the one encoding of the canonical list they parse to. */
  lemma MarshalParse(b: Bytes)
    requires Parse(b).Some?
    ensures Canonical(Parse(b).value) && Marshal(Parse(b).value) == Some(b)
    ensures forall n :: n in Parse(b).value ==> Fits(n)
  {
    RadixValues();
    PutGet(b[..2]);
    PutGetNumbers(b[2..]);
    IncreasingIsCanonical(Parse(b).value);
    assert b == b[..2] + b[2..];
  }

  // ---------------------------------------------------------------- records

  /**
   * What surrounds the ACK payload: a plaintext record, or a cipher with its header, tag, content limit and counter.
   */
  datatype Link =
    | Plain(nextSequence: nat)
    | Sealed(headerLen: nat, tag: nat, maxContent: nat, nextSequence: nat, recordLimit: nat)

  function Overhead(link: Link): nat {
    match link
    case Plain(_) => PLAIN_HEADER
    case Sealed(headerLen, tag, _, _, _) => headerLen + tag + 1
  }

  function ContentLimit(link: Link): nat {
    if link.Plain? then MAX_RECORD_CONTENT else link.maxContent
  }

  function MaxEntries(link: Link, mtu: nat): int {
    var fits := Truncated(mtu - (Overhead(link) + 2));
    var allowed := Truncated(ContentLimit(link) - 2);
    if fits > allowed then allowed else fits
  }

  /** Division by 16 that rounds towards zero. */
  function Truncated(n: int): int {
    if n >= 0 then n / 16 else -(-n / 16)
  }

  predicate CanSend(link: Link) {
    match link
    case Plain(nextSequence) => nextSequence < U48_LIMIT
    case Sealed(_, _, _, nextSequence, recordLimit) => nextSequence < U48_LIMIT && nextSequence < recordLimit
  }

  datatype AckRecord = AckRecord(sequence: nat, numbers: seq<RecordNumber>, length: nat)

  datatype BuildError = MtuTooSmall | Exhausted | Oversize

  datatype Built = Records(records: seq<AckRecord>) | BuildFailed(error: BuildError)

  function Listed(records: seq<AckRecord>): seq<RecordNumber> {
    if records == [] then [] else Listed(records[..|records| - 1]) + records[|records| - 1].numbers
  }

  function At(link: Link, sent: nat): Link {
    link.(nextSequence := link.nextSequence + sent)
  }

  function AckLength(link: Link, count: nat): nat {
    Overhead(link) + 2 + 16 * count
  }

  /** `count` entries fit both the MTU and the content limit. */
  predicate Room(link: Link, mtu: nat, count: int) {
    count <= 0 || (AckLength(link, count) <= mtu && 2 + 16 * count <= ContentLimit(link))
  }

  /** The record `index` places into the batch takes the next unused sequence number and fits. */
  ghost predicate GoodRecord(record: AckRecord, index: nat, link: Link, mtu: nat, maxEntries: int) {
    && CanSend(At(link, index))
    && record.sequence == link.nextSequence + index
    && |record.numbers| <= maxEntries
    && record.length == AckLength(link, |record.numbers|) <= mtu
    && 2 + 16 * |record.numbers| <= ContentLimit(link)
  }

  ghost predicate WellBuilt(records: seq<AckRecord>, link: Link, mtu: nat, maxEntries: int) {
    forall i :: 0 <= i < |records| ==> GoodRecord(records[i], i, link, mtu, maxEntries)
  }

  /** Every record but the last is full, and none is empty. */
  ghost predicate Packed(records: seq<AckRecord>, maxEntries: int) {
    && (forall i :: 0 <= i < |records| ==> records[i].numbers != [])
    && (forall i :: 0 <= i < |records| - 1 ==> |records[i].numbers| == maxEntries)
  }

  /** MaxEntries is the largest count with room for it, whenever one entry fits at all. */
  lemma MaxEntriesIsLargest(link: Link, mtu: nat)
    ensures MaxEntries(link, mtu) < 1 <==> !Room(link, mtu, 1)
    ensures MaxEntries(link, mtu) >= 1 ==>
              Room(link, mtu, MaxEntries(link, mtu)) && !Room(link, mtu, MaxEntries(link, mtu) + 1)
  {}

  lemma ListedAppend(records: seq<AckRecord>, record: AckRecord)
    ensures Listed(records + [record]) == Listed(records) + record.numbers
  {
    assert (records + [record])[..|records|] == records;
  }

  /** Builds the record for one chunk. The check against the MTU never fires. */
  method BuildRecord(chunk: seq<RecordNumber>, index: nat, mtu: nat, link: Link, maxEntries: int) returns (built: Built)
    requires 1 <= maxEntries && Room(link, mtu, maxEntries) && |chunk| <= maxEntries
    ensures !CanSend(At(link, index)) ==> built == BuildFailed(Exhausted)
    ensures CanSend(At(link, index)) ==>
              && built.Records? && |built.records| == 1 && built.records[0].numbers == chunk
              && GoodRecord(built.records[0], index, link, mtu, maxEntries)
  {
    if !CanSend(At(link, index)) { return BuildFailed(Exhausted); }
    var length := AckLength(link, |chunk|);
    if length > mtu { return BuildFailed(Oversize); }
    return Records([AckRecord(link.nextSequence + index, chunk, length)]);
  }

  lemma AppendKeeps(records: seq<AckRecord>, record: AckRecord, link: Link, mtu: nat, maxEntries: int)
    requires WellBuilt(records, link, mtu, maxEntries) && Packed(records, maxEntries)
    requires GoodRecord(record, |records|, link, mtu, maxEntries) && record.numbers != []
    requires records != [] ==> |records[|records| - 1].numbers| == maxEntries
    ensures WellBuilt(records + [record], link, mtu, maxEntries) && Packed(records + [record], maxEntries)
  {}

  lemma OneMore(list: seq<RecordNumber>, start: nat, end: nat, records: seq<AckRecord>, record: AckRecord)
    requires start <= end <= |list| && Listed(records) == list[..start] && record.numbers == list[start..end]
    ensures Listed(records + [record]) == list[..end]
  {
    ListedAppend(records, record);
    assert list[..end] == list[..start] + list[start..end];
  }

  /** Cuts a non-empty canonical list into records. */
  method Divide(list: seq<RecordNumber>, mtu: nat, link: Link, maxEntries: int) returns (built: Built)
    requires list != [] && 1 <= maxEntries && Room(link, mtu, maxEntries)
    ensures built.BuildFailed? ==> built.error == Exhausted && exists k: nat :: k < |list| && !CanSend(At(link, k))
    ensures built.Records? ==>
              && Listed(built.records) == list
              && WellBuilt(built.records, link, mtu, maxEntries) && Packed(built.records, maxEntries)
  {
    var records: seq<AckRecord> := [];
    var start := 0;
    while start < |list|
      invariant 0 <= start <= |list| && |records| <= start
      invariant Listed(records) == list[..start]
      invariant WellBuilt(records, link, mtu, maxEntries) && Packed(records, maxEntries)
      invariant start < |list| && records != [] ==> |records[|records| - 1].numbers| == maxEntries
    {
      var end := if start + maxEntries < |list| then start + maxEntries else |list|;
      var one := BuildRecord(list[start..end], |records|, mtu, link, maxEntries);
      if one.BuildFailed? { return one; }
      OneMore(list, start, end, records, one.records[0]);
      AppendKeeps(records, one.records[0], link, mtu, maxEntries);
      records := records + [one.records[0]];
      start := end;
    }
    assert list[..start] == list;
    return Records(records);
  }

  /**
   * The records carry the acknowledged numbers once each, in order, and all but the last are full. With nothing to
   * acknowledge one empty ACK is built. The only failures are an MTU with no room for one entry and used-up numbers.
   */
  method BuildRecords(numbers: seq<RecordNumber>, mtu: nat, link: Link) returns (built: Built)
    ensures built == BuildFailed(MtuTooSmall) <==> !Room(link, mtu, 1)
    ensures built != BuildFailed(Oversize)
    ensures built == BuildFailed(Exhausted) ==> exists k: nat :: (k == 0 || k < |numbers|) && !CanSend(At(link, k))
    ensures built.Records? ==>
              && Canonical(Listed(built.records)) && SameElements(Listed(built.records), numbers)
              && WellBuilt(built.records, link, mtu, MaxEntries(link, mtu))
              && (if numbers == [] then |built.records| == 1 else Packed(built.records, MaxEntries(link, mtu)))
  {
    var maxEntries := MaxEntries(link, mtu);
    MaxEntriesIsLargest(link, mtu);
    if maxEntries < 1 { return BuildFailed(MtuTooSmall); }
    var list := CanonicalNumbers(numbers);
    assert numbers != [] ==> numbers[0] in list;
    if |list| == 0 {
      built := BuildRecord([], 0, mtu, link, maxEntries);
      if built.Records? { ListedAppend([], built.records[0]); assert [] + [built.records[0]] == built.records; }
      return;
    }
    assert list[0] in numbers;
    built := Divide(list, mtu, link, maxEntries);
  }
}
