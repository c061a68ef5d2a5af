/** The reassembler's buffers: a byte array and a bitmap per message, with a word-at-a-time fast path. */
module ReassemblyObject {
  import opened Wire
  import opened Bits
  import opened Bitmaps
  import opened Fragments
  import opened Reassembly

  lemma {:induction false} CoveredAfterFreshFill(cells: Cells, at: nat, body: Bytes)
    requires at + |body| <= |cells| && forall k :: at <= k < at + |body| ==> cells[k].None?
    ensures Covered(Fill(cells, at, body).0) == Covered(cells) + |body|
    decreases |body|
  {
    if body != [] {
      CoveredAfterSet(cells, at, body[0]);
      CoveredAfterFreshFill(cells[at := Some(body[0])], at + 1, body[1..]);
    }
  }

  /** What a buffer and its bitmap stand for. */
  ghost function CellsOf(data: Bytes, received: seq<bv64>): (cells: Cells)
    requires |received| == Words(|data|)
    ensures |cells| == |data|
  {
    seq(|data|, i requires 0 <= i < |data| => if Has(received, i) then Some(data[i]) else None)
  }

  lemma CellsOfZero(data: Bytes, received: seq<bv64>)
    requires |received| == Words(|data|) && forall i :: 0 <= i < |received| ==> received[i] == 0
    ensures CellsOf(data, received) == Empty(|data|)
  {
    forall i | 0 <= i < |data| ensures !Has(received, i) { ZeroHasNoBits(0); }
  }

  lemma CellsAfterByte(data: Bytes, received: seq<bv64>, k: nat, v: Byte)
    requires |received| == Words(|data|) && k < |data|
    ensures CellsOf(data[k := v], received[k / 64 := Or(received[k / 64], One(k % 64))])
            == CellsOf(data, received)[k := Some(v)]
  {
    var after := received[k / 64 := Or(received[k / 64], One(k % 64))];
    forall i | 0 <= i < |data| ensures Has(after, i) <==> Has(received, i) || i == k {
      BitOfOr(received[k / 64], One(k % 64), i % 64);
      BitOfOne(i % 64, k % 64);
      assert i == i / 64 * 64 + i % 64 && k == k / 64 * 64 + k % 64;
    }
  }

  lemma CellsAfterSeenByte(data: Bytes, received: seq<bv64>, k: nat, v: Byte)
    requires |received| == Words(|data|) && k < |data| && Has(received, k)
    ensures CellsOf(data[k := v], received) == CellsOf(data, received)[k := Some(v)]
  {}

  lemma CellsAfterRange(data: Bytes, received: seq<bv64>, data': Bytes, received': seq<bv64>, at: nat, body: Bytes)
    requires |received| == Words(|data|) == |received'| && |data'| == |data| && at + |body| <= |data|
    requires forall i :: 0 <= i < |data| ==> data'[i] == if at <= i < at + |body| then body[i - at] else data[i]
    requires forall i :: 0 <= i < |data| ==> (Has(received', i) <==> Has(received, i) || at <= i < at + |body|)
    ensures CellsOf(data', received') == Written(CellsOf(data, received), at, body)
  {}

  /** The same fill, by position in the body. */
  ghost function FillFrom(cells: Cells, at: nat, body: Bytes, i: nat): (Cells, bool)
    requires at + |body| <= |cells| && i <= |body|
    decreases |body| - i
  {
    if i == |body| then (cells, true)
    else if cells[at + i].Some? && cells[at + i].value != body[i] then (cells, false)
    else FillFrom(cells[at + i := Some(body[i])], at, body, i + 1)
  }

  lemma {:induction false} FillFromIsFill(cells: Cells, at: nat, body: Bytes, i: nat)
    requires at + |body| <= |cells| && i <= |body|
    ensures FillFrom(cells, at, body, i) == Fill(cells, at + i, body[i..])
    decreases |body| - i
  {
    if i < |body| {
      assert body[i..][0] == body[i] && body[i..][1..] == body[i + 1..];
      FillFromIsFill(cells[at + i := Some(body[i])], at, body, i + 1);
    }
  }

  class PartialMessage {
    const typ: Byte
    const epoch: nat
    const hasEpoch: bool
    const data: array<Byte>
    const received: array<bv64>
    var count: nat

    /** What the buffer and the bitmap stand for. */
    ghost var cells: Cells

    ghost predicate Valid()
      reads this, data, received
    {
      && received.Length == Words(data.Length) && data as object != received as object
      && cells == CellsOf(data[..], received[..]) && count == Covered(cells)
    }

    ghost function Value(): Partial
      reads this
    {
      Partial(typ, epoch, hasEpoch, cells)
    }

    constructor (typ: Byte, epoch: nat, hasEpoch: bool, length: nat)
      ensures Valid() && fresh(data) && fresh(received) && data.Length == length
      ensures this.typ == typ && this.epoch == epoch && this.hasEpoch == hasEpoch && cells == Empty(length)
    {
      this.typ, this.epoch, this.hasEpoch, count, cells := typ, epoch, hasEpoch, 0, Empty(length);
      data := new Byte[length];
      received := new bv64[Words(length)](i => 0);
      new;
      CellsOfZero(data[..], received[..]);
      CoveredEmpty(length);
    }

    /** Both paths are the byte-by-byte fill: the first when no byte of the range was received, the second otherwise. */
    method AddBytes(at: nat, body: Bytes) returns (ok: bool)
      requires Valid() && at + |body| <= data.Length
      modifies this, data, received
      ensures Valid()
      ensures (cells, ok) == Fill(old(cells), at, body)
    {
      var clear := RangeClear(received, at, at + |body|);
      if clear {
        AddFresh(at, body);
        ok := true;
      } else {
        ok := AddOverlapping(at, body);
      }
    }

    method AddFresh(at: nat, body: Bytes)
      requires Valid() && at + |body| <= data.Length
      requires forall k :: at <= k < at + |body| ==> !Has(received[..], k)
      modifies this, data, received
      ensures Valid()
      ensures (cells, true) == Fill(old(cells), at, body)
    {
      FillMeaning(cells, at, body);
      CoveredAfterFreshFill(cells, at, body);
      forall i | at <= i < at + |body| { data[i] := body[i - at]; }
      SetRange(received, at, at + |body|);
      count := count + |body|;
      CellsAfterRange(old(data[..]), old(received[..]), data[..], received[..], at, body);
      cells := Fill(cells, at, body).0;
    }

    method AddOverlapping(at: nat, body: Bytes) returns (ok: bool)
      requires Valid() && at + |body| <= data.Length
      modifies this, data, received
      ensures Valid()
      ensures (cells, ok) == Fill(old(cells), at, body)
    {
      hide CellsOf, Covered;
      ghost var result := FillFrom(cells, at, body, 0);
      FillFromIsFill(cells, at, body, 0);
      assert body[0..] == body;
      var i := 0;
      while i < |body|
        invariant i <= |body| && Valid() && |cells| == data.Length
        invariant result == FillFrom(cells, at, body, i)
      {
        var same := AddByte(at + i, body[i]);
        if !same { return false; }
        i := i + 1;
      }
      return true;
    }

    /** A byte that was received before must be the same. */
    method AddByte(k: nat, v: Byte) returns (same: bool)
      requires Valid() && k < data.Length
      modifies this, data, received
      ensures Valid() && same == (old(cells)[k].None? || old(cells)[k] == Some(v))
      ensures cells == if same then old(cells)[k := Some(v)] else old(cells)
    {
      var seen := Seen(k);
      if seen && data[k] != v { return false; }
      StoreByte(k, v, seen);
      return true;
    }

    method Seen(k: nat) returns (seen: bool)
      requires Valid() && k < data.Length
      ensures seen == Has(received[..], k)
      ensures cells[k] == if seen then Some(data[k]) else None
    {
      seen := Meets(received[k / 64], One(k % 64));
    }

    method StoreByte(k: nat, v: Byte, seen: bool)
      requires Valid() && k < data.Length && seen == Has(received[..], k)
      modifies this, data, received
      ensures Valid()
      ensures cells == old(cells)[k := Some(v)]
    {
      CoveredAfterSet(cells, k, v);
      if !seen {
        CellsAfterByte(data[..], received[..], k, v);
        received[k / 64] := Or(received[k / 64], One(k % 64));
        count := count + 1;
      } else {
        CellsAfterSeenByte(data[..], received[..], k, v);
      }
      data[k] := v;
      assert data[..] == old(data[..])[k := v];
      assert !seen ==> received[..] == old(received[..])[k / 64 := Or(old(received[..])[k / 64], One(k % 64))];
      cells := cells[k := Some(v)];
    }
  }

  ghost predicate AtHome(p: PartialMessage, k: nat, home: map<object, nat>) {
    && p in home && home[p] == k && p.data in home && home[p.data] == k && p.received in home && home[p.received] == k
  }

  /** A message whose parts all lie at home under `k`, and stand for `value`. */
  ghost predicate Stands(p: PartialMessage, k: nat, home: map<object, nat>, value: Partial)
    reads p, p.data, p.received
  {
    AtHome(p, k, home) && p.Valid() && p.Value() == value
  }

  /** Every message lies at home under its own number, so no two share a buffer, and stands for its value. */
  ghost predicate Sound(messages: map<nat, PartialMessage>, store: map<nat, Partial>, home: map<object, nat>)
    requires messages.Keys == store.Keys
    reads home.Keys
  {
    && (forall k :: k in messages ==> AtHome(messages[k], k, home))
    && (forall k :: k in messages ==> Stands(messages[k], k, home, store[k]))
  }

  /** The home of a new message: its own object, its buffer and its bitmap. */
  ghost function Housed(home: map<object, nat>, p: PartialMessage, sequence: nat): map<object, nat> {
    home[p := sequence][p.data := sequence][p.received := sequence]
  }

  lemma SoundWith(messages: map<nat, PartialMessage>, store: map<nat, Partial>, home: map<object, nat>,
                  p: PartialMessage, sequence: nat)
    requires messages.Keys == store.Keys && Sound(messages, store, home) && sequence !in messages && p.Valid()
    requires p !in home && p.data !in home && p.received !in home
    ensures Sound(messages[sequence := p], store[sequence := p.Value()], Housed(home, p, sequence))
  {
    hide CellsOf, Covered;
    var home' := Housed(home, p, sequence);
    forall k | k in messages ensures Stands(messages[k], k, home', store[k]) {
      assert Stands(messages[k], k, home, store[k]);
    }
  }

  lemma SoundAt(messages: map<nat, PartialMessage>, store: map<nat, Partial>, home: map<object, nat>, sequence: nat)
    requires messages.Keys == store.Keys && Sound(messages, store, home) && sequence in messages
    ensures sequence in store && messages[sequence].Valid() && messages[sequence].Value() == store[sequence]
  {
    assert Stands(messages[sequence], sequence, home, store[sequence]);
  }

  lemma SoundWithout(messages: map<nat, PartialMessage>, store: map<nat, Partial>, home: map<object, nat>,
                     sequence: nat)
    requires messages.Keys == store.Keys && Sound(messages, store, home)
    ensures (messages - {sequence}).Keys == (store - {sequence}).Keys
            && Sound(messages - {sequence}, store - {sequence}, home)
  {
    forall k | k in messages - {sequence} ensures Stands(messages[k], k, home, store[k]) {}
  }

  /** Adds the bytes to one message; every other message keeps its own buffers. */
  method AddBytesAt(messages: map<nat, PartialMessage>, f: Fragment, ghost store: map<nat, Partial>,
                    ghost home: map<object, nat>)
    returns (ok: bool)
    requires messages.Keys == store.Keys && Sound(messages, store, home) && f.sequence in messages
             && f.offset + |f.body| <= |store[f.sequence].cells|
    modifies home.Keys
    ensures var (cells, fits) := Fill(store[f.sequence].cells, f.offset, f.body);
            ok == fits && Sound(messages, store[f.sequence := store[f.sequence].(cells := cells)], home)
  {
    var p := messages[f.sequence];
    assert Stands(p, f.sequence, home, store[f.sequence]);
    ok := p.AddBytes(f.offset, f.body);
  }

  lemma FullBytes(data: Bytes, received: seq<bv64>)
    requires |received| == Words(|data|) && Full(CellsOf(data, received))
    ensures BytesOf(CellsOf(data, received)) == data
  {
    forall i | 0 <= i < |data| ensures BytesOf(CellsOf(data, received))[i] == data[i] {
      assert CellsOf(data, received)[i].Some?;
    }
  }

  method SameMessage(p: PartialMessage, f: Fragment, epoch: nat, protected: bool, ghost value: Partial)
    returns (same: bool)
    requires p.Valid() && p.Value() == value
    ensures same == (value.typ == f.typ && |value.cells| == f.length && SameEpoch(value, epoch, protected))
  {
    same := p.typ == f.typ && p.data.Length == f.length && p.hasEpoch == protected && (protected ==> p.epoch == epoch);
  }

  method TakeBody(p: PartialMessage, ghost value: Partial) returns (full: bool, body: Bytes)
    requires p.Valid() && p.Value() == value
    ensures full == Full(value.cells) && (full ==> body == BytesOf(value.cells))
  {
    CoveredIsFull(p.cells);
    full := p.count == p.data.Length;
    body := if full then p.data[..] else [];
    if full { FullBytes(p.data[..], p.received[..]); }
  }

  /** The mutable store: a buffer and a bitmap for each incomplete message. */
  class Reassembler {
    const limits: Limits
    var messages: map<nat, PartialMessage>
    var reserved: int

    /** The values of the messages, and the message to which each object belongs. */
    ghost var store: map<nat, Partial>
    ghost var home: map<object, nat>

    ghost predicate Valid()
      reads this, home.Keys
    {
      this !in home && messages.Keys == store.Keys && Sound(messages, store, home)
    }

    ghost function View(): Store
      reads this
    {
      Store(store, reserved)
    }

    constructor (limits: Limits)
      ensures Valid() && home == map[] && View() == Store(map[], 0) && this.limits == limits
    {
      this.limits, messages, reserved, store, home := limits, map[], 0, map[], map[];
    }

    method AddFragment(f: Fragment, epoch: nat, protected: bool) returns (outcome: Outcome)
      requires Valid() && f.offset + |f.body| <= f.length
      modifies this, home.Keys
      ensures Valid() && fresh(home.Keys - old(home).Keys)
      ensures (View(), outcome) == Add(old(View()), f, epoch, protected, limits)
    {
      if f.length > limits.maxSize { return Failed; }
      if f.sequence in messages {
        outcome := AddToExisting(f, epoch, protected);
      } else {
        outcome := AddToNew(f, epoch, protected);
      }
    }

    method AddToNew(f: Fragment, epoch: nat, protected: bool) returns (outcome: Outcome)
      requires Valid() && f.offset + |f.body| <= f.length <= limits.maxSize && f.sequence !in messages
      modifies this, home.Keys
      ensures Valid() && fresh(home.Keys - old(home).Keys)
      ensures (View(), outcome) == Add(old(View()), f, epoch, protected, limits)
    {
      hide Sound, AddTo;
      assert |messages.Keys| == |store.Keys|;
      if |messages| >= limits.maxMessages { return Failed; }
      if reserved + f.length > limits.maxBytes { return Failed; }
      if f.offset == 0 && |f.body| == f.length { return Complete(f.body); }
      Insert(f, epoch, protected);
      outcome := AddToExisting(f, epoch, protected);
    }

    method Insert(f: Fragment, epoch: nat, protected: bool)
      requires Valid() && f.sequence !in messages
      modifies this
      ensures Valid() && f.sequence in messages && fresh(home.Keys - old(home).Keys)
      ensures View()
              == Store(old(store)[f.sequence := Partial(f.typ, epoch, protected, Empty(f.length))],
                       old(reserved) + f.length)
    {
      hide Sound;
      var p := new PartialMessage(f.typ, epoch, protected, f.length);
      SoundWith(messages, store, home, p, f.sequence);
      home := Housed(home, p, f.sequence);
      store := store[f.sequence := p.Value()];
      messages := messages[f.sequence := p];
      reserved := reserved + f.length;
    }

    method AddToExisting(f: Fragment, epoch: nat, protected: bool) returns (outcome: Outcome)
      requires Valid() && f.offset + |f.body| <= f.length && f.sequence in messages
      modifies this, home.Keys
      ensures Valid() && home == old(home)
      ensures (View(), outcome) == AddTo(old(View()), old(store)[f.sequence], f, epoch, protected)
    {
      hide Sound;
      SoundAt(messages, store, home, f.sequence);
      var same := SameMessage(messages[f.sequence], f, epoch, protected, store[f.sequence]);
      if !same { return Failed; }
      var ok := AddBytesAt(messages, f, store, home);
      ghost var p := store[f.sequence];
      store := store[f.sequence := p.(cells := Fill(p.cells, f.offset, f.body).0)];
      if !ok { return Failed; }
      assert store - {f.sequence} == old(store) - {f.sequence};
      outcome := Finish(f.sequence);
    }

    /** A message whose last gap was filled is handed out and its bytes are released. */
    method Finish(sequence: nat) returns (outcome: Outcome)
      requires Valid() && sequence in messages
      modifies this
      ensures Valid() && home == old(home)
      ensures var cells := old(store)[sequence].cells;
              (View(), outcome)
              == if Full(cells)
                 then (Store(old(store) - {sequence}, old(reserved) - |cells|), Complete(BytesOf(cells)))
                 else (old(View()), Incomplete)
    {
      hide Sound;
      SoundAt(messages, store, home, sequence);
      var full, body := TakeBody(messages[sequence], store[sequence]);
      if !full { return Incomplete; }
      SoundWithout(messages, store, home, sequence);
      reserved := reserved - |body|;
      store := store - {sequence};
      messages := messages - {sequence};
      return Complete(body);
    }
  }
}
