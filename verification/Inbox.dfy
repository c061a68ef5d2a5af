/** In-order delivery on top of reassembly: complete messages wait until every earlier one has arrived. */
module InOrderInbox {
  import opened Wire
  import opened Fragments
  import opened Reassembly
  import ReassemblyObject

  /** `expected` is the 16-bit next_receive_seq; `ready` holds complete messages that are still early. */
  datatype Inbox = Inbox(expected: nat, store: Store, ready: map<nat, Message>, readyBytes: int)

  datatype Delivery = Rejected | Delivered(messages: seq<Message>)

  function NewInbox(expected: nat): Inbox {
    Inbox(expected, Store(map[], 0), map[], 0)
  }

  function Successor(sequence: nat): nat {
    (sequence + 1) % U16_LIMIT
  }

  /** The inbox after its awaited message was handed out. */
  function Popped(i: Inbox): (after: Inbox)
    requires i.expected in i.ready
    ensures |after.ready| < |i.ready|
  {
    assert (i.ready - {i.expected}).Keys == i.ready.Keys - {i.expected};
    i.(ready := i.ready - {i.expected}, readyBytes := i.readyBytes - |i.ready[i.expected].body|,
       expected := Successor(i.expected))
  }

  /** Hands out consecutive ready messages. */
  function Drain(i: Inbox): (result: (Inbox, seq<Message>))
    decreases |i.ready|
  {
    if i.expected !in i.ready then (i, [])
    else
      var (after, rest) := Drain(Popped(i));
      (after, [i.ready[i.expected]] + rest)
  }

  /** What happens to a message that has just been completed. */
  function Take(i: Inbox, m: Message, limits: Limits): (Inbox, Delivery) {
    if |i.ready| >= limits.maxMessages || i.readyBytes + |m.body| > limits.maxBytes then (i, Rejected)
    else if m.sequence != i.expected then
      (i.(ready := i.ready[m.sequence := m], readyBytes := i.readyBytes + |m.body|), Delivered([]))
    else
      var (after, rest) := Drain(i.(expected := Successor(i.expected)));
      (after, Delivered([m] + rest))
  }

  function Settle(i: Inbox, f: Fragment, outcome: Outcome, limits: Limits): (Inbox, Delivery) {
    match outcome
    case Failed => (i, Rejected)
    case Incomplete => (i, Delivered([]))
    case Complete(body) => Take(i, Message(f.typ, f.sequence, body), limits)
  }

  function Receive(i: Inbox, f: Fragment, epoch: nat, protected: bool, limits: Limits): (Inbox, Delivery)
    requires f.offset + |f.body| <= f.length
  {
    if f.sequence < i.expected || f.sequence in i.ready then (i, Delivered([]))
    else
      var (store, outcome) := Add(i.store, f, epoch, protected, limits);
      Settle(i.(store := store), f, outcome, limits)
  }

  class HandshakeInbox {
    const reassembler: ReassemblyObject.Reassembler
    var expected: nat
    var ready: map<nat, Message>
    var readyBytes: int

    ghost predicate Valid()
      reads this, reassembler, reassembler.home.Keys
    {
      reassembler.Valid() && this !in reassembler.home
    }

    ghost function View(): Inbox
      reads this, reassembler
    {
      Inbox(expected, reassembler.View(), ready, readyBytes)
    }

    constructor (expected: nat, limits: Limits)
      ensures Valid() && fresh(reassembler) && reassembler.home == map[]
      ensures View() == NewInbox(expected) && reassembler.limits == limits
    {
      this.expected, ready, readyBytes := expected, map[], 0;
      reassembler := new ReassemblyObject.Reassembler(limits);
    }

    /** Delivered messages are appended to the caller's batch, which survives a rejected fragment. */
    method ReceiveFragment(batch: seq<Message>, f: Fragment, epoch: nat, protected: bool)
      returns (ok: bool, out: seq<Message>)
      requires Valid() && f.offset + |f.body| <= f.length
      modifies this, reassembler, reassembler.home.Keys
      ensures Valid() && fresh(reassembler.home.Keys - old(reassembler.home).Keys)
      ensures var (after, delivery) := Receive(old(View()), f, epoch, protected, reassembler.limits);
              && View() == after && ok == delivery.Delivered?
              && out == (if ok then batch + delivery.messages else batch)
    {
      hide ReassemblyObject.Sound, Add, Take;
      out := batch;
      if f.sequence < expected || f.sequence in ready { return true, batch; }
      var outcome := reassembler.AddFragment(f, epoch, protected);
      if outcome.Failed? { return false, batch; }
      if outcome.Incomplete? { return true, batch; }
      ok, out := TakeMessage(batch, Message(f.typ, f.sequence, outcome.body));
    }

    method TakeMessage(batch: seq<Message>, m: Message) returns (ok: bool, out: seq<Message>)
      requires Valid()
      modifies this
      ensures Valid()
      ensures var (after, delivery) := Take(old(View()), m, reassembler.limits);
              && View() == after && ok == delivery.Delivered?
              && out == (if ok then batch + delivery.messages else batch)
    {
      hide ReassemblyObject.Sound, Drain;
      out := batch;
      if |ready| >= reassembler.limits.maxMessages { return false, batch; }
      if readyBytes + |m.body| > reassembler.limits.maxBytes { return false, batch; }
      if m.sequence != expected {
        ready := ready[m.sequence := m];
        readyBytes := readyBytes + |m.body|;
        return true, batch;
      }
      expected := Successor(expected);
      var rest := DrainReady();
      return true, batch + [m] + rest;
    }

    method DrainReady() returns (rest: seq<Message>)
      requires Valid()
      modifies this
      ensures Valid()
      ensures (View(), rest) == Drain(old(View()))
    {
      hide ReassemblyObject.Sound;
      rest := [];
      ghost var left, all := View(), Drain(View());
      assert [] + all.1 == all.1;
      while expected in ready
        invariant Valid() && View() == left && all == (Drain(left).0, rest + Drain(left).1)
        decreases |left.ready|
      {
        var next := ready[expected];
        DrainTurn(left, rest);
        ready := ready - {expected};
        readyBytes := readyBytes - |next.body|;
        rest := rest + [next];
        expected := Successor(expected);
        left := Popped(left);
      }
      assert rest + [] == rest;
    }
  }

  lemma DrainTurn(i: Inbox, rest: seq<Message>)
    requires i.expected in i.ready
    ensures Drain(i).0 == Drain(Popped(i)).0
    ensures rest + Drain(i).1 == rest + [i.ready[i.expected]] + Drain(Popped(i)).1
  {
    var later := Drain(Popped(i)).1;
    assert rest + ([i.ready[i.expected]] + later) == rest + [i.ready[i.expected]] + later;
  }

  // ---------------------------------------------------------------- the byte account of the ready messages

  ghost function BodyTotal(ready: map<nat, Message>): nat {
    if ready == map[] then 0
    else
      var k :| k in ready;
      |ready[k].body| + BodyTotal(ready - {k})
  }

  lemma {:induction false} BodyTotalWithout(ready: map<nat, Message>, key: nat)
    requires key in ready
    ensures BodyTotal(ready) == |ready[key].body| + BodyTotal(ready - {key})
  {
    var k :| k in ready && BodyTotal(ready) == |ready[k].body| + BodyTotal(ready - {k});
    if k != key {
      BodyTotalWithout(ready - {k}, key);
      BodyTotalWithout(ready - {key}, k);
      assert ready - {k} - {key} == ready - {key} - {k};
    }
  }

  /** The account of ready bytes is exact and, with the number of ready messages, within the limits. */
  ghost predicate ReadyAccounted(i: Inbox, limits: Limits) {
    i.readyBytes == BodyTotal(i.ready) <= limits.maxBytes && |i.ready| <= limits.maxMessages
  }

  lemma PoppedKeepsAccount(i: Inbox, limits: Limits)
    requires ReadyAccounted(i, limits) && i.expected in i.ready
    ensures ReadyAccounted(Popped(i), limits)
  {
    BodyTotalWithout(i.ready, i.expected);
  }

  lemma {:induction false} DrainKeepsAccount(i: Inbox, limits: Limits)
    requires ReadyAccounted(i, limits)
    ensures ReadyAccounted(Drain(i).0, limits) && Drain(i).0.store == i.store
    decreases |i.ready|
  {
    if i.expected in i.ready {
      PoppedKeepsAccount(i, limits);
      DrainKeepsAccount(Popped(i), limits);
    }
  }

  lemma TakeKeepsAccount(i: Inbox, m: Message, limits: Limits)
    requires ReadyAccounted(i, limits) && m.sequence !in i.ready
    ensures ReadyAccounted(Take(i, m, limits).0, limits) && Take(i, m, limits).0.store == i.store
  {
    DrainKeepsAccount(i.(expected := Successor(i.expected)), limits);
    var ready := i.ready[m.sequence := m];
    BodyTotalWithout(ready, m.sequence);
    assert ready - {m.sequence} == i.ready && ready.Keys == i.ready.Keys + {m.sequence};
  }

  lemma SettleKeepsAccount(i: Inbox, f: Fragment, outcome: Outcome, limits: Limits)
    requires ReadyAccounted(i, limits) && f.sequence !in i.ready
    ensures ReadyAccounted(Settle(i, f, outcome, limits).0, limits) && Settle(i, f, outcome, limits).0.store == i.store
  {
    if outcome.Complete? { TakeKeepsAccount(i, Message(f.typ, f.sequence, outcome.body), limits); }
  }

  /** Both memory accounts stay exact and all limits hold after every fragment, accepted or not. */
  lemma ReceiveKeepsAccounts(i: Inbox, f: Fragment, epoch: nat, protected: bool, limits: Limits)
    requires f.offset + |f.body| <= f.length
    requires ReadyAccounted(i, limits) && Accounted(i.store, limits)
    ensures ReadyAccounted(Receive(i, f, epoch, protected, limits).0, limits)
    ensures Accounted(Receive(i, f, epoch, protected, limits).0.store, limits)
  {
    if f.sequence >= i.expected && f.sequence !in i.ready {
      AddKeepsAccount(i.store, f, epoch, protected, limits);
      var result := Add(i.store, f, epoch, protected, limits);
      SettleKeepsAccount(i.(store := result.0), f, result.1, limits);
    }
  }
}
