/** Nothing is held back: once every byte of every message has arrived, all messages have been delivered. */
module FullDelivery {
  import opened Wire
  import opened Fragments
  import opened Reassembly
  import opened InOrderInbox
  import opened Delivery

  /** Some fragment of the message arrived, and every byte of it did. */
  ghost predicate Arrived(arrivals: seq<Arrival>, m: Message) {
    && (exists a :: a in arrivals && a.fragment.sequence == m.sequence)
    && forall k :: 0 <= k < |m.body| ==> ByteArrived(arrivals, m.sequence, k)
  }

  ghost predicate ByteArrived(arrivals: seq<Arrival>, sequence: nat, k: nat) {
    exists a :: a in arrivals && a.fragment.sequence == sequence && Spans(a.fragment, k)
  }

  predicate Spans(f: Fragment, k: nat) {
    f.offset <= k < f.offset + |f.body|
  }

  /** The bytes of the fragment are in the cells. */
  ghost predicate Contains(cells: Cells, f: Fragment) {
    forall k :: 0 <= k < |cells| && Spans(f, k) ==> cells[k].Some?
  }

  /** The fragment's message is complete and waits, or is incomplete and has its bytes. */
  ghost predicate Landed(i: Inbox, f: Fragment) {
    f.sequence in i.ready
    || (f.sequence in i.store.messages && Contains(i.store.messages[f.sequence].cells, f))
  }

  /** Every fragment of an undelivered message has landed. */
  ghost predicate AllLanded(i: Inbox, seen: seq<Arrival>, from: nat) {
    forall a :: a in seen && a.fragment.sequence >= from ==> Landed(i, a.fragment)
  }

  /** As long as messages are missing, the next one is not ready, none in the store is complete, and no byte is lost. */
  ghost predicate Kept(i: Inbox, seen: seq<Arrival>, first: nat, sent: seq<Message>, delivered: nat) {
    && HoldsOnlyIncomplete(i.store)
    && (delivered < |sent| ==> i.expected !in i.ready && AllLanded(i, seen, first + delivered))
  }

  /** A message has arrived once the fragments it was cut into, at any size, all have. */
  lemma FragmentsArrive(arrivals: seq<Arrival>, m: Message, maxFragment: nat)
    requires maxFragment > 0
    requires forall f :: f in FragmentsOf(m, maxFragment) ==> exists a :: a in arrivals && a.fragment == f
    ensures Arrived(arrivals, m)
  {
    CutsAddUp(m, 0, maxFragment);
    forall k | 0 <= k < |m.body| ensures ByteArrived(arrivals, m.sequence, k) {
      EveryByteIsCarried(m, 0, maxFragment, k);
      var f :| f in FragmentsOf(m, maxFragment) && f.offset <= k < f.offset + |f.body|;
      var a :| a in arrivals && a.fragment == f;
      assert Spans(a.fragment, k);
    }
    var f := FragmentsOf(m, maxFragment)[0];
    assert f in FragmentsOf(m, maxFragment);
  }

  // ---------------------------------------------------------------- the store

  ghost predicate Grows(before: Cells, after: Cells) {
    |after| == |before| && forall k :: 0 <= k < |before| && before[k].Some? ==> after[k].Some?
  }

  /** A part that is added to an incomplete message lands there or completes it. */
  lemma AddToLands(s: Store, p: Partial, f: Fragment, epoch: nat, protected: bool, m: Message)
    requires IsPartOf(f, m) && Approximates(p, m) && AddTo(s, p, f, epoch, protected).1 != Failed
    requires forall k :: k in s.messages && k != f.sequence ==> !Full(s.messages[k].cells)
    ensures var (after, outcome) := AddTo(s, p, f, epoch, protected);
            && HoldsOnlyIncomplete(after)
            && (outcome == Incomplete ==>
                  && f.sequence in after.messages && Contains(after.messages[f.sequence].cells, f)
                  && Grows(p.cells, after.messages[f.sequence].cells))
  {
    FillApproximates(p, f, m);
  }

  lemma AddLands(s: Store, f: Fragment, epoch: nat, protected: bool, limits: Limits, m: Message)
    requires IsPartOf(f, m) && HoldsOnlyIncomplete(s) && Add(s, f, epoch, protected, limits).1 != Failed
    requires f.sequence in s.messages ==> Approximates(s.messages[f.sequence], m)
    ensures var (after, outcome) := Add(s, f, epoch, protected, limits);
            && HoldsOnlyIncomplete(after)
            && (outcome == Incomplete ==>
                  && f.sequence in after.messages && Contains(after.messages[f.sequence].cells, f)
                  && (f.sequence in s.messages
                      ==> Grows(s.messages[f.sequence].cells, after.messages[f.sequence].cells)))
  {
    hide AddTo;
    if f.sequence in s.messages {
      AddToLands(s, s.messages[f.sequence], f, epoch, protected, m);
    } else if !(f.offset == 0 && |f.body| == f.length) {
      var p := Partial(f.typ, epoch, protected, Empty(f.length));
      AddToLands(Store(s.messages[f.sequence := p], s.reserved + f.length), p, f, epoch, protected, m);
    }
  }

  /** What the store does to the fragments of the other messages, and of this one while it stays incomplete. */
  ghost predicate Moves(i: Inbox, f: Fragment, store: Store, outcome: Outcome) {
    && HoldsOnlyIncomplete(store)
    && (forall g: Fragment :: g.sequence != f.sequence && Landed(i, g) ==> Landed(i.(store := store), g))
    && (outcome == Incomplete ==>
          && Landed(i.(store := store), f)
          && forall g: Fragment :: Landed(i, g) ==> Landed(i.(store := store), g))
  }

  lemma AddMoves(i: Inbox, a: Arrival, limits: Limits, first: nat, sent: seq<Message>)
    requires HoldsSent(i, first, sent) && Genuine(a.fragment, first, sent) && HoldsOnlyIncomplete(i.store)
    requires Add(i.store, a.fragment, a.epoch, a.protected, limits).1 != Failed
    ensures var (store, outcome) := Add(i.store, a.fragment, a.epoch, a.protected, limits);
            Moves(i, a.fragment, store, outcome)
  {
    hide Add;
    var f, m := a.fragment, sent[a.fragment.sequence - first];
    AddedPartsComplete(i.store, f, a.epoch, a.protected, limits, m);
    AddLands(i.store, f, a.epoch, a.protected, limits, m);
    var (store, outcome) := Add(i.store, f, a.epoch, a.protected, limits);
    forall g: Fragment | Landed(i, g) && (g.sequence != f.sequence || outcome == Incomplete)
      ensures Landed(i.(store := store), g) {
      if g.sequence in i.store.messages && Contains(i.store.messages[g.sequence].cells, g) {
        ContainsStill(i.store.messages[g.sequence].cells, store.messages[g.sequence].cells, g);
      }
    }
  }

  lemma ContainsStill(before: Cells, after: Cells, g: Fragment)
    requires Contains(before, g) && (after == before || Grows(before, after))
    ensures Contains(after, g)
  {}

  // ---------------------------------------------------------------- draining

  /** Draining leaves nothing ready at the counter, and takes nothing beyond it. */
  lemma {:induction false} DrainTakesNoMore(i: Inbox)
    ensures var (after, rest) := Drain(i);
            && after.store == i.store && after.expected !in after.ready
            && (i.expected + |rest| < U16_LIMIT ==>
                  forall s :: s in i.ready && s >= i.expected + |rest| ==> s in after.ready)
    decreases |i.ready|
  {
    if i.expected in i.ready {
      DrainTakesNoMore(Popped(i));
      var rest := Drain(Popped(i)).1;
      if i.expected + 1 + |rest| < U16_LIMIT {
        SmallRemainder(i.expected + 1, U16_LIMIT);
        forall s | s in i.ready && s >= i.expected + 1 + |rest| ensures s in Drain(i).0.ready {
          assert s in Popped(i).ready;
        }
      }
    }
  }

  // ---------------------------------------------------------------- one arrival

  lemma CounterWhileMissing(i: Inbox, first: nat, sent: seq<Message>, delivered: nat)
    requires Good(i, first, sent, delivered) && delivered < |sent|
    ensures i.expected == first + delivered
  {
    SmallRemainder(first + delivered, U16_LIMIT);
  }

  lemma IgnoredKeeps(i: Inbox, a: Arrival, seen: seq<Arrival>, first: nat, sent: seq<Message>, delivered: nat)
    requires Good(i, first, sent, delivered) && Kept(i, seen, first, sent, delivered)
    requires a.fragment.sequence < i.expected || a.fragment.sequence in i.ready
    ensures Kept(i, seen + [a], first, sent, delivered)
  {
    if delivered < |sent| { CounterWhileMissing(i, first, sent, delivered); }
  }

  lemma IncompleteKeeps(i: Inbox, a: Arrival, store: Store, seen: seq<Arrival>, first: nat, sent: seq<Message>,
                        delivered: nat)
    requires Kept(i, seen, first, sent, delivered) && Moves(i, a.fragment, store, Incomplete)
    ensures Kept(i.(store := store), seen + [a], first, sent, delivered)
  {
    hide Landed;
  }

  lemma TakeKeeps(i: Inbox, m: Message, a: Arrival, store: Store, limits: Limits, seen: seq<Arrival>, first: nat,
                  sent: seq<Message>, delivered: nat)
    requires Good(i, first, sent, delivered) && Kept(i, seen, first, sent, delivered)
    requires Moves(i, a.fragment, store, Complete(m.body)) && m.sequence == a.fragment.sequence
    requires Take(i.(store := store), m, limits).1.Delivered?
    ensures var (after, d) := Take(i.(store := store), m, limits);
            Kept(after, seen + [a], first, sent, delivered + |d.messages|)
  {
    hide Drain;
    var j := i.(store := store);
    if m.sequence == i.expected {
      var next := j.(expected := Successor(i.expected));
      DrainTakesNoMore(next);
      HandedOutKeeps(i, a, store, Drain(next).0, Drain(next).1, seen, first, sent, delivered);
    } else {
      EarlyKeeps(i, m, a, store, seen, first, sent, delivered);
    }
  }

  lemma EarlyKeeps(i: Inbox, m: Message, a: Arrival, store: Store, seen: seq<Arrival>, first: nat, sent: seq<Message>,
                   delivered: nat)
    requires Kept(i, seen, first, sent, delivered) && Moves(i, a.fragment, store, Complete(m.body))
    requires m.sequence == a.fragment.sequence != i.expected
    ensures Kept(i.(store := store, ready := i.ready[m.sequence := m], readyBytes := i.readyBytes + |m.body|),
                 seen + [a], first, sent, delivered)
  {
    var j := i.(store := store);
    var after := j.(ready := i.ready[m.sequence := m], readyBytes := i.readyBytes + |m.body|);
    forall b | b in seen + [a] && b.fragment.sequence >= first + delivered && delivered < |sent|
      ensures Landed(after, b.fragment) {
      if b.fragment.sequence != m.sequence {
        assert Landed(i, b.fragment);
        assert Landed(j, b.fragment);
      }
    }
  }

  lemma HandedOutKeeps(i: Inbox, a: Arrival, store: Store, after: Inbox, rest: seq<Message>, seen: seq<Arrival>,
                       first: nat, sent: seq<Message>, delivered: nat)
    requires Good(i, first, sent, delivered) && Kept(i, seen, first, sent, delivered)
    requires a.fragment.sequence == i.expected && HoldsOnlyIncomplete(store)
    requires forall g: Fragment :: g.sequence != i.expected && Landed(i, g) ==> Landed(i.(store := store), g)
    requires after.store == store && after.expected !in after.ready
    requires var next := Successor(i.expected);
             next + |rest| < U16_LIMIT ==> forall s :: s in i.ready && s >= next + |rest| ==> s in after.ready
    ensures Kept(after, seen + [a], first, sent, delivered + 1 + |rest|)
  {
    var total := delivered + 1 + |rest|;
    if total < |sent| {
      CounterWhileMissing(i, first, sent, delivered);
      SmallRemainder(i.expected + 1, U16_LIMIT);
      forall b | b in seen + [a] && b.fragment.sequence >= first + total ensures Landed(after, b.fragment) {
        assert Landed(i, b.fragment);
        assert Landed(i.(store := store), b.fragment);
      }
    }
  }

  lemma ReceiveKeeps(i: Inbox, a: Arrival, limits: Limits, seen: seq<Arrival>, first: nat, sent: seq<Message>,
                     delivered: nat)
    requires Good(i, first, sent, delivered) && Kept(i, seen, first, sent, delivered)
             && Genuine(a.fragment, first, sent)
    requires Receive(i, a.fragment, a.epoch, a.protected, limits).1.Delivered?
    ensures var (after, d) := Receive(i, a.fragment, a.epoch, a.protected, limits);
            Kept(after, seen + [a], first, sent, delivered + |d.messages|)
  {
    hide Add, Take, HoldsSent, AllLanded, Moves;
    if a.fragment.sequence < i.expected || a.fragment.sequence in i.ready {
      IgnoredKeeps(i, a, seen, first, sent, delivered);
    } else {
      var (store, outcome) := Add(i.store, a.fragment, a.epoch, a.protected, limits);
      AddMoves(i, a, limits, first, sent);
      match outcome
      case Incomplete => IncompleteKeeps(i, a, store, seen, first, sent, delivered);
      case Complete(body) =>
        TakeKeeps(i, Message(a.fragment.typ, a.fragment.sequence, body), a, store, limits, seen, first, sent,
                  delivered);
    }
  }

  // ---------------------------------------------------------------- whole runs

  lemma {:induction false} RunKeeps(first: nat, sent: seq<Message>, arrivals: seq<Arrival>, limits: Limits)
    requires Numbered(first, sent) && AllGenuine(arrivals, first, sent) && WellFormed(arrivals)
    requires Feed(NewInbox(first), arrivals, limits).1.Delivered?
    ensures var (i, d) := Feed(NewInbox(first), arrivals, limits); Kept(i, arrivals, first, sent, |d.messages|)
  {
    if arrivals != [] {
      var last := |arrivals| - 1;
      var before := arrivals[..last];
      RunKeeps(first, sent, before, limits);
      DeliversInOrder(first, sent, before, limits);
      LastKeeps(first, sent, arrivals, limits);
    }
  }

  lemma LastKeeps(first: nat, sent: seq<Message>, arrivals: seq<Arrival>, limits: Limits)
    requires arrivals != [] && WellFormed(arrivals) && Genuine(arrivals[|arrivals| - 1].fragment, first, sent)
    requires Feed(NewInbox(first), arrivals, limits).1.Delivered?
    requires var (i, d) := Feed(NewInbox(first), arrivals[..|arrivals| - 1], limits);
             d.Delivered?
             ==> Good(i, first, sent, |d.messages|) && Kept(i, arrivals[..|arrivals| - 1], first, sent, |d.messages|)
    ensures var (i, d) := Feed(NewInbox(first), arrivals, limits); Kept(i, arrivals, first, sent, |d.messages|)
  {
    hide Receive, Good, Kept;
    var last := |arrivals| - 1;
    var a := arrivals[last];
    var (before, sofar) := Feed(NewInbox(first), arrivals[..last], limits);
    ReceiveKeeps(before, a, limits, arrivals[..last], first, sent, |sofar.messages|);
    assert arrivals == arrivals[..last] + [a];
  }

  /** A message of which every byte has landed in the store is complete. */
  lemma ArrivedIsFull(i: Inbox, arrivals: seq<Arrival>, m: Message)
    requires Arrived(arrivals, m) && AllLanded(i, arrivals, m.sequence) && m.sequence !in i.ready
    requires m.sequence in i.store.messages ==> Approximates(i.store.messages[m.sequence], m)
    ensures m.sequence in i.store.messages && Full(i.store.messages[m.sequence].cells)
  {
    var a :| a in arrivals && a.fragment.sequence == m.sequence;
    assert Landed(i, a.fragment);
    var cells := i.store.messages[m.sequence].cells;
    forall k | 0 <= k < |cells| ensures cells[k].Some? {
      assert ByteArrived(arrivals, m.sequence, k);
      var b :| b in arrivals && b.fragment.sequence == m.sequence && Spans(b.fragment, k);
      assert Landed(i, b.fragment);
    }
  }

  lemma NothingIsMissing(i: Inbox, arrivals: seq<Arrival>, first: nat, sent: seq<Message>, delivered: nat)
    requires Good(i, first, sent, delivered) && Kept(i, arrivals, first, sent, delivered)
    requires forall m :: m in sent ==> Arrived(arrivals, m)
    ensures delivered >= |sent|
  {
    if delivered < |sent| {
      CounterWhileMissing(i, first, sent, delivered);
      assert sent[delivered] in sent;
      ArrivedIsFull(i, arrivals, sent[delivered]);
    }
  }

  lemma CycleCoversAll(sent: seq<Message>, messages: seq<Message>)
    requires |messages| >= |sent| && forall k :: 0 <= k < |messages| ==> sent != [] && messages[k] == sent[k % |sent|]
    ensures sent <= messages
  {
    forall k | 0 <= k < |sent| ensures messages[k] == sent[k] {
      SmallRemainder(k, |sent|);
    }
  }

  /**
   * When every byte of every message has arrived, in whatever order and pieces and however often, and no fragment was
   * rejected, all messages have been delivered; unless the numbers were used up and started over, nothing else was.
   */
  lemma EverythingIsDelivered(first: nat, sent: seq<Message>, arrivals: seq<Arrival>, limits: Limits)
    requires Numbered(first, sent) && AllGenuine(arrivals, first, sent)
    requires forall m :: m in sent ==> Arrived(arrivals, m)
    ensures WellFormed(arrivals)
    ensures var d := Feed(NewInbox(first), arrivals, limits).1;
            d.Delivered? ==> sent <= d.messages && (NotWrapped(first, |sent|) ==> d.messages == sent)
  {
    hide Feed, Arrived, Good, Kept;
    DeliversInOrder(first, sent, arrivals, limits);
    DeliversAPrefix(first, sent, arrivals, limits);
    var (i, d) := Feed(NewInbox(first), arrivals, limits);
    if d.Delivered? {
      RunKeeps(first, sent, arrivals, limits);
      NothingIsMissing(i, arrivals, first, sent, |d.messages|);
      CycleCoversAll(sent, d.messages);
    }
  }
}
