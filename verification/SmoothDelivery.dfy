/** Within the limits nothing genuine is rejected, so everything that arrives is delivered, in whatever order. */
module SmoothDelivery {
  import opened Wire
  import opened Fragments
  import opened Reassembly
  import opened InOrderInbox
  import opened Delivery
  import opened FullDelivery

  function SumBodies(sent: seq<Message>): nat {
    if sent == [] then 0 else SumBodies(sent[..|sent| - 1]) + |sent[|sent| - 1].body|
  }

  /** All messages fit the limits at once. */
  ghost predicate AllFit(sent: seq<Message>, limits: Limits) {
    && |sent| <= limits.maxMessages && SumBodies(sent) <= limits.maxBytes
    && forall m :: m in sent ==> |m.body| <= limits.maxSize
  }

  predicate SameProtection(a: Arrival, b: Arrival) {
    a.protected == b.protected && (a.protected ==> a.epoch == b.epoch)
  }

  /** No message spans a key change. */
  ghost predicate OneEpochEach(arrivals: seq<Arrival>) {
    forall a, b :: a in arrivals && b in arrivals && a.fragment.sequence == b.fragment.sequence ==> SameProtection(a, b)
  }

  // ---------------------------------------------------------------- what is held never outgrows what was sent

  ghost predicate Within(keys: set<nat>, first: nat, count: nat) {
    forall s :: s in keys ==> first <= s < first + count
  }

  lemma {:induction false} KeysWithin(keys: set<nat>, first: nat, count: nat)
    requires Within(keys, first, count)
    ensures |keys| <= count
  {
    if count == 0 {
      assert keys == {} by { assert forall s :: s in keys ==> false; }
    } else {
      KeysWithin(keys - {first + count - 1}, first, count - 1);
    }
  }

  ghost predicate SizesOf(messages: map<nat, Partial>, first: nat, sent: seq<Message>) {
    forall s :: s in messages ==> first <= s < first + |sent| && |messages[s].cells| == |sent[s - first].body|
  }

  lemma {:induction false} IncompleteWithin(messages: map<nat, Partial>, first: nat, sent: seq<Message>)
    requires SizesOf(messages, first, sent)
    ensures Total(messages) <= SumBodies(sent)
  {
    if sent == [] {
      assert messages == map[] by { assert forall s :: s in messages ==> false; }
    } else {
      hide Total;
      var last := |sent| - 1;
      var rest := messages - {first + last};
      assert SizesOf(rest, first, sent[..last]);
      IncompleteWithin(rest, first, sent[..last]);
      if first + last in messages {
        TotalWithout(messages, first + last);
      } else {
        assert rest == messages;
      }
    }
  }

  ghost predicate BodiesOf(ready: map<nat, Message>, first: nat, sent: seq<Message>) {
    forall s :: s in ready ==> first <= s < first + |sent| && |ready[s].body| == |sent[s - first].body|
  }

  lemma {:induction false} ReadyWithin(ready: map<nat, Message>, first: nat, sent: seq<Message>)
    requires BodiesOf(ready, first, sent)
    ensures BodyTotal(ready) <= SumBodies(sent)
  {
    if sent == [] {
      assert ready == map[] by { assert forall s :: s in ready ==> false; }
    } else {
      hide BodyTotal;
      var last := |sent| - 1;
      var rest := ready - {first + last};
      assert BodiesOf(rest, first, sent[..last]);
      ReadyWithin(rest, first, sent[..last]);
      if first + last in ready {
        BodyTotalWithout(ready, first + last);
      } else {
        assert rest == ready;
      }
    }
  }

  /** One more incomplete message has room beside those held. */
  lemma RoomForIncomplete(messages: map<nat, Partial>, key: nat, first: nat, sent: seq<Message>)
    requires SizesOf(messages, first, sent) && first <= key < first + |sent| && key !in messages
    ensures Total(messages) + |sent[key - first].body| <= SumBodies(sent) && |messages| < |sent|
  {
    hide Total, SumBodies;
    var p := Partial(0, 0, false, Empty(|sent[key - first].body|));
    var more := messages[key := p];
    TotalUpdated(messages, key, p);
    IncompleteWithin(more, first, sent);
    KeysWithin(messages.Keys + {key}, first, |sent|);
  }

  lemma RoomForReady(ready: map<nat, Message>, m: Message, first: nat, sent: seq<Message>)
    requires BodiesOf(ready, first, sent) && first <= m.sequence < first + |sent| && m.sequence !in ready
    requires |m.body| == |sent[m.sequence - first].body|
    ensures BodyTotal(ready) + |m.body| <= SumBodies(sent) && |ready| < |sent|
  {
    hide BodyTotal, SumBodies;
    var more := ready[m.sequence := m];
    BodyTotalWithout(more, m.sequence);
    assert more - {m.sequence} == ready;
    assert BodiesOf(more, first, sent);
    ReadyWithin(more, first, sent);
    KeysWithin(ready.Keys + {m.sequence}, first, |sent|);
  }

  // ---------------------------------------------------------------- one arrival

  /** Each incomplete message is held under the protection its fragments arrived with. */
  ghost predicate Protected(store: Store, seen: seq<Arrival>) {
    forall s :: s in store.messages ==> exists a :: ArrivedFor(a, s, store.messages[s], seen)
  }

  ghost predicate ArrivedFor(a: Arrival, s: nat, p: Partial, seen: seq<Arrival>) {
    a in seen && a.fragment.sequence == s && p.hasEpoch == a.protected && p.epoch == a.epoch
  }

  lemma AddToProtects(s: Store, p: Partial, f: Fragment, epoch: nat, protected: bool)
    requires f.offset + |f.body| <= f.length
    ensures var after := AddTo(s, p, f, epoch, protected).0;
            forall k :: k in after.messages ==>
              || (k != f.sequence && k in s.messages && after.messages[k] == s.messages[k])
              || (k == f.sequence && after.messages[k] == p.(cells := after.messages[k].cells))
              || (k in s.messages && after == s)
  {}

  lemma AddProtects(store: Store, a: Arrival, limits: Limits, seen: seq<Arrival>)
    requires a.fragment.offset + |a.fragment.body| <= a.fragment.length && Protected(store, seen)
    ensures Protected(Add(store, a.fragment, a.epoch, a.protected, limits).0, seen + [a])
  {
    var f := a.fragment;
    var after := Add(store, f, a.epoch, a.protected, limits).0;
    var p := Partial(f.typ, a.epoch, a.protected, Empty(f.length));
    if f.sequence in store.messages {
      AddToProtects(store, store.messages[f.sequence], f, a.epoch, a.protected);
    } else {
      AddToProtects(Store(store.messages[f.sequence := p], store.reserved + f.length), p, f, a.epoch, a.protected);
    }
    forall s | s in after.messages ensures exists b :: ArrivedFor(b, s, after.messages[s], seen + [a]) {
      if s in store.messages {
        var b :| ArrivedFor(b, s, store.messages[s], seen);
        assert ArrivedFor(b, s, after.messages[s], seen + [a]);
      } else {
        assert ArrivedFor(a, s, after.messages[s], seen + [a]);
      }
    }
  }

  /** The inbox holds parts of the sent messages only, with exact accounts and under the right protection. */
  ghost predicate Smooth(i: Inbox, seen: seq<Arrival>, first: nat, sent: seq<Message>, limits: Limits) {
    && HoldsSent(i, first, sent) && Protected(i.store, seen)
    && ReadyAccounted(i, limits) && Accounted(i.store, limits)
  }

  lemma AddToAccepts(s: Store, p: Partial, f: Fragment, epoch: nat, protected: bool, m: Message)
    requires IsPartOf(f, m) && Approximates(p, m) && SameEpoch(p, epoch, protected)
    ensures AddTo(s, p, f, epoch, protected).1 != Failed
  {
    FillApproximates(p, f, m);
  }

  lemma AddAccepts(i: Inbox, a: Arrival, limits: Limits, seen: seq<Arrival>, first: nat, sent: seq<Message>)
    requires Smooth(i, seen, first, sent, limits) && AllFit(sent, limits) && Genuine(a.fragment, first, sent)
    requires OneEpochEach(seen + [a])
    ensures Add(i.store, a.fragment, a.epoch, a.protected, limits).1 != Failed
  {
    hide AddTo, Total, SumBodies;
    var f, m := a.fragment, sent[a.fragment.sequence - first];
    assert m in sent;
    if f.sequence in i.store.messages {
      var p := i.store.messages[f.sequence];
      var b :| ArrivedFor(b, f.sequence, p, seen);
      assert SameProtection(a, b);
      AddToAccepts(i.store, p, f, a.epoch, a.protected, m);
    } else {
      assert SizesOf(i.store.messages, first, sent);
      RoomForIncomplete(i.store.messages, f.sequence, first, sent);
      var p := Partial(f.typ, a.epoch, a.protected, Empty(f.length));
      AddToAccepts(Store(i.store.messages[f.sequence := p], i.store.reserved + f.length), p, f, a.epoch, a.protected,
                   m);
    }
  }

  lemma TakeAccepts(i: Inbox, m: Message, limits: Limits, first: nat, sent: seq<Message>)
    requires HoldsSent(i, first, sent) && ReadyAccounted(i, limits) && AllFit(sent, limits) && m.sequence !in i.ready
    requires first <= m.sequence < first + |sent| && m == sent[m.sequence - first]
    ensures Take(i, m, limits).1.Delivered?
  {
    hide BodyTotal, SumBodies;
    assert BodiesOf(i.ready, first, sent);
    RoomForReady(i.ready, m, first, sent);
  }

  lemma ReceiveAccepts(i: Inbox, a: Arrival, limits: Limits, seen: seq<Arrival>, first: nat, sent: seq<Message>)
    requires Numbered(first, sent) && Smooth(i, seen, first, sent, limits) && AllFit(sent, limits)
    requires Genuine(a.fragment, first, sent) && OneEpochEach(seen + [a])
    ensures Receive(i, a.fragment, a.epoch, a.protected, limits).1.Delivered?
  {
    hide HoldsSent, Add, Take, AllFit, Protected, OneEpochEach;
    var f := a.fragment;
    if f.sequence >= i.expected && f.sequence !in i.ready {
      AddAccepts(i, a, limits, seen, first, sent);
      AddHoldsSent(i, a, limits, first, sent);
      var (store, outcome) := Add(i.store, f, a.epoch, a.protected, limits);
      if outcome.Complete? { TakeAccepts(i.(store := store), sent[f.sequence - first], limits, first, sent); }
    }
  }

  lemma {:induction false} DrainKeepsStore(i: Inbox)
    ensures Drain(i).0.store == i.store
    decreases |i.ready|
  {
    if i.expected in i.ready { DrainKeepsStore(Popped(i)); }
  }

  lemma ReceiveProtects(i: Inbox, a: Arrival, limits: Limits, seen: seq<Arrival>)
    requires a.fragment.offset + |a.fragment.body| <= a.fragment.length && Protected(i.store, seen)
    ensures Protected(Receive(i, a.fragment, a.epoch, a.protected, limits).0.store, seen + [a])
  {
    hide Add, Drain;
    AddProtects(i.store, a, limits, seen);
    var store := Add(i.store, a.fragment, a.epoch, a.protected, limits).0;
    DrainKeepsStore(i.(store := store, expected := Successor(i.expected)));
    forall s | s in i.store.messages ensures exists b :: ArrivedFor(b, s, i.store.messages[s], seen + [a]) {
      var b :| ArrivedFor(b, s, i.store.messages[s], seen);
      assert ArrivedFor(b, s, i.store.messages[s], seen + [a]);
    }
  }

  lemma ReceiveStaysSmooth(i: Inbox, a: Arrival, limits: Limits, seen: seq<Arrival>, first: nat, sent: seq<Message>,
                           delivered: nat)
    requires Good(i, first, sent, delivered) && Smooth(i, seen, first, sent, limits) && Genuine(a.fragment, first, sent)
    ensures Smooth(Receive(i, a.fragment, a.epoch, a.protected, limits).0, seen + [a], first, sent, limits)
  {
    hide HoldsSent, Receive, Protected, ReadyAccounted, Accounted;
    ReceiveDeliversNext(i, a, limits, first, sent, delivered);
    ReceiveProtects(i, a, limits, seen);
    ReceiveKeepsAccounts(i, a.fragment, a.epoch, a.protected, limits);
  }

  // ---------------------------------------------------------------- whole runs

  lemma StartIsSmooth(first: nat, sent: seq<Message>, limits: Limits)
    ensures Smooth(NewInbox(first), [], first, sent, limits)
  {}

  lemma OneEpochBefore(arrivals: seq<Arrival>, n: nat)
    requires OneEpochEach(arrivals) && n <= |arrivals|
    ensures OneEpochEach(arrivals[..n])
  {}

  /** The run so far was accepted, and the inbox is where it should be. */
  ghost predicate Accepted(i: Inbox, d: InOrderInbox.Delivery, seen: seq<Arrival>, first: nat, sent: seq<Message>,
                           limits: Limits) {
    d.Delivered? && Smooth(i, seen, first, sent, limits)
  }

  lemma LastIsAccepted(first: nat, sent: seq<Message>, arrivals: seq<Arrival>, limits: Limits)
    requires Numbered(first, sent) && AllFit(sent, limits) && OneEpochEach(arrivals)
    requires arrivals != [] && WellFormed(arrivals) && Genuine(arrivals[|arrivals| - 1].fragment, first, sent)
    requires var (i, d) := Feed(NewInbox(first), arrivals[..|arrivals| - 1], limits);
             && Accepted(i, d, arrivals[..|arrivals| - 1], first, sent, limits)
             && Good(i, first, sent, |d.messages|)
    ensures var (i, d) := Feed(NewInbox(first), arrivals, limits); Accepted(i, d, arrivals, first, sent, limits)
  {
    hide Receive, Good, Smooth, AllFit, OneEpochEach, Numbered;
    var last := |arrivals| - 1;
    var a := arrivals[last];
    var (before, sofar) := Feed(NewInbox(first), arrivals[..last], limits);
    assert arrivals == arrivals[..last] + [a];
    ReceiveAccepts(before, a, limits, arrivals[..last], first, sent);
    ReceiveStaysSmooth(before, a, limits, arrivals[..last], first, sent, |sofar.messages|);
  }

  /**
   * Genuine fragments, of messages that fit the limits together and that each keep to one epoch, are never rejected,
   * however they are cut, ordered, repeated and lost.
   */
  lemma {:induction false} NothingIsRejected(first: nat, sent: seq<Message>, arrivals: seq<Arrival>, limits: Limits)
    requires Numbered(first, sent) && AllFit(sent, limits)
    requires AllGenuine(arrivals, first, sent) && OneEpochEach(arrivals)
    ensures WellFormed(arrivals)
    ensures var (i, d) := Feed(NewInbox(first), arrivals, limits); Accepted(i, d, arrivals, first, sent, limits)
  {
    GenuineIsWellFormed(arrivals, first, sent);
    if arrivals == [] {
      StartIsSmooth(first, sent, limits);
    } else {
      hide Smooth, AllFit, Numbered;
      var last := |arrivals| - 1;
      OneEpochBefore(arrivals, last);
      NothingIsRejected(first, sent, arrivals[..last], limits);
      DeliversInOrder(first, sent, arrivals[..last], limits);
      LastIsAccepted(first, sent, arrivals, limits);
    }
  }

  /**
   * Hence, once every byte has arrived, every message has been delivered; and nothing else unless the numbers
   * wrapped.
   */
  lemma ArrivedIsDelivered(first: nat, sent: seq<Message>, arrivals: seq<Arrival>, limits: Limits)
    requires Numbered(first, sent) && AllFit(sent, limits)
    requires AllGenuine(arrivals, first, sent) && OneEpochEach(arrivals)
    requires forall m :: m in sent ==> Arrived(arrivals, m)
    ensures WellFormed(arrivals)
    ensures var d := Feed(NewInbox(first), arrivals, limits).1;
            d.Delivered? && sent <= d.messages && (NotWrapped(first, |sent|) ==> d.messages == sent)
  {
    hide Feed, Arrived, Smooth;
    NothingIsRejected(first, sent, arrivals, limits);
    EverythingIsDelivered(first, sent, arrivals, limits);
  }

  // ---------------------------------------------------------------- nothing is left behind

  /** What is held is not yet due, and a message is held either complete or in part. */
  ghost predicate Ahead(i: Inbox, bound: nat) {
    && i.expected <= bound < U16_LIMIT
    && (forall s :: s in i.ready ==> i.expected <= s < bound)
    && (forall s :: s in i.store.messages ==> i.expected <= s < bound && s !in i.ready)
  }

  lemma {:induction false} DrainStaysAhead(i: Inbox, bound: nat)
    requires Ahead(i, bound)
    ensures Ahead(Drain(i).0, bound)
    decreases |i.ready|
  {
    if i.expected in i.ready {
      SmallRemainder(i.expected + 1, U16_LIMIT);
      DrainStaysAhead(Popped(i), bound);
    }
  }

  lemma TakeStaysAhead(i: Inbox, m: Message, limits: Limits, bound: nat)
    requires Ahead(i, bound) && m.sequence !in i.ready && m.sequence !in i.store.messages
    requires i.expected <= m.sequence < bound
    ensures Ahead(Take(i, m, limits).0, bound)
  {
    hide Drain;
    if m.sequence == i.expected {
      SmallRemainder(i.expected + 1, U16_LIMIT);
      DrainStaysAhead(i.(expected := Successor(i.expected)), bound);
    }
  }

  /** Adding a fragment touches its own message only, and a completed message leaves the store. */
  lemma AddTouchesOne(s: Store, f: Fragment, epoch: nat, protected: bool, limits: Limits)
    requires f.offset + |f.body| <= f.length
    ensures var (after, outcome) := Add(s, f, epoch, protected, limits);
            && (forall k :: k in after.messages ==> k in s.messages || k == f.sequence)
            && (outcome.Complete? ==> f.sequence !in after.messages)
  {}

  lemma ReceiveStaysAhead(i: Inbox, a: Arrival, limits: Limits, bound: nat)
    requires Ahead(i, bound) && a.fragment.sequence < bound
    requires a.fragment.offset + |a.fragment.body| <= a.fragment.length
    ensures Ahead(Receive(i, a.fragment, a.epoch, a.protected, limits).0, bound)
  {
    hide Add, Take;
    var f := a.fragment;
    if f.sequence >= i.expected && f.sequence !in i.ready {
      AddTouchesOne(i.store, f, a.epoch, a.protected, limits);
      var (store, outcome) := Add(i.store, f, a.epoch, a.protected, limits);
      if outcome.Complete? {
        TakeStaysAhead(i.(store := store), Message(f.typ, f.sequence, outcome.body), limits, bound);
      }
    }
  }

  lemma {:induction false} FeedStaysAhead(first: nat, arrivals: seq<Arrival>, limits: Limits, bound: nat)
    requires WellFormed(arrivals) && first <= bound < U16_LIMIT
    requires forall a :: a in arrivals ==> a.fragment.sequence < bound
    ensures Ahead(Feed(NewInbox(first), arrivals, limits).0, bound)
  {
    if arrivals != [] {
      hide Receive, Ahead;
      var last := |arrivals| - 1;
      FeedStaysAhead(first, arrivals[..last], limits, bound);
      ReceiveStaysAhead(Feed(NewInbox(first), arrivals[..last], limits).0, arrivals[last], limits, bound);
    }
  }

  /**
   * In a run that cannot reach the end of the number space, a fragment of a delivered message changes nothing, and once
   * all messages are delivered the inbox holds nothing.
   */
  lemma NothingIsLeft(first: nat, sent: seq<Message>, arrivals: seq<Arrival>, limits: Limits, late: Arrival)
    requires Numbered(first, sent) && first + |sent| < U16_LIMIT && AllGenuine(arrivals, first, sent)
    ensures WellFormed(arrivals)
    ensures var (i, d) := Feed(NewInbox(first), arrivals, limits);
            d.Delivered? ==>
              && i.expected == first + |d.messages|
              && (late.fragment.offset + |late.fragment.body| <= late.fragment.length
                  && late.fragment.sequence < first + |d.messages| ==>
                    Receive(i, late.fragment, late.epoch, late.protected, limits) == (i, Delivered([])))
              && (|d.messages| == |sent| ==> i.store.messages == map[] && i.ready == map[])
  {
    DeliversInOrder(first, sent, arrivals, limits);
    FeedStaysAhead(first, arrivals, limits, first + |sent|);
    var (i, d) := Feed(NewInbox(first), arrivals, limits);
    if d.Delivered? { LandedExactly(i, first, sent, |d.messages|); }
  }

  lemma LandedExactly(i: Inbox, first: nat, sent: seq<Message>, delivered: nat)
    requires Good(i, first, sent, delivered) && Ahead(i, first + |sent|)
    ensures i.expected == first + delivered
    ensures delivered == |sent| ==> i.store.messages == map[] && i.ready == map[]
  {
    SmallRemainder(first + delivered, U16_LIMIT);
    if delivered == |sent| {
      assert forall s :: s in i.store.messages ==> false;
      assert forall s :: s in i.ready ==> false;
    }
  }
}
