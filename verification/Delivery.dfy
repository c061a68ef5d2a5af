/** End to end: fragments of the sent messages, lost, repeated and reordered, come out as a prefix of what was sent. */
module Delivery {
  import opened Wire
  import opened Fragments
  import opened Reassembly
  import opened InOrderInbox

  datatype Arrival = Arrival(fragment: Fragment, epoch: nat, protected: bool)

  predicate WellFormed(arrivals: seq<Arrival>) {
    forall a :: a in arrivals ==> a.fragment.offset + |a.fragment.body| <= a.fragment.length
  }

  /** Feeds arrivals in order; the first rejected one ends the run. */
  function Feed(i: Inbox, arrivals: seq<Arrival>, limits: Limits): (Inbox, Delivery)
    requires WellFormed(arrivals)
  {
    if arrivals == [] then (i, Delivered([]))
    else
      var last := |arrivals| - 1;
      var (before, sofar) := Feed(i, arrivals[..last], limits);
      if sofar.Rejected? then (before, Rejected)
      else
        var a := arrivals[last];
        var (after, more) := Receive(before, a.fragment, a.epoch, a.protected, limits);
        if more.Rejected? then (after, Rejected) else (after, Delivered(sofar.messages + more.messages))
  }

  /** Consecutively numbered messages inside the 16-bit space. */
  ghost predicate Numbered(first: nat, sent: seq<Message>) {
    first < U16_LIMIT && first + |sent| <= U16_LIMIT && forall k :: 0 <= k < |sent| ==> sent[k].sequence == first + k
  }

  /** The whole space from 0 is not used up: then the receiver's counter would come back to a number that was used. */
  predicate NotWrapped(first: nat, count: nat) {
    first > 0 || count < U16_LIMIT
  }

  ghost predicate Genuine(f: Fragment, first: nat, sent: seq<Message>) {
    first <= f.sequence < first + |sent| && IsPartOf(f, sent[f.sequence - first])
  }

  lemma FragmentsAreGenuine(first: nat, sent: seq<Message>, k: nat, maxFragment: nat, f: Fragment)
    requires Numbered(first, sent) && k < |sent| && maxFragment > 0 && f in FragmentsOf(sent[k], maxFragment)
    ensures Genuine(f, first, sent)
  {
    CutsAddUp(sent[k], 0, maxFragment);
  }

  ghost predicate HoldsSent(i: Inbox, first: nat, sent: seq<Message>) {
    && (forall s :: s in i.store.messages ==>
        first <= s < first + |sent| && Approximates(i.store.messages[s], sent[s - first]))
    && (forall s :: s in i.ready ==> first <= s < first + |sent| && i.ready[s] == sent[s - first])
  }

  /** The counter is where the delivered messages end; only a full space is ever gone through again. */
  ghost predicate At(i: Inbox, first: nat, sent: seq<Message>, delivered: nat) {
    i.expected == (first + delivered) % U16_LIMIT && (NotWrapped(first, |sent|) ==> delivered <= |sent|)
  }

  ghost predicate Good(i: Inbox, first: nat, sent: seq<Message>, delivered: nat) {
    Numbered(first, sent) && HoldsSent(i, first, sent) && At(i, first, sent, delivered)
  }

  function Position(delivered: nat, count: nat): (k: nat)
    requires count > 0
    ensures k < count
  {
    delivered % count
  }

  /** Message `m` is the one to deliver after `n` others. */
  ghost predicate InPlace(sent: seq<Message>, n: nat, m: Message) {
    sent != [] && m == sent[Position(n, |sent|)]
  }

  /** The messages from number `from` on, starting over after the last. */
  ghost predicate Cycles(sent: seq<Message>, from: nat, rest: seq<Message>) {
    forall k :: 0 <= k < |rest| ==> InPlace(sent, from + k, rest[k])
  }

  /** A counter inside the numbers of the list is at the next position of the list. */
  lemma CounterIsPosition(first: nat, count: nat, delivered: nat, expected: nat)
    requires first < U16_LIMIT && first + count <= U16_LIMIT && (NotWrapped(first, count) ==> delivered <= count)
    requires expected == (first + delivered) % U16_LIMIT && first <= expected < first + count
    ensures expected == first + Position(delivered, count)
    ensures NotWrapped(first, count) ==> delivered < count
  {
    if NotWrapped(first, count) {
      SmallRemainder(first + delivered, U16_LIMIT);
      SmallRemainder(delivered, count);
    }
  }

  lemma SmallRemainder(n: nat, m: nat)
    requires m > 0 && n <= m
    ensures n % m == if n < m then n else 0
  {}

  lemma SuccessorCounts(n: nat)
    ensures Successor(n % U16_LIMIT) == (n + 1) % U16_LIMIT
  {}

  lemma ExpectedDoesNotMatter(i: Inbox, expected: nat, first: nat, sent: seq<Message>)
    requires HoldsSent(i, first, sent)
    ensures HoldsSent(i.(expected := expected), first, sent)
  {}

  /** When a genuine message carries the expected number, it is the next one to deliver. */
  lemma ExpectedIsNext(i: Inbox, first: nat, sent: seq<Message>, delivered: nat)
    requires Good(i, first, sent, delivered) && first <= i.expected < first + |sent|
    ensures i.expected == first + Position(delivered, |sent|)
    ensures Good(i.(expected := Successor(i.expected)), first, sent, delivered + 1)
  {
    hide HoldsSent;
    CounterIsPosition(first, |sent|, delivered, i.expected);
    SuccessorCounts(first + delivered);
    ExpectedDoesNotMatter(i, Successor(i.expected), first, sent);
  }

  lemma PoppedIsGood(i: Inbox, first: nat, sent: seq<Message>, delivered: nat)
    requires Good(i, first, sent, delivered) && i.expected in i.ready
    ensures sent != [] && i.ready[i.expected] == sent[Position(delivered, |sent|)]
    ensures Good(Popped(i), first, sent, delivered + 1)
  {
    ExpectedIsNext(i, first, sent, delivered);
  }

  /** `rest` are the messages after the first `delivered` ones, and the inbox is where they end. */
  ghost predicate Continues(after: Inbox, rest: seq<Message>, first: nat, sent: seq<Message>, delivered: nat) {
    Cycles(sent, delivered, rest) && Good(after, first, sent, delivered + |rest|)
  }

  lemma OneEarlier(after: Inbox, rest: seq<Message>, first: nat, sent: seq<Message>, delivered: nat)
    requires sent != [] && Continues(after, rest, first, sent, delivered + 1)
    ensures Continues(after, [sent[Position(delivered, |sent|)]] + rest, first, sent, delivered)
  {
    hide Position, Good;
    var all := [sent[Position(delivered, |sent|)]] + rest;
    forall k | 0 <= k < |all| ensures InPlace(sent, delivered + k, all[k]) {
      if k > 0 { assert InPlace(sent, delivered + 1 + (k - 1), rest[k - 1]); }
    }
  }

  lemma {:induction false} DrainDeliversNext(i: Inbox, first: nat, sent: seq<Message>, delivered: nat)
    requires Good(i, first, sent, delivered)
    ensures Continues(Drain(i).0, Drain(i).1, first, sent, delivered)
    decreases |i.ready|
  {
    if i.expected in i.ready {
      PoppedIsGood(i, first, sent, delivered);
      DrainDeliversNext(Popped(i), first, sent, delivered + 1);
      OneEarlier(Drain(Popped(i)).0, Drain(Popped(i)).1, first, sent, delivered);
    }
  }

  /** A step hands out the next messages of `sent`. */
  ghost predicate DeliversNext(after: Inbox, d: Delivery, first: nat, sent: seq<Message>, delivered: nat) {
    HoldsSent(after, first, sent) && (d.Delivered? ==> Continues(after, d.messages, first, sent, delivered))
  }

  lemma TakeDeliversNext(i: Inbox, m: Message, limits: Limits, first: nat, sent: seq<Message>, delivered: nat)
    requires Good(i, first, sent, delivered)
    requires first <= m.sequence < first + |sent| && m == sent[m.sequence - first]
    ensures DeliversNext(Take(i, m, limits).0, Take(i, m, limits).1, first, sent, delivered)
  {
    hide HoldsSent, Drain, Cycles, At;
    if m.sequence == i.expected {
      ExpectedIsNext(i, first, sent, delivered);
      var next := i.(expected := Successor(i.expected));
      DrainDeliversNext(next, first, sent, delivered + 1);
      OneEarlier(Drain(next).0, Drain(next).1, first, sent, delivered);
    } else {
      StoreEarly(i, m, first, sent, delivered);
    }
  }

  lemma StoreEarly(i: Inbox, m: Message, first: nat, sent: seq<Message>, delivered: nat)
    requires Good(i, first, sent, delivered)
    requires first <= m.sequence < first + |sent| && m == sent[m.sequence - first]
    ensures Continues(i.(ready := i.ready[m.sequence := m], readyBytes := i.readyBytes + |m.body|), [], first, sent,
                      delivered)
  {}

  lemma AddHoldsSent(i: Inbox, a: Arrival, limits: Limits, first: nat, sent: seq<Message>)
    requires Numbered(first, sent) && HoldsSent(i, first, sent) && Genuine(a.fragment, first, sent)
    ensures var (store, outcome) := Add(i.store, a.fragment, a.epoch, a.protected, limits);
            && HoldsSent(i.(store := store), first, sent)
            && (outcome.Complete?
                ==> Message(a.fragment.typ, a.fragment.sequence, outcome.body) == sent[a.fragment.sequence - first])
  {
    AddedPartsComplete(i.store, a.fragment, a.epoch, a.protected, limits, sent[a.fragment.sequence - first]);
  }

  lemma ReceiveDeliversNext(i: Inbox, a: Arrival, limits: Limits, first: nat, sent: seq<Message>, delivered: nat)
    requires Good(i, first, sent, delivered) && Genuine(a.fragment, first, sent)
    ensures var (after, d) := Receive(i, a.fragment, a.epoch, a.protected, limits);
            DeliversNext(after, d, first, sent, delivered)
  {
    hide HoldsSent, Add, Take;
    if a.fragment.sequence >= i.expected && a.fragment.sequence !in i.ready {
      AddHoldsSent(i, a, limits, first, sent);
      var result := Add(i.store, a.fragment, a.epoch, a.protected, limits);
      if result.1.Complete? {
        TakeDeliversNext(i.(store := result.0), sent[a.fragment.sequence - first], limits, first, sent, delivered);
      }
    }
  }

  lemma CyclesExtend(sent: seq<Message>, sofar: seq<Message>, more: seq<Message>)
    requires Cycles(sent, 0, sofar) && Cycles(sent, |sofar|, more)
    ensures Cycles(sent, 0, sofar + more)
  {
    hide InPlace;
    var all := sofar + more;
    forall k | 0 <= k < |all| ensures InPlace(sent, 0 + k, all[k]) {
      if k < |sofar| {
        assert InPlace(sent, 0 + k, sofar[k]);
      } else {
        assert InPlace(sent, |sofar| + (k - |sofar|), more[k - |sofar|]);
      }
    }
  }

  lemma NextArrival(i: Inbox, a: Arrival, limits: Limits, first: nat, sent: seq<Message>, sofar: seq<Message>)
    requires Continues(i, sofar, first, sent, 0) && Genuine(a.fragment, first, sent)
    ensures var (after, more) := Receive(i, a.fragment, a.epoch, a.protected, limits);
            more.Delivered? ==> Continues(after, sofar + more.messages, first, sent, 0)
  {
    hide Receive, Good, Cycles;
    ReceiveDeliversNext(i, a, limits, first, sent, |sofar|);
    var more := Receive(i, a.fragment, a.epoch, a.protected, limits).1;
    if more.Delivered? { CyclesExtend(sent, sofar, more.messages); }
  }

  ghost predicate AllGenuine(arrivals: seq<Arrival>, first: nat, sent: seq<Message>) {
    forall a :: a in arrivals ==> Genuine(a.fragment, first, sent)
  }

  /** Unless a fragment was rejected, the sent messages have been delivered in order and the inbox awaits the rest. */
  ghost predicate DeliveredInOrder(i: Inbox, d: Delivery, first: nat, sent: seq<Message>) {
    d.Delivered? ==> Continues(i, d.messages, first, sent, 0)
  }

  lemma GenuineIsWellFormed(arrivals: seq<Arrival>, first: nat, sent: seq<Message>)
    requires AllGenuine(arrivals, first, sent)
    ensures WellFormed(arrivals)
  {}

  /** One more arrival, with everything about the earlier ones given. */
  lemma FeedLast(i: Inbox, arrivals: seq<Arrival>, limits: Limits, before: Inbox, sofar: Delivery, after: Inbox,
                 more: Delivery)
    requires arrivals != [] && WellFormed(arrivals)
    requires Feed(i, arrivals[..|arrivals| - 1], limits) == (before, sofar)
    requires var a := arrivals[|arrivals| - 1];
             Receive(before, a.fragment, a.epoch, a.protected, limits) == (after, more)
    ensures Feed(i, arrivals, limits)
         == if sofar.Rejected? then (before, Rejected) else if more.Rejected? then (after, Rejected)
            else (after, Delivered(sofar.messages + more.messages))
  {}

  /** Every run that is not rejected delivers the sent messages in order, each unaltered, one after the other. */
  lemma {:induction false} DeliversInOrder(first: nat, sent: seq<Message>, arrivals: seq<Arrival>, limits: Limits)
    requires Numbered(first, sent) && AllGenuine(arrivals, first, sent)
    ensures WellFormed(arrivals)
    ensures DeliveredInOrder(Feed(NewInbox(first), arrivals, limits).0, Feed(NewInbox(first), arrivals, limits).1,
                             first, sent)
  {
    GenuineIsWellFormed(arrivals, first, sent);
    if arrivals != [] {
      var last := |arrivals| - 1;
      DeliversInOrder(first, sent, arrivals[..last], limits);
      LastArrival(first, sent, arrivals, limits);
    }
  }

  /**
   * Every run that is not rejected delivers a prefix of the sent messages, each once, unless more messages are handed
   * out than were sent. That takes a list that fills the whole number space, and then the list starts over.
   */
  lemma DeliversAPrefix(first: nat, sent: seq<Message>, arrivals: seq<Arrival>, limits: Limits)
    requires Numbered(first, sent) && AllGenuine(arrivals, first, sent)
    ensures WellFormed(arrivals)
    ensures var d := Feed(NewInbox(first), arrivals, limits).1;
            d.Delivered? ==>
              && (d.messages <= sent <==> |d.messages| <= |sent|)
              && (NotWrapped(first, |sent|) ==> |d.messages| <= |sent|)
              && (forall k :: 0 <= k < |d.messages| ==> sent != [] && d.messages[k] == sent[k % |sent|])
  {
    hide Feed, HoldsSent;
    DeliversInOrder(first, sent, arrivals, limits);
    var d := Feed(NewInbox(first), arrivals, limits).1;
    if d.Delivered? { CycleFromStart(sent, d.messages); }
  }

  lemma CycleFromStart(sent: seq<Message>, messages: seq<Message>)
    requires Cycles(sent, 0, messages)
    ensures forall k :: 0 <= k < |messages| ==> sent != [] && messages[k] == sent[k % |sent|]
    ensures messages <= sent <==> |messages| <= |sent|
  {
    forall k | 0 <= k < |messages| ensures sent != [] && messages[k] == sent[k % |sent|] {
      assert InPlace(sent, 0 + k, messages[k]);
    }
    if |messages| <= |sent| {
      forall k | 0 <= k < |messages| ensures messages[k] == sent[k] {
        assert k % |sent| == k;
      }
    }
  }

  lemma LastArrival(first: nat, sent: seq<Message>, arrivals: seq<Arrival>, limits: Limits)
    requires arrivals != [] && WellFormed(arrivals) && Genuine(arrivals[|arrivals| - 1].fragment, first, sent)
    requires var (i, d) := Feed(NewInbox(first), arrivals[..|arrivals| - 1], limits);
             DeliveredInOrder(i, d, first, sent)
    ensures var (i, d) := Feed(NewInbox(first), arrivals, limits); DeliveredInOrder(i, d, first, sent)
  {
    var a := arrivals[|arrivals| - 1];
    var (before, sofar) := Feed(NewInbox(first), arrivals[..|arrivals| - 1], limits);
    var (after, more) := Receive(before, a.fragment, a.epoch, a.protected, limits);
    FeedLast(NewInbox(first), arrivals, limits, before, sofar, after, more);
    if sofar.Delivered? { NextArrival(before, a, limits, first, sent, sofar.messages); }
  }

  // ---------------------------------------------------------------- progress, and the one case where the counter wraps

  function Wrap(sequence: nat): nat {
    if sequence == U16_LIMIT then 0 else sequence
  }

  function Whole(m: Message): Arrival {
    Arrival(Cut(m, 0, |m.body|), 0, false)
  }

  function Wholes(sent: seq<Message>): seq<Arrival> {
    seq(|sent|, k requires 0 <= k < |sent| => Whole(sent[k]))
  }

  ghost predicate Roomy(limits: Limits, m: Message) {
    limits.maxMessages >= 1 && |m.body| <= limits.maxSize && |m.body| <= limits.maxBytes
  }

  lemma ReceiveWhole(expected: nat, m: Message, limits: Limits)
    requires expected < U16_LIMIT && m.sequence == expected && Roomy(limits, m)
    ensures Receive(NewInbox(expected), Whole(m).fragment, 0, false, limits)
            == (NewInbox(Successor(expected)), Delivered([m]))
  {
    var f := Whole(m).fragment;
    assert f.body == m.body;
    assert Add(NewInbox(expected).store, f, 0, false, limits) == (NewInbox(expected).store, Complete(m.body));
    assert Drain(NewInbox(Successor(expected))) == (NewInbox(Successor(expected)), []);
    assert [m] + [] == [m];
  }

  lemma FeedOneMore(i: Inbox, arrivals: seq<Arrival>, a: Arrival, limits: Limits, sofar: seq<Message>, before: Inbox,
                    more: seq<Message>, after: Inbox)
    requires WellFormed(arrivals) && a.fragment.offset + |a.fragment.body| <= a.fragment.length
    requires Feed(i, arrivals, limits) == (before, Delivered(sofar))
    requires Receive(before, a.fragment, a.epoch, a.protected, limits) == (after, Delivered(more))
    ensures WellFormed(arrivals + [a]) && Feed(i, arrivals + [a], limits) == (after, Delivered(sofar + more))
  {
    assert (arrivals + [a])[..|arrivals|] == arrivals;
  }

  /** The arrivals take the inbox through the given states, each handing out one message. */
  ghost predicate Trace(arrivals: seq<Arrival>, limits: Limits, states: seq<Inbox>, messages: seq<Message>) {
    && WellFormed(arrivals) && |states| == |arrivals| + 1 && |messages| == |arrivals|
    && forall k :: 0 <= k < |arrivals| ==> HandsOut(states[k], arrivals[k], limits, states[k + 1], messages[k])
  }

  ghost predicate HandsOut(i: Inbox, a: Arrival, limits: Limits, after: Inbox, m: Message) {
    a.fragment.offset + |a.fragment.body| <= a.fragment.length
    && Receive(i, a.fragment, a.epoch, a.protected, limits) == (after, Delivered([m]))
  }

  lemma {:induction false} TraceFeeds(arrivals: seq<Arrival>, limits: Limits, states: seq<Inbox>,
                                      messages: seq<Message>)
    requires Trace(arrivals, limits, states, messages)
    ensures Feed(states[0], arrivals, limits) == (states[|arrivals|], Delivered(messages))
  {
    if arrivals != [] {
      var last := |arrivals| - 1;
      TraceFeeds(arrivals[..last], limits, states[..last + 1], messages[..last]);
      assert HandsOut(states[last], arrivals[last], limits, states[last + 1], messages[last]);
      FeedLast(states[0], arrivals, limits, states[last], Delivered(messages[..last]), states[last + 1],
               Delivered([messages[last]]));
      assert messages == messages[..last] + [messages[last]];
    }
  }

  ghost predicate Feeds(first: nat, arrivals: seq<Arrival>, limits: Limits, expected: nat, messages: seq<Message>) {
    WellFormed(arrivals) && Feed(NewInbox(first), arrivals, limits) == (NewInbox(expected), Delivered(messages))
  }

  lemma FeedsOneMore(first: nat, arrivals: seq<Arrival>, limits: Limits, expected: nat, messages: seq<Message>,
                     m: Message)
    requires Feeds(first, arrivals, limits, expected, messages)
    requires expected < U16_LIMIT && m.sequence == expected && Roomy(limits, m)
    ensures Feeds(first, arrivals + [Whole(m)], limits, Successor(expected), messages + [m])
  {
    ReceiveWhole(expected, m, limits);
    FeedOneMore(NewInbox(first), arrivals, Whole(m), limits, messages, NewInbox(expected), [m],
                NewInbox(Successor(expected)));
  }

  lemma WholeHandsOut(n: nat, m: Message, limits: Limits)
    requires n < U16_LIMIT && m.sequence == n && Roomy(limits, m)
    ensures HandsOut(NewInbox(Wrap(n)), Whole(m), limits, NewInbox(Wrap(n + 1)), m)
  {
    ReceiveWhole(n, m, limits);
    assert Wrap(n) == n && Successor(n) == Wrap(n + 1);
  }

  lemma TraceFeedsTo(first: nat, arrivals: seq<Arrival>, limits: Limits, states: seq<Inbox>, messages: seq<Message>,
                     expected: nat)
    requires Trace(arrivals, limits, states, messages)
    requires states[0] == NewInbox(first) && states[|arrivals|] == NewInbox(expected)
    ensures Feeds(first, arrivals, limits, expected, messages)
  {
    TraceFeeds(arrivals, limits, states, messages);
  }

  /** The inbox before each of the messages, and after the last. */
  function Stations(first: nat, count: nat): (states: seq<Inbox>)
    ensures |states| == count + 1
  {
    seq(count + 1, k requires 0 <= k <= count => NewInbox(Wrap(first + k)))
  }

  lemma NextStation(first: nat, sent: seq<Message>, limits: Limits, k: nat)
    requires Numbered(first, sent) && k < |sent| && Roomy(limits, sent[k])
    ensures HandsOut(Stations(first, |sent|)[k], Wholes(sent)[k], limits, Stations(first, |sent|)[k + 1], sent[k])
  {
    WholeHandsOut(first + k, sent[k], limits);
    assert Stations(first, |sent|)[k + 1] == NewInbox(Wrap(first + k + 1));
  }

  lemma WholesTrace(first: nat, sent: seq<Message>, limits: Limits)
    requires Numbered(first, sent) && forall m :: m in sent ==> Roomy(limits, m)
    ensures Trace(Wholes(sent), limits, Stations(first, |sent|), sent)
  {
    forall k | 0 <= k < |sent|
      ensures HandsOut(Stations(first, |sent|)[k], Wholes(sent)[k], limits, Stations(first, |sent|)[k + 1], sent[k]) {
      assert sent[k] in sent;
      NextStation(first, sent, limits, k);
    }
  }

  /** Messages that arrive whole and in order are all delivered. */
  lemma InOrderIsDelivered(first: nat, sent: seq<Message>, limits: Limits)
    requires Numbered(first, sent) && forall m :: m in sent ==> Roomy(limits, m)
    ensures Feeds(first, Wholes(sent), limits, Wrap(first + |sent|), sent)
  {
    WholesTrace(first, sent, limits);
    var states := Stations(first, |sent|);
    assert states[0] == NewInbox(Wrap(first + 0)) && states[|sent|] == NewInbox(Wrap(first + |sent|));
    TraceFeedsTo(first, Wholes(sent), limits, states, sent, Wrap(first + |sent|));
  }

  /** Once all 65536 numbers from 0 have been delivered, a late copy of message 0 is delivered a second time. */
  lemma FullWrapRepeatsAMessage(sent: seq<Message>, limits: Limits)
    requires Numbered(0, sent) && |sent| == U16_LIMIT && forall m :: m in sent ==> Roomy(limits, m)
    ensures var arrivals := Wholes(sent) + [Whole(sent[0])];
            && (forall a :: a in arrivals ==> Genuine(a.fragment, 0, sent))
            && Feeds(0, arrivals, limits, 1, sent + [sent[0]])
            && !(sent + [sent[0]] <= sent)
  {
    var arrivals := Wholes(sent) + [Whole(sent[0])];
    InOrderIsDelivered(0, sent, limits);
    assert sent[0] in sent;
    FeedsOneMore(0, Wholes(sent), limits, 0, sent, sent[0]);
    forall a | a in arrivals ensures Genuine(a.fragment, 0, sent) { WholesAreGenuine(0, sent, a); }
  }

  /** 65536 empty messages are such a run. */
  lemma FullWrapExists(limits: Limits)
    requires limits.maxMessages >= 1
    ensures exists sent :: Numbered(0, sent) && |sent| == U16_LIMIT && forall m :: m in sent ==> Roomy(limits, m)
  {
    var sent := seq(U16_LIMIT, k requires 0 <= k < U16_LIMIT => Message(0, k, []));
    assert Numbered(0, sent);
  }

  lemma WholesAreGenuine(first: nat, sent: seq<Message>, a: Arrival)
    requires Numbered(first, sent) && sent != [] && (a in Wholes(sent) || a == Whole(sent[0]))
    ensures Genuine(a.fragment, first, sent)
  {
    var k :| 0 <= k < |sent| && a == Whole(sent[k]);
    assert sent[k].body == sent[k].body[0..|sent[k].body|];
  }
}
