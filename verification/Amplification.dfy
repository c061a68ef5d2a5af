/** The three-times limit on bytes sent to an address that has not been validated (section 5.1 of RFC 9147). */
module Amplification {
  import opened Wire

  const MAX_UINT64 := U64_LIMIT - 1

  function AddSaturated(left: nat, right: nat): nat
    requires left <= MAX_UINT64
  {
    if MAX_UINT64 - left < right then MAX_UINT64 else left + right
  }

  /** Three times the received bytes, saturating. */
  function Budget(received: nat): nat {
    if received > MAX_UINT64 / 3 then MAX_UINT64 else 3 * received
  }

  function Least(a: nat, b: nat): nat {
    if a <= b then a else b
  }

  /** A saturated counter still never grants more than three times the true total. */
  lemma BudgetIsSafe(total: nat)
    ensures Budget(Least(total, MAX_UINT64)) <= 3 * total
  {}

  datatype Event = Received(n: int) | Send(n: int) | Validate

  datatype Guard = Guard(received: nat, sent: nat, validated: bool)

  function Allows(g: Guard, n: int): bool {
    n >= 0 && (g.validated || n <= Budget(g.received) - g.sent)
  }

  function After(g: Guard, e: Event): Guard
    requires g.received <= MAX_UINT64
  {
    match e
    case Received(n) => if n <= 0 then g else g.(received := AddSaturated(g.received, n))
    case Send(n) => if Allows(g, n) && !g.validated then g.(sent := g.sent + n) else g
    case Validate => g.(validated := true)
  }

  /** Both counters fit 64 bits, and the subtraction in the guard never wraps. */
  predicate Bounded(g: Guard) {
    g.received <= MAX_UINT64 && g.sent <= Budget(g.received)
  }

  const INITIAL := Guard(0, 0, false)

  ghost function Run(events: seq<Event>): (g: Guard)
    ensures Bounded(g)
  {
    if events == [] then INITIAL else After(Run(events[..|events| - 1]), events[|events| - 1])
  }

  ghost function BytesReceived(events: seq<Event>): nat {
    if events == [] then 0
    else
      var e := events[|events| - 1];
      BytesReceived(events[..|events| - 1]) + if e.Received? && e.n > 0 then e.n else 0
  }

  /** Bytes that pass the guard before the address is validated. */
  ghost function BytesSent(events: seq<Event>): nat {
    if events == [] then 0
    else
      var g, e := Run(events[..|events| - 1]), events[|events| - 1];
      BytesSent(events[..|events| - 1]) + if e.Send? && Allows(g, e.n) && !g.validated then e.n else 0
  }

  lemma {:induction false} CountersAreTotals(events: seq<Event>)
    ensures Run(events).received == Least(BytesReceived(events), MAX_UINT64)
    ensures Run(events).sent == BytesSent(events)
  {
    if events != [] {
      CountersAreTotals(events[..|events| - 1]);
    }
  }

  /** Over any run the bytes sent before validation are at most three times the bytes received. */
  lemma NeverMoreThanThreeTimes(events: seq<Event>)
    ensures BytesSent(events) <= 3 * BytesReceived(events)
    ensures Run(events).sent <= MAX_UINT64
  {
    CountersAreTotals(events);
    BudgetIsSafe(BytesReceived(events));
  }

  lemma {:induction false} ValidatedExactly(events: seq<Event>)
    ensures Run(events).validated <==> Validate in events
  {
    if events != [] {
      ValidatedExactly(events[..|events| - 1]);
      assert events == events[..|events| - 1] + [events[|events| - 1]];
    }
  }

  /** A send passes exactly when the address was validated, or three times the received bytes leave room for it. */
  lemma AllowsExactly(events: seq<Event>, n: int)
    ensures Allows(Run(events), n)
            <==> n >= 0 && (Validate in events || BytesSent(events) + n <= Least(3 * BytesReceived(events), MAX_UINT64))
  {
    CountersAreTotals(events);
    ValidatedExactly(events);
  }

  class AmplificationGuard {
    var received: nat
    var sent: nat
    var validated: bool

    ghost function View(): Guard
      reads this
    {
      Guard(received, sent, validated)
    }

    ghost predicate Valid()
      reads this
    {
      Bounded(View())
    }

    constructor ()
      ensures Valid() && View() == INITIAL
    {
      received, sent, validated := 0, 0, false;
    }

    method RecordReceived(n: int)
      requires Valid()
      modifies `received
      ensures Valid() && View() == After(old(View()), Received(n))
    {
      if n <= 0 { return; }
      if MAX_UINT64 - received < n {
        received := MAX_UINT64;
      } else {
        received := received + n;
      }
    }

    method AllowSend(n: int) returns (allowed: bool)
      requires Valid()
      modifies `sent
      ensures Valid() && View() == After(old(View()), Send(n))
      ensures allowed == Allows(old(View()), n)
    {
      if n < 0 { return false; }
      if validated { return true; }
      var budget: nat := received;
      if budget > MAX_UINT64 / 3 {
        budget := MAX_UINT64;
      } else {
        budget := budget * 3;
      }
      var left: nat := budget - sent;
      if n > left { return false; }
      sent := sent + n;
      return true;
    }

    method MarkValidated()
      requires Valid()
      modifies `validated
      ensures Valid() && View() == After(old(View()), Event.Validate)
    {
      validated := true;
    }
  }
}
