/** The path validation state machine: when a record from a new address may move the connection there. */
module PathValidation {
  import opened Wire
  import opened Amplification

  const ZERO_COOKIE: Bytes := [0, 0, 0, 0, 0, 0, 0, 0]

  datatype Kind = PathChallenge | PathResponse | PathDrop

  // ---------------------------------------------------------------- messages

  datatype Message = Message(kind: Kind, cookie: Bytes)

  function Marshal(m: Message): Bytes {
    [match m.kind case PathChallenge => 0 case PathResponse => 1 case PathDrop => 2] + m.cookie
  }

  datatype Parsed = Known(message: Message) | Unknown | Malformed

  function Parse(wire: Bytes): Parsed {
    if wire == [] then Malformed
    else if wire[0] > 2 then Unknown
    else if |wire| != 9 then Malformed
    else
      var kind := if wire[0] == 0 then PathChallenge else if wire[0] == 1 then PathResponse else PathDrop;
      Known(Message(kind, wire[1..]))
  }

  lemma MessageRoundTrip(m: Message, wire: Bytes)
    requires |m.cookie| == 8
    ensures Parse(Marshal(m)) == Known(m)
    ensures Parse(wire).Known? ==> |Parse(wire).message.cookie| == 8 && Marshal(Parse(wire).message) == wire
  {
    assert Marshal(m)[1..] == m.cookie;
    if wire != [] { assert wire == [wire[0]] + wire[1..]; }
  }

  /** A message is its type, 0 to 2 in the order of the RFC 9853 registry, and its cookie. */
  lemma MessageBytes(cookie: Bytes)
    ensures Marshal(Message(PathChallenge, cookie)) == [0] + cookie
    ensures Marshal(Message(PathResponse, cookie)) == [1] + cookie
    ensures Marshal(Message(PathDrop, cookie)) == [2] + cookie
  {}

  /**
   * A wire is ignored as unknown exactly for a later type, and is malformed exactly when empty or of a wrong length.
   */
  lemma ParsesExactly(wire: Bytes)
    ensures Parse(wire) == Unknown <==> wire != [] && wire[0] > 2
    ensures Parse(wire) == Malformed <==> wire == [] || (wire[0] <= 2 && |wire| != 9)
  {}

  // ---------------------------------------------------------------- states

  datatype Phase = Idle | CheckingOldPath | CheckingNewPath

  datatype Check = Check(phase: Phase, generation: nat, oldAddress: Option<Address>, newAddress: Option<Address>,
                         cookie: Bytes, received: nat, sent: nat)

  /**
   * The connection's address and check, with a ledger of true totals: bytes from and to the candidate in this check,
   * how many of the latter belonged to unfinished writes, and how often the generation was advanced.
   */
  datatype Path = Path(remote: Address, check: Check, got: nat, given: nat, lost: nat, ticks: nat)

  const NO_CHECK := Check(Idle, 0, None, None, ZERO_COOKIE, 0, 0)

  function Initial(remote: Address): Path {
    Path(remote, NO_CHECK, 0, 0, 0, 0)
  }

  /**
   * How a send ends: the size of the datagram, how many of its bytes left, whether sealing or writing failed, and
   * whether the follow-up work succeeded.
   */
  datatype Outcome = Outcome(size: nat, left: nat, refused: bool, healthy: bool)

  /** A write that reports fewer bytes than it was given is an error too. */
  predicate Whole(out: Outcome) {
    !out.refused && out.left == out.size
  }

  /** Random bytes are drawn where the source draws them; None is a failing source. */
  datatype Step =
    | Observe(from: Address, bytes: nat, draw: Option<Bytes>, out: Outcome)
    | Receive(kind: Kind, cookie: Bytes, from: Address, draw: Option<Bytes>, out: Outcome, activated: bool)
    | Expire(generation: nat, draw: Option<Bytes>, out: Outcome)
    | Forget

  predicate Counted(c: Check, address: Address) {
    c.phase != Idle && c.newAddress == Some(address)
  }

  predicate Allowed(c: Check, address: Address, size: nat) {
    Counted(c, address) ==> c.sent <= Budget(c.received) && size <= Budget(c.received) - c.sent
  }

  /** The 64-bit generation wraps. */
  function Bump(generation: nat): nat {
    (generation + 1) % U64_LIMIT
  }

  function Advance(p: Path): Path {
    p.(check := p.check.(generation := Bump(p.check.generation)), ticks := p.ticks + 1)
  }

  function Clear(p: Path): Path {
    p.(check := Check(Idle, Bump(p.check.generation), None, None, ZERO_COOKIE, 0, 0), got := 0, given := 0, lost := 0,
       ticks := p.ticks + 1)
  }

  datatype Sent = Sent(path: Path, ok: bool)

  /** A send beyond the budget is dropped silently; an unfinished one is an error, and its bytes are not counted. */
  function Emit(p: Path, address: Address, out: Outcome): Sent {
    if !Allowed(p.check, address, out.size) then Sent(p, true)
    else if !Counted(p.check, address) then Sent(p, Whole(out) && out.healthy)
    else if !Whole(out) then Sent(p.(given := p.given + out.left, lost := p.lost + out.left), false)
    else
      Sent(p.(check := p.check.(sent := AddedTo(p.check.sent, out.size)), given := p.given + out.size), out.healthy)
  }

  function AddedTo(total: nat, bytes: nat): nat {
    if total <= MAX_UINT64 then AddSaturated(total, bytes) else total
  }

  /** Sends the phase's challenge and arms its timer; a failure abandons the check. */
  function Challenge(p: Path, address: Address, out: Outcome): Path {
    var s := Emit(p, address, out);
    if s.ok then Advance(s.path) else Clear(s.path)
  }

  function StartNewPath(p: Path, draw: Option<Bytes>, out: Outcome): Path {
    if p.check.phase == Idle || p.check.newAddress.None? then p
    else if draw.None? then Clear(p)
    else Challenge(Probing(p, draw.value), p.check.newAddress.value, out)
  }

  /** A new check, before the old path is challenged. */
  function Begun(p: Path, from: Address, bytes: nat, drawn: Bytes): Path {
    p.(check := Check(CheckingOldPath, p.check.generation, Some(p.remote), Some(from), drawn, bytes, 0), got := bytes,
       given := 0, lost := 0)
  }

  function Observed(p: Path, from: Address, bytes: nat, draw: Option<Bytes>, out: Outcome): Path {
    if from == p.remote || bytes == 0 then p
    else if p.check.phase != Idle then
      if p.check.newAddress == Some(from)
      then p.(check := p.check.(received := AddedTo(p.check.received, bytes)), got := p.got + bytes)
      else p
    else if draw.None? then p
    else Challenge(Begun(p, from, bytes, draw.value), p.remote, out)
  }

  function Received(p: Path, kind: Kind, cookie: Bytes, from: Address, draw: Option<Bytes>, out: Outcome,
                    activated: bool): Path {
    if kind == PathChallenge then Emit(p, from, out).path
    else match p.check.phase
      case Idle => p
      case CheckingOldPath =>
        if p.check.oldAddress != Some(from) || p.check.cookie != cookie then p
        else if kind == PathResponse then Clear(p)
        else StartNewPath(p, draw, out)
      case CheckingNewPath =>
        if kind != PathResponse || p.check.newAddress != Some(from) || p.check.cookie != cookie then p
        else if activated then Clear(p).(remote := from)
        else Clear(p)
  }

  function Expired(p: Path, generation: nat, draw: Option<Bytes>, out: Outcome): Path {
    if p.check.generation != generation || p.check.phase == Idle then p
    else if p.check.phase == CheckingOldPath then StartNewPath(p, draw, out)
    else Clear(p)
  }

  function Next(p: Path, step: Step): Path {
    match step
    case Observe(from, bytes, draw, out) => Observed(p, from, bytes, draw, out)
    case Receive(kind, cookie, from, draw, out, activated) => Received(p, kind, cookie, from, draw, out, activated)
    case Expire(generation, draw, out) => Expired(p, generation, draw, out)
    case Forget => Clear(p)
  }

  /** The start of the new-path phase, before its challenge is sent. */
  function Probing(p: Path, drawn: Bytes): Path {
    p.(check := p.check.(cookie := drawn, phase := CheckingNewPath))
  }

  predicate StartFails(p: Path, draw: Option<Bytes>, out: Outcome) {
    p.check.phase != Idle && p.check.newAddress.Some? &&
    (draw.None? || !Emit(Probing(p, draw.value), p.check.newAddress.value, out).ok)
  }

  /** The steps whose handler returns an error. */
  predicate Fails(p: Path, step: Step) {
    match step
    case Observe(from, bytes, draw, out) =>
      from != p.remote && bytes != 0 && p.check.phase == Idle
        && (draw.None? || !Emit(Begun(p, from, bytes, draw.value), p.remote, out).ok)
    case Receive(kind, cookie, from, draw, out, activated) =>
      (match kind
       case PathChallenge => !Emit(p, from, out).ok
       case PathDrop =>
         p.check.phase == CheckingOldPath && p.check.oldAddress == Some(from) && p.check.cookie == cookie
         && StartFails(p, draw, out)
       case PathResponse =>
         p.check.phase == CheckingNewPath && p.check.newAddress == Some(from) && p.check.cookie == cookie && !activated)
    case Expire(generation, draw, out) =>
      generation == p.check.generation && p.check.phase == CheckingOldPath && StartFails(p, draw, out)
    case Forget => false
  }

  /** The reply to a challenge: only the current address is confirmed. */
  function Reply(p: Path, kind: Kind, from: Address, out: Outcome): Option<Kind> {
    if kind != PathChallenge || !Allowed(p.check, from, out.size) || !Whole(out) then None
    else Some(if from == p.remote then PathResponse else PathDrop)
  }

  /** A read returns a length that fits a signed 64-bit integer. */
  predicate Enabled(step: Step) {
    step.Observe? ==> step.bytes < U64_LIMIT / 2
  }

  ghost predicate Feasible(steps: seq<Step>) {
    forall i :: 0 <= i < |steps| ==> Enabled(steps[i])
  }

  ghost function Run(remote: Address, steps: seq<Step>): Path {
    if steps == [] then Initial(remote) else Next(Run(remote, steps[..|steps| - 1]), steps[|steps| - 1])
  }

  // ---------------------------------------------------------------- invariant

  ghost predicate Accounted(p: Path) {
    && p.check.received == Least(p.got, MAX_UINT64)
    && p.check.sent <= Budget(p.check.received) && p.given == p.check.sent + p.lost
    && (p.check.phase == Idle ==> p.lost == 0)
  }

  ghost predicate Placed(p: Path) {
    p.check.phase != Idle ==>
      p.check.oldAddress == Some(p.remote) && p.check.newAddress.Some? && p.check.newAddress != Some(p.remote)
  }

  ghost predicate Inv(p: Path) {
    Accounted(p) && Placed(p) && p.check.generation == p.ticks % U64_LIMIT
  }

  lemma ChallengeKeeps(p: Path, address: Address, out: Outcome)
    requires Inv(p)
    ensures Inv(Challenge(p, address, out))
  {
    SendKeeps(p, address, out);
    ClearKeeps(Emit(p, address, out).path);
    AdvanceKeeps(Emit(p, address, out).path);
  }

  lemma SendKeeps(p: Path, address: Address, out: Outcome)
    requires Inv(p)
    ensures Inv(Emit(p, address, out).path)
  {}

  lemma Ticking(n: nat)
    ensures Bump(n % U64_LIMIT) == (n + 1) % U64_LIMIT
  {}

  lemma ClearKeeps(p: Path)
    requires Inv(p)
    ensures Inv(Clear(p))
  {
    Ticking(p.ticks);
  }

  lemma AdvanceKeeps(p: Path)
    requires Inv(p)
    ensures Inv(Advance(p))
  {
    Ticking(p.ticks);
  }

  lemma StepKeeps(p: Path, step: Step)
    requires Inv(p) && Enabled(step)
    ensures Inv(Next(p, step))
  {
    ClearKeeps(p);
    match step
    case Observe(from, bytes, draw, out) =>
      if p.check.phase == Idle && from != p.remote && bytes != 0 && draw.Some? {
        ChallengeKeeps(Begun(p, from, bytes, draw.value), p.remote, out);
      } else {
        BudgetIsSafe(p.got);
      }
    case Receive(kind, cookie, from, draw, out, activated) =>
      SendKeeps(p, from, out);
      StartKeeps(p, draw, out);
    case Expire(generation, draw, out) =>
      StartKeeps(p, draw, out);
    case Forget =>
  }

  lemma StartKeeps(p: Path, draw: Option<Bytes>, out: Outcome)
    requires Inv(p)
    ensures Inv(StartNewPath(p, draw, out))
  {
    ClearKeeps(p);
    if p.check.phase != Idle && p.check.newAddress.Some? && draw.Some? {
      ChallengeKeeps(Probing(p, draw.value), p.check.newAddress.value, out);
    }
  }

  lemma {:induction false} RunKeeps(remote: Address, steps: seq<Step>)
    requires Feasible(steps)
    ensures Inv(Run(remote, steps))
  {
    if steps != [] {
      RunKeeps(remote, steps[..|steps| - 1]);
      StepKeeps(Run(remote, steps[..|steps| - 1]), steps[|steps| - 1]);
    }
  }

  /** A step that answers the candidate's challenge and fails after some bytes have left. */
  ghost predicate AnswersInPart(p: Path, step: Step) {
    && step.Receive? && step.kind == PathChallenge && Counted(p.check, step.from)
    && Allowed(p.check, step.from, step.out.size) && !Whole(step.out) && step.out.left > 0
  }

  /** Step `i` answered the candidate in part, and its check has been running ever since. */
  ghost predicate AnsweredInPart(remote: Address, steps: seq<Step>, i: nat) {
    && i < |steps| && AnswersInPart(Run(remote, steps[..i]), steps[i])
    && forall k :: i < k <= |steps| ==> Run(remote, steps[..k]).check.phase != Idle
  }

  lemma LosesExactlyInPart(p: Path, step: Step)
    requires Inv(p)
    ensures Next(p, step).lost > 0 <==> Next(p, step).check.phase != Idle && (p.lost > 0 || AnswersInPart(p, step))
  {}

  lemma AnsweredEarlier(remote: Address, steps: seq<Step>, i: nat)
    requires steps != [] && i < |steps| - 1
    ensures AnsweredInPart(remote, steps, i)
            <==> AnsweredInPart(remote, steps[..|steps| - 1], i) && Run(remote, steps).check.phase != Idle
  {
    hide AnswersInPart, Run;
    var before := steps[..|steps| - 1];
    PrefixOfInit(steps, i);
    assert steps[..|steps|] == steps;
    forall k | i < k <= |before| ensures before[..k] == steps[..k] {}
    if AnsweredInPart(remote, before, i) && Run(remote, steps).check.phase != Idle {
      forall k | i < k <= |steps| ensures Run(remote, steps[..k]).check.phase != Idle {
        assert k <= |before| ==> steps[..k] == before[..k];
      }
    }
  }

  lemma {:induction false} LostExactlyInPart(remote: Address, steps: seq<Step>)
    requires Feasible(steps)
    ensures Run(remote, steps).lost > 0 <==> exists i :: AnsweredInPart(remote, steps, i)
  {
    hide Next, AnswersInPart, Inv;
    if steps != [] {
      var last := |steps| - 1;
      var before := steps[..last];
      LostExactlyInPart(remote, before);
      RunKeeps(remote, before);
      LosesExactlyInPart(Run(remote, before), steps[last]);
      assert steps[..|steps|] == steps;
      assert AnsweredInPart(remote, steps, last)
        <==> AnswersInPart(Run(remote, before), steps[last]) && Run(remote, steps).check.phase != Idle;
      forall i: nat | i < last
        ensures AnsweredInPart(remote, steps, i)
                <==> AnsweredInPart(remote, before, i) && Run(remote, steps).check.phase != Idle {
        AnsweredEarlier(remote, steps, i);
      }
    }
  }

  /**
   * The counters never wrap. The bytes of finished writes to the candidate are never more than three times what it
   * sent, and those of unfinished writes come on top.
   */
  lemma FinishedWritesStayInBudget(remote: Address, steps: seq<Step>)
    requires Feasible(steps)
    ensures var p := Run(remote, steps);
            && p.given == p.check.sent + p.lost && p.check.sent <= 3 * p.got
            && p.check.sent <= MAX_UINT64 && p.check.received <= MAX_UINT64
  {
    RunKeeps(remote, steps);
    BudgetIsSafe(Run(remote, steps).got);
  }

  /**
   * The counter of sent bytes is the true total exactly when no answer to a challenge of the candidate was written in
   * part during the check. Then the candidate has been sent at most three times what it sent, and any one further write
   * stays within that bound, even one that is unfinished and ends the check.
   */
  lemma CandidateIsNeverAmplified(remote: Address, steps: seq<Step>, address: Address, out: Outcome)
    requires Feasible(steps) && out.left <= out.size
    ensures var p := Run(remote, steps);
            && (p.check.sent == p.given <==> !exists i :: AnsweredInPart(remote, steps, i))
            && (p.check.sent == p.given ==> p.given <= 3 * p.got && Emit(p, address, out).path.given <= 3 * p.got)
  {
    RunKeeps(remote, steps);
    LostExactlyInPart(remote, steps);
    BudgetIsSafe(Run(remote, steps).got);
  }

  /** A record of 10 bytes from a new address, and then challenges from there whose answers are cut by one byte. */
  function CutAnswers(remote: Address, candidate: Address, n: nat): seq<Step> {
    [Observe(candidate, 10, Some(ZERO_COOKIE), Outcome(30, 30, false, true))]
    + seq(n, _ => Receive(PathChallenge, ZERO_COOKIE, candidate, None, Outcome(30, 29, false, true), false))
  }

  /** Without that condition there is no bound at all: the answers cut short are never counted. */
  lemma {:induction false} CutAnswersAmplify(remote: Address, candidate: Address, n: nat)
    requires candidate != remote
    ensures var steps := CutAnswers(remote, candidate, n);
            && Feasible(steps) && Run(remote, steps).got == 10 && Run(remote, steps).given == 29 * n
            && Run(remote, steps).check.sent == 0 && Counted(Run(remote, steps).check, candidate)
            && Run(remote, steps).check.received == 10
  {
    var steps := CutAnswers(remote, candidate, n);
    if n > 0 {
      CutAnswersAmplify(remote, candidate, n - 1);
      assert steps[..|steps| - 1] == CutAnswers(remote, candidate, n - 1);
    } else {
      assert steps[..0] == [];
      assert Run(remote, []) == Initial(remote);
    }
  }

  // ---------------------------------------------------------------- timers

  /** A timer acts exactly when it carries the current generation of a running check. */
  lemma TimerActsExactlyWhenCurrent(p: Path, generation: nat, draw: Option<Bytes>, out: Outcome)
    requires Inv(p)
    ensures Next(p, Expire(generation, draw, out)) != p <==> generation == p.check.generation && p.check.phase != Idle
  {
    if generation == p.check.generation && p.check.phase != Idle {
      var after := Next(p, Expire(generation, draw, out));
      assert after.ticks > p.ticks;
    }
  }

  /** A timer armed earlier in the run is dead, as long as fewer than 2^64 generations have passed since. */
  lemma OlderTimersChangeNothing(remote: Address, steps: seq<Step>, k: nat, draw: Option<Bytes>, out: Outcome)
    requires Feasible(steps) && k <= |steps|
    requires Run(remote, steps[..k]).ticks < Run(remote, steps).ticks < Run(remote, steps[..k]).ticks + U64_LIMIT
    ensures var p := Run(remote, steps);
            Next(p, Expire(Run(remote, steps[..k]).check.generation, draw, out)) == p
  {
    RunKeeps(remote, steps);
    RunKeeps(remote, steps[..k]);
    DifferentResidues(Run(remote, steps[..k]).ticks, Run(remote, steps).ticks);
  }

  lemma DifferentResidues(a: nat, b: nat)
    requires a < b < a + U64_LIMIT
    ensures a % U64_LIMIT != b % U64_LIMIT
  {}

  // ---------------------------------------------------------------- provenance of a rebind

  /** Step `k` of the run found a record from `candidate` and challenged the old path with `cookie`. */
  ghost predicate Started(remote: Address, steps: seq<Step>, k: nat, candidate: Address, cookie: Bytes) {
    && k < |steps| && steps[k].Observe? && steps[k].from == candidate && steps[k].bytes > 0
      && steps[k].draw == Some(cookie)
    && Run(remote, steps[..k]).check.phase == Idle && Run(remote, steps[..k]).remote != candidate
  }

  /** Step `j` ended the old-path phase begun at `k`: the old path answered with a drop, or its timer ran out. */
  ghost predicate OldPathGone(remote: Address, steps: seq<Step>, k: nat, j: nat, oldCookie: Bytes, newCookie: Bytes) {
    && k < j < |steps|
    && Run(remote, steps[..j]).check.phase == CheckingOldPath
    && match steps[j]
       case Receive(kind, cookie, from, draw, _, _) =>
         kind == PathDrop && cookie == oldCookie && from == Run(remote, steps[..k]).remote && draw == Some(newCookie)
       case Expire(generation, draw, _) =>
         generation == Run(remote, steps[..k + 1]).check.generation && draw == Some(newCookie)
       case _ => false
  }

  lemma PrefixOfInit(steps: seq<Step>, n: nat)
    requires 0 < |steps| && n <= |steps| - 1
    ensures steps[..|steps| - 1][..n] == steps[..n]
  {}

  /** What a step from outside the old-path phase must be to end up in it, and what keeps it. */
  lemma IntoOldPhase(p: Path, step: Step)
    requires Inv(p) && Next(p, step).check.phase == CheckingOldPath
    ensures var q := Next(p, step);
            q.remote == p.remote && q.check.newAddress.Some? &&
            if p.check.phase == Idle
            then
              && step.Observe? && step.bytes > 0 && step.from != p.remote && step.draw == Some(q.check.cookie)
              && q.check.newAddress == Some(step.from)
            else
              && p.check.phase == CheckingOldPath && q.check.newAddress == p.check.newAddress
              && q.check.cookie == p.check.cookie && q.check.generation == p.check.generation
  {}

  lemma {:induction false} OldPhaseOrigin(remote: Address, steps: seq<Step>) returns (k: nat)
    requires Feasible(steps) && Run(remote, steps).check.phase == CheckingOldPath
    ensures var q := Run(remote, steps).check;
            && q.newAddress.Some? && Started(remote, steps, k, q.newAddress.value, q.cookie)
            && Run(remote, steps).remote == Run(remote, steps[..k]).remote
            && q.generation == Run(remote, steps[..k + 1]).check.generation
  {
    var last := |steps| - 1;
    var before := steps[..last];
    var p := Run(remote, before);
    RunKeeps(remote, before);
    IntoOldPhase(p, steps[last]);
    if p.check.phase == Idle {
      k := last;
      assert steps[..last + 1] == steps;
    } else {
      k := OldPhaseOrigin(remote, before);
      StartedEarlier(remote, steps, k, p.check.newAddress.value, p.check.cookie);
    }
  }

  /** What holds of a prefix of the run holds of the run. */
  lemma StartedEarlier(remote: Address, steps: seq<Step>, k: nat, candidate: Address, cookie: Bytes)
    requires steps != [] && Started(remote, steps[..|steps| - 1], k, candidate, cookie)
    ensures Started(remote, steps, k, candidate, cookie)
    ensures steps[..|steps| - 1][..k] == steps[..k] && steps[..|steps| - 1][..k + 1] == steps[..k + 1]
  {
    PrefixOfInit(steps, k);
    PrefixOfInit(steps, k + 1);
  }

  /** What a step must be to end up in the new-path phase. */
  lemma IntoNewPhase(p: Path, step: Step)
    requires Inv(p) && Next(p, step).check.phase == CheckingNewPath
    ensures var q := Next(p, step);
            && q.remote == p.remote && q.check.newAddress.Some? && q.check.newAddress == p.check.newAddress
            && p.check.phase != Idle
            && (p.check.phase == CheckingNewPath ==> q.check.cookie == p.check.cookie)
            && (p.check.phase == CheckingOldPath ==> match step
                case Receive(kind, cookie, from, draw, _, _) =>
                  kind == PathDrop && cookie == p.check.cookie && p.remote == from && draw == Some(q.check.cookie)
                case Expire(generation, draw, _) => generation == p.check.generation && draw == Some(q.check.cookie)
                case _ => false)
  {}

  lemma {:induction false} NewPhaseOrigin(remote: Address, steps: seq<Step>) returns (k: nat, j: nat, oldCookie: Bytes)
    requires Feasible(steps) && Run(remote, steps).check.phase == CheckingNewPath
    ensures var q := Run(remote, steps).check;
            && q.newAddress.Some? && Started(remote, steps, k, q.newAddress.value, oldCookie)
            && OldPathGone(remote, steps, k, j, oldCookie, q.cookie)
            && Run(remote, steps).remote == Run(remote, steps[..k]).remote
  {
    var last := |steps| - 1;
    var before := steps[..last];
    var p := Run(remote, before);
    RunKeeps(remote, before);
    IntoNewPhase(p, steps[last]);
    if p.check.phase == CheckingOldPath {
      j := last;
      oldCookie := p.check.cookie;
      k := OldPhaseOrigin(remote, before);
    } else {
      k, j, oldCookie := NewPhaseOrigin(remote, before);
      PrefixOfInit(steps, j);
    }
    PrefixOfInit(steps, k);
    PrefixOfInit(steps, k + 1);
  }

  /** The one step that changes the address. */
  lemma RebindStep(p: Path, step: Step)
    requires Next(p, step).remote != p.remote
    ensures step.Receive? && step.kind == PathResponse && step.from == Next(p, step).remote
            && step.cookie == p.check.cookie
    ensures p.check.phase == CheckingNewPath && p.check.newAddress == Some(step.from)
  {}

  /** In every run the address changes only on a response from the new address that carries the cookie drawn for the
      new-path phase, after the old path dropped or timed out. */
  lemma RebindIsEarned(remote: Address, steps: seq<Step>, step: Step)
    requires Feasible(steps)
    requires Next(Run(remote, steps), step).remote != Run(remote, steps).remote
    ensures var p, a := Run(remote, steps), Next(Run(remote, steps), step).remote;
            && step.Receive? && step.kind == PathResponse && step.from == a && step.cookie == p.check.cookie
            && exists k, j, oldCookie :: Earned(remote, steps, k, j, oldCookie, a, step.cookie)
  {
    RebindStep(Run(remote, steps), step);
    var k, j, oldCookie := NewPhaseOrigin(remote, steps);
    assert Earned(remote, steps, k, j, oldCookie, Next(Run(remote, steps), step).remote, step.cookie);
  }

  /** The address changes exactly on the right response to a new-path challenge, if the switch could be made. */
  lemma RebindExactly(p: Path, step: Step)
    requires Inv(p)
    ensures Next(p, step).remote != p.remote
            <==>
              && step.Receive? && step.kind == PathResponse && step.activated
              && p.check.phase == CheckingNewPath && p.check.newAddress == Some(step.from)
                && p.check.cookie == step.cookie
    ensures Next(p, step).remote != p.remote ==>
              Next(p, step).remote == step.from && Next(p, step).check.phase == Idle
  {}

  /** The old path is lost: it answers with a drop, or its timer runs out. */
  ghost predicate LosesOldPath(p: Path, step: Step, newCookie: Bytes) {
    match step
    case Receive(kind, cookie, from, draw, out, _) =>
      kind == PathDrop && from == p.remote && cookie == p.check.cookie && draw == Some(newCookie)
      && Whole(out) && out.healthy
    case Expire(generation, draw, out) =>
      generation == p.check.generation && draw == Some(newCookie) && Whole(out) && out.healthy
    case _ => false
  }

  /**
   * A check goes through: a record from a new address challenges the old path; when that is lost the new path is
   * challenged with a new cookie; and its response moves the connection.
   */
  lemma CheckGoesThrough(p: Path, start: Step, lost: Step, answer: Step, cookie: Bytes, newCookie: Bytes)
    requires Inv(p) && p.check.phase == Idle
    requires start.Observe? && start.from != p.remote && 0 < start.bytes < U64_LIMIT / 2
    requires start.draw == Some(cookie) && Whole(start.out) && start.out.healthy
    requires LosesOldPath(Next(p, start), lost, newCookie)
    requires answer.Receive? && answer.kind == PathResponse && answer.activated
    requires answer.from == start.from && answer.cookie == newCookie
    ensures var begun := Next(p, start);
            && begun.check.phase == CheckingOldPath && begun.check.cookie == cookie && begun.remote == p.remote
            && begun.check.received == begun.got == start.bytes
    ensures var probing := Next(Next(p, start), lost);
            && probing.check.phase == CheckingNewPath && probing.check.cookie == newCookie && probing.remote == p.remote
    ensures var done := Next(Next(Next(p, start), lost), answer);
            done.remote == start.from && done.check.phase == Idle
  {
    StepKeeps(p, start);
    var begun := Next(p, start);
    StepKeeps(begun, lost);
    assert begun.check.newAddress == Some(start.from) && begun.check.oldAddress == Some(p.remote);
    var probing := Next(begun, lost);
    assert probing.check.newAddress == Some(start.from);
    RebindExactly(probing, answer);
  }

  /** An answer of the old path ends the check where it began. */
  lemma OldPathAnswerEndsCheck(p: Path, cookie: Bytes, from: Address, draw: Option<Bytes>, out: Outcome,
                               activated: bool)
    requires Inv(p) && p.check.phase == CheckingOldPath
    ensures var after := Next(p, Receive(PathResponse, cookie, from, draw, out, activated));
            if from == p.remote && cookie == p.check.cookie
            then after.remote == p.remote && after.check.phase == Idle && after.check.newAddress == None
            else after == p
  {}

  /** A challenge is confirmed to the current address and dropped to any other, if it may and could be answered. */
  lemma ReplyExactly(p: Path, kind: Kind, from: Address, out: Outcome)
    ensures Reply(p, kind, from, out) == Some(PathResponse)
            <==> kind == PathChallenge && from == p.remote && Allowed(p.check, from, out.size) && Whole(out)
    ensures Reply(p, kind, from, out) == Some(PathDrop)
            <==> kind == PathChallenge && from != p.remote && Allowed(p.check, from, out.size) && Whole(out)
  {}

  /** Every record from the candidate counts towards its budget; records from elsewhere do not. */
  lemma ReceivedIsCounted(p: Path, from: Address, bytes: nat, draw: Option<Bytes>, out: Outcome)
    requires Inv(p) && p.check.phase != Idle && bytes < U64_LIMIT / 2
    ensures var after := Next(p, Observe(from, bytes, draw, out));
            && after.got == p.got + (if p.check.newAddress == Some(from) then bytes else 0)
            && after.check.received == Least(after.got, MAX_UINT64)
            && after == p.(got := after.got, check := p.check.(received := after.check.received))
  {
    StepKeeps(p, Observe(from, bytes, draw, out));
  }

  /** A send to the candidate is allowed exactly within what three times the received bytes leave. */
  lemma AllowedExactly(p: Path, address: Address, size: nat)
    requires Inv(p) && 3 * p.got <= MAX_UINT64
    ensures Allowed(p.check, address, size) <==> (Counted(p.check, address) ==> p.check.sent + size <= 3 * p.got)
  {}

  /** The check was started at `k`, lost the old path at `j`, and the address has not changed since. */
  ghost predicate Earned(remote: Address, steps: seq<Step>, k: nat, j: nat, oldCookie: Bytes, a: Address,
                         cookie: Bytes) {
    && Started(remote, steps, k, a, oldCookie)
    && OldPathGone(remote, steps, k, j, oldCookie, cookie)
    && Run(remote, steps).remote == Run(remote, steps[..k]).remote
  }

  // ---------------------------------------------------------------- the object

  /** The connection's return routability state. The ledger is ghost. */
  class PathValidator {
    var remote: Address
    var phase: Phase
    var generation: nat
    var oldAddress: Option<Address>
    var newAddress: Option<Address>
    var cookie: Bytes
    var received: nat
    var sent: nat
    ghost var got: nat
    ghost var given: nat
    ghost var lost: nat
    ghost var ticks: nat

    ghost function View(): Path
      reads this
    {
      Path(remote, Check(phase, generation, oldAddress, newAddress, cookie, received, sent), got, given, lost, ticks)
    }

    ghost predicate Valid()
      reads this
    {
      Inv(View())
    }

    constructor (remote: Address)
      ensures Valid() && View() == Initial(remote)
    {
      this.remote := remote;
      phase, generation, oldAddress, newAddress, cookie, received, sent := Idle, 0, None, None, ZERO_COOKIE, 0, 0;
      got, given, lost, ticks := 0, 0, 0, 0;
    }

    method ClearCheck()
      requires Valid()
      modifies this
      ensures Valid() && View() == Clear(old(View()))
    {
      ClearKeeps(View());
      generation := Bump(generation);
      phase, oldAddress, newAddress, cookie, received, sent := Idle, None, None, ZERO_COOKIE, 0, 0;
      got, given, lost, ticks := 0, 0, 0, ticks + 1;
    }

    /** Builds and writes one message, unless the budget of the candidate forbids it. */
    method SendMessage(address: Address, out: Outcome) returns (ok: bool)
      requires Valid()
      modifies this
      ensures Valid() && View() == Emit(old(View()), address, out).path && ok == Emit(old(View()), address, out).ok
    {
      SendKeeps(View(), address, out);
      var counted := phase != Idle && newAddress == Some(address);
      if counted {
        var budget: nat := received;
        if budget > MAX_UINT64 / 3 { budget := MAX_UINT64; } else { budget := budget * 3; }
        if !(sent <= budget && out.size <= budget - sent) { return true; }
      }
      if counted { given := given + out.left; }
      if out.refused || out.left != out.size {
        if counted { lost := lost + out.left; }
        return false;
      }
      if counted { sent := AddSaturated(sent, out.left); }
      ok := out.healthy;
    }

    method SendChallenge(address: Address, out: Outcome) returns (ok: bool)
      requires Valid()
      modifies this
      ensures Valid() && View() == Challenge(old(View()), address, out) && ok == Emit(old(View()), address, out).ok
    {
      ok := SendMessage(address, out);
      if !ok {
        ClearCheck();
        return;
      }
      AdvanceKeeps(View());
      generation := Bump(generation);
      ticks := ticks + 1;
    }

    method StartBasic(draw: Option<Bytes>, out: Outcome) returns (ok: bool)
      requires Valid()
      modifies this
      ensures Valid() && View() == StartNewPath(old(View()), draw, out) && ok == !StartFails(old(View()), draw, out)
    {
      if phase == Idle || newAddress == None { return true; }
      if draw.None? {
        ClearCheck();
        return false;
      }
      cookie := draw.value;
      phase := CheckingNewPath;
      ok := SendChallenge(newAddress.value, out);
    }

    method ObserveRecord(from: Address, bytes: nat, draw: Option<Bytes>, out: Outcome) returns (ok: bool)
      requires Valid() && bytes < U64_LIMIT / 2
      modifies this
      ensures Valid() && View() == Next(old(View()), Observe(from, bytes, draw, out))
      ensures ok == !Fails(old(View()), Observe(from, bytes, draw, out))
    {
      StepKeeps(View(), Observe(from, bytes, draw, out));
      if bytes == 0 || from == remote { return true; }
      if phase != Idle {
        if newAddress == Some(from) {
          received := AddSaturated(received, bytes);
          got := got + bytes;
        }
        return true;
      }
      if draw.None? { return false; }
      ok := BeginCheck(from, bytes, draw.value, out);
    }

    method BeginCheck(from: Address, bytes: nat, drawn: Bytes, out: Outcome) returns (ok: bool)
      requires Valid() && 0 < bytes < U64_LIMIT / 2 && from != remote && phase == Idle
      modifies this
      ensures Valid() && View() == Observed(old(View()), from, bytes, Some(drawn), out)
      ensures ok == Emit(Begun(old(View()), from, bytes, drawn), old(remote), out).ok
    {
      hide Challenge, Emit;
      phase, cookie, received, sent := CheckingOldPath, drawn, bytes, 0;
      oldAddress, newAddress := Some(remote), Some(from);
      got, given, lost := bytes, 0, 0;
      ok := SendChallenge(remote, out);
    }

    method HandleMessage(kind: Kind, message: Bytes, from: Address, draw: Option<Bytes>, out: Outcome, activated: bool)
      returns (ok: bool, reply: Option<Kind>)
      requires Valid()
      modifies this
      ensures Valid() && View() == Next(old(View()), Receive(kind, message, from, draw, out, activated))
      ensures ok == !Fails(old(View()), Receive(kind, message, from, draw, out, activated))
      ensures reply == Reply(old(View()), kind, from, out)
    {
      ok, reply := true, None;
      if kind == PathChallenge {
        var answer := if from == remote then PathResponse else PathDrop;
        reply := if Allowed(Check(phase, generation, oldAddress, newAddress, cookie, received, sent), from, out.size)
          && Whole(out)
                 then Some(answer) else None;
        ok := SendMessage(from, out);
      } else if phase == CheckingOldPath {
        if oldAddress == Some(from) && message == cookie {
          if kind == PathResponse { ClearCheck(); } else { ok := StartBasic(draw, out); }
        }
      } else if phase == CheckingNewPath {
        if kind == PathResponse && newAddress == Some(from) && message == cookie {
          var rebind := newAddress.value;
          ClearCheck();
          if activated { remote := rebind; } else { ok := false; }
        }
      }
    }

    method TimerExpired(expired: nat, draw: Option<Bytes>, out: Outcome) returns (ok: bool)
      requires Valid()
      modifies this
      ensures Valid() && View() == Next(old(View()), Expire(expired, draw, out))
      ensures ok == !Fails(old(View()), Expire(expired, draw, out))
    {
      ok := true;
      if generation != expired || phase == Idle { return; }
      if phase == CheckingOldPath {
        ok := StartBasic(draw, out);
      } else {
        ClearCheck();
      }
    }
  }
}
