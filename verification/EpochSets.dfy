/** Receive epochs: installing, discarding, and choosing a cipher from the two epoch bits of a record header. */
module EpochSets {
  import opened Wire

  datatype Epochs<T> = Epochs(current: nat, ciphers: map<nat, T>)

  function Install<T>(s: Epochs<T>, epoch: nat, cipher: T): Option<Epochs<T>> {
    if epoch in s.ciphers then None else Some(s.(ciphers := s.ciphers[epoch := cipher]))
  }

  function SetCurrent<T>(s: Epochs<T>, epoch: nat): Option<Epochs<T>> {
    if epoch < s.current || epoch !in s.ciphers then None else Some(s.(current := epoch))
  }

  function DiscardBefore<T>(s: Epochs<T>, epoch: nat, retained: nat): Epochs<T> {
    s.(ciphers := map e | e in s.ciphers && (e >= epoch || e == retained) :: s.ciphers[e])
  }

  /** An epoch this record header may belong to: installed, not in the future, with the header's two bits. */
  predicate Candidate<T>(s: Epochs<T>, bits: nat, epoch: nat) {
    epoch in s.ciphers && epoch <= s.current && epoch % 4 == bits
  }

  /** The choice is the most recent candidate, and is refused exactly when there is none. */
  ghost predicate Selects<T>(s: Epochs<T>, bits: nat, choice: Option<nat>) {
    match choice
    case None => forall e: nat :: !Candidate(s, bits, e)
    case Some(epoch) => Candidate(s, bits, epoch) && forall e: nat :: Candidate(s, bits, e) ==> e <= epoch
  }

  /**
   * An epoch is installed once and its cipher never replaced; the current epoch is an installed one and never goes
   * back; discarding keeps the ciphers from some epoch on, and the retained one.
   */
  lemma EpochStepsExactly<T>(s: Epochs<T>, epoch: nat, cipher: T, retained: nat, e: nat)
    ensures Install(s, epoch, cipher).None? <==> epoch in s.ciphers
    ensures Install(s, epoch, cipher).Some? ==>
              var after := Install(s, epoch, cipher).value;
              && after.current == s.current && epoch in after.ciphers && after.ciphers[epoch] == cipher
              && (e != epoch ==> (e in after.ciphers <==> e in s.ciphers))
              && (e in s.ciphers ==> after.ciphers[e] == s.ciphers[e])
    ensures SetCurrent(s, epoch) == Some(Epochs(epoch, s.ciphers)) <==> epoch >= s.current && epoch in s.ciphers
    ensures SetCurrent(s, epoch).None? <==> epoch < s.current || epoch !in s.ciphers
    ensures var after := DiscardBefore(s, epoch, retained);
            && after.current == s.current
            && (e in after.ciphers <==> e in s.ciphers && (e >= epoch || e == retained))
            && (e in after.ciphers ==> after.ciphers[e] == s.ciphers[e])
  {}

  /** The mutable set. */
  class EpochSet<T> {
    var current: nat
    var ciphers: map<nat, T>

    function View(): Epochs<T>
      reads this
    {
      Epochs(current, ciphers)
    }

    constructor ()
      ensures View() == Epochs(0, map[])
    {
      current, ciphers := 0, map[];
    }

    method InstallCipher(epoch: nat, cipher: T) returns (ok: bool)
      modifies this
      ensures ok == Install(old(View()), epoch, cipher).Some?
      ensures View() == if ok then Install(old(View()), epoch, cipher).value else old(View())
    {
      if epoch in ciphers { return false; }
      ciphers := ciphers[epoch := cipher];
      return true;
    }

    method MoveTo(epoch: nat) returns (ok: bool)
      modifies this
      ensures ok == SetCurrent(old(View()), epoch).Some?
      ensures View() == if ok then SetCurrent(old(View()), epoch).value else old(View())
    {
      if epoch < current || epoch !in ciphers { return false; }
      current := epoch;
      return true;
    }

    /** The current epoch is tried first; otherwise the newest older epoch with the same bits is searched for. */
    method SelectCipher(bits: nat) returns (choice: Option<nat>)
      ensures Selects(View(), bits, choice)
      ensures choice.Some? ==> choice.value in ciphers
    {
      if current in ciphers && current % 4 == bits {
        return Some(current);
      }
      choice := None;
      var todo := ciphers.Keys;
      while todo != {}
        invariant todo <= ciphers.Keys
        invariant choice.Some? ==> Candidate(View(), bits, choice.value)
        invariant forall e: nat :: Candidate(View(), bits, e) && e !in todo ==> choice.Some? && e <= choice.value
        decreases |todo|
      {
        var epoch :| epoch in todo;
        todo := todo - {epoch};
        if epoch >= current || epoch % 4 != bits { continue; }
        if choice.None? || epoch > choice.value {
          choice := Some(epoch);
        }
      }
    }

    method Discard(epoch: nat, retained: nat)
      modifies this
      ensures View() == DiscardBefore(old(View()), epoch, retained)
    {
      ghost var before := ciphers;
      var todo := ciphers.Keys;
      while todo != {}
        invariant todo <= before.Keys && current == old(current)
        invariant forall e :: e in ciphers <==> e in before && (e in todo || e >= epoch || e == retained)
        invariant forall e :: e in ciphers ==> ciphers[e] == before[e]
        decreases |todo|
      {
        var candidate :| candidate in todo;
        todo := todo - {candidate};
        if candidate < epoch && candidate != retained {
          ciphers := ciphers - {candidate};
        }
      }
      assert ciphers == DiscardBefore(Epochs(current, before), epoch, retained).ciphers;
    }
  }

  // ---------------------------------------------------------------- the epochs that are installed after key updates

  /** One receive key update: install the next epoch, make it current, and drop all but it, its predecessor and,
      until epoch 6 reuses its bits, the handshake epoch 2. */
  function Advance<T>(s: Epochs<T>, cipher: T): Option<Epochs<T>> {
    match Install(s, s.current + 1, cipher)
    case None => None
    case Some(installed) =>
      match SetCurrent(installed, s.current + 1)
      case None => None
      case Some(moved) => Some(Retire(moved))
  }

  function Retire<T>(s: Epochs<T>): Epochs<T> {
    if s.current > 1 then DiscardBefore(s, s.current - 1, if s.current < 6 then 2 else 0) else s
  }

  function AdvanceAll<T>(s: Epochs<T>, ciphers: seq<T>): Option<Epochs<T>> {
    if ciphers == [] then Some(s)
    else
      match AdvanceAll(s, ciphers[..|ciphers| - 1])
      case None => None
      case Some(before) => Advance(before, ciphers[|ciphers| - 1])
  }

  /** Closed form of the installed epochs while `current` is the receive epoch. */
  function InstalledAt(current: nat): set<nat> {
    if current == 3 then {2, 3}
    else if current == 4 then {2, 3, 4}
    else if current == 5 then {2, 4, 5}
    else if current >= 6 then {current - 1, current}
    else {}
  }

  lemma AdvanceInstalls<T>(s: Epochs<T>, cipher: T)
    requires s.current >= 3 && s.ciphers.Keys == InstalledAt(s.current)
    ensures Advance(s, cipher).Some?
    ensures var after := Advance(s, cipher).value;
            && after.current == s.current + 1 && after.ciphers.Keys == InstalledAt(s.current + 1)
            && after.ciphers[s.current + 1] == cipher
            && (forall e :: e in after.ciphers && e != s.current + 1 ==>
                e in s.ciphers && after.ciphers[e] == s.ciphers[e])
  {}

  lemma InstalledAreDistinct(current: nat, d: nat, e: nat)
    requires current >= 3 && d in InstalledAt(current) && e in InstalledAt(current)
    ensures d <= current && (d % 4 == e % 4 ==> d == e)
    ensures current in InstalledAt(current) && current - 1 in InstalledAt(current)
  {}

  /** From the epochs {2, 3} of a finished handshake, any number of key updates succeeds and leaves a known set. */
  lemma {:induction false} UpdatesInstall<T>(s: Epochs<T>, ciphers: seq<T>)
    requires s.current == 3 && s.ciphers.Keys == {2, 3}
    ensures AdvanceAll(s, ciphers).Some?
    ensures var after := AdvanceAll(s, ciphers).value;
            after.current == 3 + |ciphers| && after.ciphers.Keys == InstalledAt(3 + |ciphers|)
  {
    if ciphers != [] {
      UpdatesInstall(s, ciphers[..|ciphers| - 1]);
      AdvanceInstalls(AdvanceAll(s, ciphers[..|ciphers| - 1]).value, ciphers[|ciphers| - 1]);
    }
  }

  /** The two header bits are never ambiguous: whenever an installed epoch matches, it is the one that is chosen. */
  lemma SelectionIsUnambiguous<T>(s: Epochs<T>, ciphers: seq<T>, epoch: nat, choice: Option<nat>)
    requires s.current == 3 && s.ciphers.Keys == {2, 3} && AdvanceAll(s, ciphers).Some?
    requires epoch in AdvanceAll(s, ciphers).value.ciphers
    requires Selects(AdvanceAll(s, ciphers).value, epoch % 4, choice)
    ensures choice == Some(epoch)
  {
    UpdatesInstall(s, ciphers);
    var after := AdvanceAll(s, ciphers).value;
    InstalledAreDistinct(after.current, epoch, epoch);
    assert Candidate(after, epoch % 4, epoch);
    InstalledAreDistinct(after.current, epoch, choice.value);
  }
}
