/** The sliding anti-replay window of one record cipher, proved to refine the plain set of accepted numbers. */
module Replay {
  import opened Bits

  /** The four fields of a window. */
  datatype Window = Window(initialized: bool, latest: nat, bitmap: bv64, size: nat)

  function NewWindow(size: nat): Window {
    Window(false, 0, 0, size)
  }

  function NextExpected(w: Window): nat {
    if w.initialized then w.latest + 1 else 0
  }

  predicate Check(w: Window, number: nat) {
    if !w.initialized || number > w.latest then true
    else w.latest - number < w.size && !Bit(w.bitmap, w.latest - number)
  }

  function Accept(w: Window, number: nat): Window {
    if !w.initialized then Window(true, number, 1, w.size)
    else if number > w.latest then
      var delta := number - w.latest;
      var shifted := if delta >= 64 then 0 else ShiftLeft(w.bitmap, delta);
      w.(latest := number, bitmap := Or(shifted, 1))
    else if w.latest - number < 64 then
      w.(bitmap := Or(w.bitmap, One(w.latest - number)))
    else w
  }

  /** The mutable window, in step with the value-level functions above. */
  class ReplayWindow {
    var latest: nat
    var bitmap: bv64
    var initialized: bool
    const size: nat

    constructor (size: nat)
      ensures View() == NewWindow(size)
    {
      this.size := size;
      latest, bitmap, initialized := 0, 0, false;
    }

    function View(): Window
      reads this
    {
      Window(initialized, latest, bitmap, size)
    }

    method CheckSequence(number: nat) returns (ok: bool)
      ensures ok == Check(View(), number)
    {
      if !initialized || number > latest { return true; }
      var delta := latest - number;
      return delta < size && !Meets(bitmap, One(delta));
    }

    method AcceptSequence(number: nat)
      modifies this
      ensures View() == Accept(old(View()), number)
    {
      if !initialized {
        initialized, latest, bitmap := true, number, 1;
        return;
      }
      if number > latest {
        var delta := number - latest;
        if delta >= 64 {
          bitmap := 0;
        } else {
          bitmap := ShiftLeft(bitmap, delta);
        }
        latest := number;
        bitmap := Or(bitmap, 1);
        return;
      }
      var delta := latest - number;
      if delta < 64 {
        bitmap := Or(bitmap, One(delta));
      }
    }
  }

  /** The window after opening records that carry `offered`, in order: each is accepted only if the check passes. */
  function Opens(size: nat, offered: seq<nat>): (Window, seq<nat>) {
    if offered == [] then (NewWindow(size), [])
    else
      var last := offered[|offered| - 1];
      var (w, accepted) := Opens(size, offered[..|offered| - 1]);
      if Check(w, last) then (Accept(w, last), accepted + [last]) else (w, accepted)
  }

  /** Reference: a number is fresh when it was not accepted and is less than `size` behind every accepted number. */
  predicate Fresh(accepted: seq<nat>, size: nat, number: nat) {
    number !in accepted && forall m :: m in accepted ==> m < number + size
  }

  function SpecOpens(size: nat, offered: seq<nat>): seq<nat> {
    if offered == [] then []
    else
      var last := offered[|offered| - 1];
      var accepted := SpecOpens(size, offered[..|offered| - 1]);
      if Fresh(accepted, size, last) then accepted + [last] else accepted
  }

  /** The bitmap records exactly which of the 64 numbers up to the latest one were accepted. */
  ghost predicate Tracks(w: Window, accepted: seq<nat>) {
    if !w.initialized then accepted == [] else
      && w.latest in accepted
      && (forall m :: m in accepted ==> m <= w.latest)
      && forall d: nat :: d < 64 ==> (Bit(w.bitmap, d) <==> d <= w.latest && w.latest - d in accepted)
  }

  lemma CheckIsFresh(w: Window, accepted: seq<nat>, number: nat)
    requires Tracks(w, accepted) && 1 <= w.size <= 64
    ensures Check(w, number) <==> Fresh(accepted, w.size, number)
  {
  }

  lemma BitAfterSlide(bitmap: bv64, delta: nat, d: nat)
    requires 0 < delta && d < 64
    ensures Bit(Or(if delta >= 64 then 0 else ShiftLeft(bitmap, delta), 1), d)
       <==> d == 0 || (d >= delta && Bit(bitmap, d - delta))
  {
    BitOfOne(d, 0);
    BitOfOr(if delta >= 64 then 0 else ShiftLeft(bitmap, delta), One(0), d);
    if delta >= 64 {
      ZeroHasNoBits(0);
    } else {
      BitOfShift(bitmap, delta, d);
    }
  }

  lemma BitAfterMark(bitmap: bv64, k: nat, d: nat)
    requires k < 64 && d < 64
    ensures Bit(Or(bitmap, One(k)), d) <==> d == k || Bit(bitmap, d)
  {
    BitOfOr(bitmap, One(k), d);
    BitOfOne(d, k);
  }

  lemma AcceptTracks(w: Window, accepted: seq<nat>, number: nat)
    requires Tracks(w, accepted)
    ensures Tracks(Accept(w, number), accepted + [number])
  {
    forall d: nat | d < 64
      ensures Bit(Accept(w, number).bitmap, d) <==>
              d <= Accept(w, number).latest && Accept(w, number).latest - d in accepted + [number]
    {
      if !w.initialized {
        BitOfOne(d, 0);
      } else if number > w.latest {
        BitAfterSlide(w.bitmap, number - w.latest, d);
      } else if w.latest - number < 64 {
        BitAfterMark(w.bitmap, w.latest - number, d);
      }
    }
  }

  /** Over every run of opens the bitmap accepts exactly what the reference set accepts. */
  lemma {:induction false} WindowRefinesSet(size: nat, offered: seq<nat>)
    requires 1 <= size <= 64
    ensures Opens(size, offered).1 == SpecOpens(size, offered)
    ensures Opens(size, offered).0.size == size
    ensures Tracks(Opens(size, offered).0, Opens(size, offered).1)
  {
    if offered != [] {
      var last, before := offered[|offered| - 1], offered[..|offered| - 1];
      WindowRefinesSet(size, before);
      var (w, accepted) := Opens(size, before);
      CheckIsFresh(w, accepted, last);
      AcceptTracks(w, accepted, last);
    }
  }

  /** No number is ever accepted twice. */
  lemma {:induction false} NeverAcceptedTwice(size: nat, offered: seq<nat>, i: nat, j: nat)
    requires 1 <= size <= 64
    requires i < j < |Opens(size, offered).1|
    ensures Opens(size, offered).1[i] != Opens(size, offered).1[j]
  {
    var last, before := offered[|offered| - 1], offered[..|offered| - 1];
    WindowRefinesSet(size, before);
    var (w, accepted) := Opens(size, before);
    if j < |accepted| {
      NeverAcceptedTwice(size, before, i, j);
    } else {
      CheckIsFresh(w, accepted, last);
      assert accepted[i] in accepted;
    }
  }

  /**
   * After any run, a number not yet accepted passes the check exactly when it is less than `size` behind the highest.
   */
  lemma UnseenNumbersStayAcceptable(size: nat, offered: seq<nat>, number: nat)
    requires 1 <= size <= 64
    requires number !in Opens(size, offered).1
    ensures Check(Opens(size, offered).0, number) <==> NextExpected(Opens(size, offered).0) <= number + size
  {
    WindowRefinesSet(size, offered);
    CheckIsFresh(Opens(size, offered).0, Opens(size, offered).1, number);
  }
}
