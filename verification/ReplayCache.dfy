/** The 0-RTT replay cache: a map of admitted identities with a heap of their expiries, and what its runs guarantee. */
module ReplayCache {

  datatype Entry = Entry(identity: string, expires: int)

  // ---------------------------------------------------------------- specification

  datatype Call = Call(identity: string, expires: int, now: int)

  function Purge(live: map<string, int>, now: int): map<string, int> {
    map k | k in live && live[k] > now :: live[k]
  }

  predicate Admits(live: map<string, int>, call: Call, max: nat) {
    call.identity !in Purge(live, call.now) && |Purge(live, call.now)| < max
  }

  function After(live: map<string, int>, call: Call, max: nat): map<string, int> {
    var kept := Purge(live, call.now);
    if Admits(live, call, max) then kept[call.identity := call.expires] else kept
  }

  function Run(calls: seq<Call>, max: nat): map<string, int> {
    if calls == [] then map[] else After(Run(calls[..|calls| - 1], max), calls[|calls| - 1], max)
  }

  predicate Admitted(calls: seq<Call>, i: nat, max: nat)
    requires i < |calls|
  {
    Admits(Run(calls[..i], max), calls[i], max)
  }

  lemma PurgeShrinks(live: map<string, int>, now: int)
    ensures |Purge(live, now)| <= |live|
  {
    assert Purge(live, now).Keys <= live.Keys;
    SubsetSize(Purge(live, now).Keys, live.Keys);
  }

  lemma {:induction false} SubsetSize(a: set<string>, b: set<string>)
    requires a <= b
    ensures |a| <= |b|
  {
    if a != {} {
      var x :| x in a;
      SubsetSize(a - {x}, b - {x});
    }
  }

  /** The cache never grows beyond its capacity. */
  lemma {:induction false} SizeIsBounded(calls: seq<Call>, max: nat)
    ensures |Run(calls, max)| <= max
  {
    if calls != [] {
      var before := Run(calls[..|calls| - 1], max);
      SizeIsBounded(calls[..|calls| - 1], max);
      PurgeShrinks(before, calls[|calls| - 1].now);
    }
  }

  /** Call `i` was admitted, and every reading since then, up to `now`, was before its expiry. */
  ghost predicate Unexpired(calls: seq<Call>, i: nat, now: int, max: nat) {
    && i < |calls| && Admitted(calls, i, max) && now < calls[i].expires
    && forall k :: i < k < |calls| ==> calls[k].now < calls[i].expires
  }

  /** Everything stored was admitted by some call with that expiry, and no reading since has reached it. */
  lemma {:induction false} StoredWasAdmitted(calls: seq<Call>, max: nat, id: string) returns (i: nat)
    requires id in Run(calls, max)
    ensures i < |calls| && Admitted(calls, i, max) && calls[i].identity == id && calls[i].expires == Run(calls, max)[id]
    ensures forall k :: i < k < |calls| ==> calls[k].now < calls[i].expires
  {
    var last := |calls| - 1;
    var before := calls[..last];
    if Admitted(calls, last, max) && calls[last].identity == id {
      i := last;
    } else {
      i := StoredWasAdmitted(before, max, id);
      assert before[..i] == calls[..i];
      assert id in Purge(Run(before, max), calls[last].now);
    }
  }

  /** An admitted identity stays stored while every later clock reading is before its expiry. */
  lemma {:induction false} AdmittedStaysStored(calls: seq<Call>, i: nat, max: nat)
    requires i < |calls| && Admitted(calls, i, max)
    requires forall k :: i < k < |calls| ==> calls[k].now < calls[i].expires
    ensures calls[i].identity in Run(calls, max) && Run(calls, max)[calls[i].identity] == calls[i].expires
  {
    var last := |calls| - 1;
    var before := calls[..last];
    if i < last {
      assert before[..i] == calls[..i];
      AdmittedStaysStored(before, i, max);
      assert calls[i].identity in Purge(Run(before, max), calls[last].now);
    }
  }

  /** The identities held at `now`: admitted, with no reading since that reached the expiry. */
  ghost function HeldAt(calls: seq<Call>, now: int, max: nat): set<string> {
    set i | 0 <= i < |calls| && Unexpired(calls, i, now, max) :: calls[i].identity
  }

  lemma StoredIsHeld(calls: seq<Call>, now: int, max: nat)
    ensures Purge(Run(calls, max), now).Keys == HeldAt(calls, now, max)
  {
    var kept := Purge(Run(calls, max), now);
    forall id | id in kept ensures id in HeldAt(calls, now, max) {
      var i := StoredWasAdmitted(calls, max, id);
      assert Unexpired(calls, i, now, max);
    }
    forall id | id in HeldAt(calls, now, max) ensures id in kept {
      var i :| 0 <= i < |calls| && Unexpired(calls, i, now, max) && calls[i].identity == id;
      AdmittedStaysStored(calls, i, max);
    }
  }

  /** Whatever the clock does, a call is admitted exactly when its identity is not held and fewer than `max` are. */
  lemma AdmissionUnderAnyClock(calls: seq<Call>, call: Call, max: nat)
    ensures var held := HeldAt(calls, call.now, max);
            Admits(Run(calls, max), call, max) <==> call.identity !in held && |held| < max
  {
    StoredIsHeld(calls, call.now, max);
    assert |Purge(Run(calls, max), call.now)| == |Purge(Run(calls, max), call.now).Keys|;
  }

  /** No identity is admitted again before its expiry. */
  lemma NeverAdmittedTwice(calls: seq<Call>, i: nat, j: nat, max: nat)
    requires i < j < |calls| && Admitted(calls, i, max) && calls[j].identity == calls[i].identity
    requires forall k :: i < k <= j ==> calls[k].now < calls[i].expires
    ensures !Admitted(calls, j, max)
  {
    var before := calls[..j];
    assert before[..i] == calls[..i];
    AdmittedStaysStored(before, i, max);
  }

  /** What is held was admitted no earlier than the latest admission of its identity. */
  lemma HeldSinceLastAdmission(calls: seq<Call>, m: nat, i: nat, now: int, max: nat)
    requires Unexpired(calls, m, now, max) && i < |calls| && Admitted(calls, i, max)
    requires calls[m].identity == calls[i].identity
    ensures m >= i
  {
    if m < i {
      assert calls[..i][..m] == calls[..m];
      AdmittedStaysStored(calls[..i], m, max);
    }
  }

  /**
   * With no other call for the identity in between, a second call that reads a time before the expiry is admitted
   * exactly when some call in between read the expiry or later, and there is room.
   */
  lemma AdmittedAgainExactly(calls: seq<Call>, i: nat, j: nat, max: nat)
    requires i < j < |calls| && Admitted(calls, i, max) && calls[j].identity == calls[i].identity
    requires calls[j].now < calls[i].expires && forall k :: i < k < j ==> calls[k].identity != calls[i].identity
    ensures Admitted(calls, j, max)
            <==>
              && (exists k :: i < k < j && calls[k].now >= calls[i].expires)
              && |HeldAt(calls[..j], calls[j].now, max)| < max
  {
    hide Run, Admits;
    var before, id := calls[..j], calls[i].identity;
    assert before[..i] == calls[..i];
    AdmissionUnderAnyClock(before, calls[j], max);
    if id in HeldAt(before, calls[j].now, max) {
      var m :| 0 <= m < |before| && Unexpired(before, m, calls[j].now, max) && before[m].identity == id;
      HeldSinceLastAdmission(before, m, i, calls[j].now, max);
    }
    assert Unexpired(before, i, calls[j].now, max) ==> before[i].identity in HeldAt(before, calls[j].now, max);
  }

  /** Readings that go back: the second call drops the first identity, which is then admitted again at 9, before 10. */
  lemma ReadingsMayGoBack(max: nat)
    requires max >= 2
    ensures var calls := [Call("a", 10, 0), Call("b", 20, 10), Call("a", 10, 9)];
            Admitted(calls, 0, max) && Admitted(calls, 2, max) && calls[2].now < calls[0].expires
  {
    var calls := [Call("a", 10, 0), Call("b", 20, 10), Call("a", 10, 9)];
    assert calls[..0] == [] && calls[..1] == [calls[0]] && calls[..1][..0] == [];
    assert calls[..2] == [calls[0], calls[1]] && calls[..2][..1] == calls[..1];
    assert Purge(map[], 0) == map[];
    assert Run(calls[..1], max) == map["a" := 10];
    assert Purge(Run(calls[..1], max), 10) == map[];
    assert Run(calls[..2], max) == map["b" := 20];
    assert Purge(Run(calls[..2], max), 9) == map["b" := 20];
  }

  ghost predicate ClockAdvances(calls: seq<Call>) {
    forall i, j :: 0 <= i < j < |calls| ==> calls[i].now <= calls[j].now
  }

  /** The identities admitted so far that have not expired at `now`. */
  ghost function LiveAt(calls: seq<Call>, now: int, max: nat): set<string> {
    set i | 0 <= i < |calls| && Admitted(calls, i, max) && calls[i].expires > now :: calls[i].identity
  }

  /** Under a clock that never goes back the cache holds exactly the live identities: none is evicted to make room. */
  lemma StoredIsLive(calls: seq<Call>, now: int, max: nat)
    requires ClockAdvances(calls) && forall k :: 0 <= k < |calls| ==> calls[k].now <= now
    ensures Purge(Run(calls, max), now).Keys == LiveAt(calls, now, max)
  {
    var kept := Purge(Run(calls, max), now);
    forall id | id in kept ensures id in LiveAt(calls, now, max) {
      var i := StoredWasAdmitted(calls, max, id);
    }
    forall id | id in LiveAt(calls, now, max) ensures id in kept {
      var i :| 0 <= i < |calls| && Admitted(calls, i, max) && calls[i].expires > now && calls[i].identity == id;
      AdmittedStaysStored(calls, i, max);
    }
  }

  /** A call is admitted exactly when its identity is not live and fewer than `max` identities are. */
  lemma AdmissionIsExact(calls: seq<Call>, call: Call, max: nat)
    requires ClockAdvances(calls + [call])
    ensures var live := LiveAt(calls, call.now, max);
            Admits(Run(calls, max), call, max) <==> call.identity !in live && |live| < max
  {
    var all := calls + [call];
    forall k | 0 <= k < |calls| ensures calls[k].now <= call.now {
      assert all[k] == calls[k] && all[|calls|] == call;
    }
    assert ClockAdvances(calls) by {
      forall i, j | 0 <= i < j < |calls| ensures calls[i].now <= calls[j].now {
        assert all[i] == calls[i] && all[j] == calls[j];
      }
    }
    StoredIsLive(calls, call.now, max);
    assert |Purge(Run(calls, max), call.now)| == |Purge(Run(calls, max), call.now).Keys|;
  }

  // ---------------------------------------------------------------- heap

  function Parent(i: nat): nat {
    if i == 0 then 0 else (i - 1) / 2
  }

  ghost predicate Ordered(h: seq<Entry>, i: nat)
    requires i < |h|
  {
    h[Parent(i)].expires <= h[i].expires
  }

  ghost predicate IsHeap(h: seq<Entry>) {
    forall i :: 0 <= i < |h| ==> Ordered(h, i)
  }

  lemma {:induction false} RootIsLeast(h: seq<Entry>, i: nat)
    requires IsHeap(h) && i < |h|
    ensures h[0].expires <= h[i].expires
  {
    if i > 0 {
      RootIsLeast(h, Parent(i));
      assert Ordered(h, i);
    }
  }

  function Swap(h: seq<Entry>, i: nat, j: nat): (s: seq<Entry>)
    requires i < |h| && j < |h|
    ensures |s| == |h| && s[i] == h[j] && s[j] == h[i]
    ensures forall k :: 0 <= k < |h| && k != i && k != j ==> s[k] == h[k]
  {
    h[i := h[j]][j := h[i]]
  }

  ghost predicate Permutes(a: seq<Entry>, b: seq<Entry>) {
    |a| == |b| && multiset(a) == multiset(b)
  }

  lemma SwapPermutes(h: seq<Entry>, i: nat, j: nat)
    requires i < |h| && j < |h|
    ensures Permutes(Swap(h, i, j), h)
  {}

  /** In order everywhere except that entry `j` may be smaller than its parent. */
  ghost predicate HeapBelow(h: seq<Entry>, j: nat)
    requires j < |h|
  {
    && (forall i :: 0 <= i < |h| && i != j ==> Ordered(h, i))
    && (forall i :: 0 < i < |h| && Parent(i) == j ==> h[Parent(j)].expires <= h[i].expires)
  }

  lemma SwapUpKeeps(h: seq<Entry>, j: nat)
    requires 0 < j < |h| && HeapBelow(h, j) && h[j].expires < h[Parent(j)].expires
    ensures HeapBelow(Swap(h, Parent(j), j), Parent(j))
  {
    var p, s := Parent(j), Swap(h, Parent(j), j);
    forall i | 0 <= i < |s| && i != p ensures Ordered(s, i) {
      assert i != j ==> Ordered(h, i);
      assert Ordered(h, p) || p == j;
    }
    forall i | 0 < i < |s| && Parent(i) == p ensures s[Parent(p)].expires <= s[i].expires {
      assert i != j ==> Ordered(h, i);
      assert Ordered(h, p);
    }
  }

  method SiftUp(start: seq<Entry>) returns (h: seq<Entry>)
    requires start != [] && HeapBelow(start, |start| - 1)
    ensures IsHeap(h) && Permutes(h, start)
  {
    h := start;
    var j := |h| - 1;
    while true
      invariant 0 <= j < |h| && HeapBelow(h, j) && Permutes(h, start)
      decreases j
    {
      var i := Parent(j);
      if i == j || !(h[j].expires < h[i].expires) {
        assert Ordered(h, j);
        return;
      }
      SwapUpKeeps(h, j);
      SwapPermutes(h, i, j);
      h := Swap(h, i, j);
      j := i;
    }
  }

  /** In order everywhere except that entry `i` may be larger than its children. */
  ghost predicate HeapAbove(h: seq<Entry>, i: nat) {
    && (forall k :: 0 <= k < |h| && Parent(k) != i ==> Ordered(h, k))
    && (forall k :: 0 < k < |h| && Parent(k) == i && 0 < i < |h| ==> h[Parent(i)].expires <= h[k].expires)
  }

  predicate LeastChild(h: seq<Entry>, i: nat, c: nat) {
    && c < |h| && c > 0 && Parent(c) == i
    && forall k :: 0 < k < |h| && Parent(k) == i ==> h[c].expires <= h[k].expires
  }

  lemma SwapDownKeeps(h: seq<Entry>, i: nat, c: nat)
    requires i < |h| && HeapAbove(h, i) && LeastChild(h, i, c) && h[c].expires < h[i].expires
    ensures HeapAbove(Swap(h, i, c), c)
  {
    var s := Swap(h, i, c);
    forall k | 0 <= k < |s| && Parent(k) != c ensures Ordered(s, k) {
      assert Parent(k) != i ==> Ordered(h, k);
    }
    forall k | 0 < k < |s| && Parent(k) == c ensures s[Parent(c)].expires <= s[k].expires {
      assert Ordered(h, k);
    }
  }

  lemma AtRest(h: seq<Entry>, i: nat)
    requires i < |h| && HeapAbove(h, i)
    requires forall k :: 0 < k < |h| && Parent(k) == i ==> h[i].expires <= h[k].expires
    ensures IsHeap(h)
  {
    forall k | 0 <= k < |h| ensures Ordered(h, k) {
      assert Parent(k) != i ==> Ordered(h, k);
    }
  }

  lemma ChildrenOf(k: nat, i: nat)
    requires k > 0
    ensures Parent(k) == i <==> k == 2 * i + 1 || k == 2 * i + 2
  {}

  /** The smaller child, or an index past the end when there is none. */
  method PickChild(h: seq<Entry>, i: nat) returns (c: nat)
    requires i < |h|
    ensures if c < |h| then i < c && LeastChild(h, i, c) else forall k :: 0 < k < |h| ==> Parent(k) != i
  {
    c := 2 * i + 1;
    forall k | 0 < k < |h| ensures Parent(k) == i <==> k == 2 * i + 1 || k == 2 * i + 2 { ChildrenOf(k, i); }
    ChildrenOf(c, i);
    ChildrenOf(c + 1, i);
    if c + 1 < |h| && h[c + 1].expires < h[c].expires { c := c + 1; }
  }

  method SiftDown(start: seq<Entry>) returns (h: seq<Entry>)
    requires start != [] && HeapAbove(start, 0)
    ensures IsHeap(h) && Permutes(h, start)
  {
    h := start;
    var i := 0;
    while true
      invariant 0 <= i < |h| && HeapAbove(h, i) && Permutes(h, start)
      decreases |h| - i
    {
      var c := PickChild(h, i);
      if c >= |h| || !(h[c].expires < h[i].expires) {
        AtRest(h, i);
        return;
      }
      SwapDownKeeps(h, i, c);
      SwapPermutes(h, i, c);
      h := Swap(h, i, c);
      i := c;
    }
  }

  lemma LastToRoot(h: seq<Entry>)
    requires IsHeap(h) && h != []
    ensures HeapAbove(Swap(h, 0, |h| - 1)[..|h| - 1], 0)
  {
    var s := Swap(h, 0, |h| - 1)[..|h| - 1];
    forall k | 0 <= k < |s| && Parent(k) != 0 ensures Ordered(s, k) {
      assert Ordered(h, k);
    }
  }

  // ---------------------------------------------------------------- object

  /** The heap lists each stored identity once, with its expiry. */
  ghost predicate Lists(h: seq<Entry>, live: map<string, int>) {
    && (forall e :: e in h ==> e.identity in live && live[e.identity] == e.expires)
    && (forall id :: id in live ==> Entry(id, live[id]) in h)
    && (forall e :: e in h ==> multiset(h)[e] == 1)
  }

  lemma PermutationLists(h: seq<Entry>, start: seq<Entry>, live: map<string, int>)
    requires Permutes(h, start) && Lists(start, live)
    ensures Lists(h, live)
  {
    assert forall e :: e in h <==> e in multiset(h);
    assert forall e :: e in start <==> e in multiset(start);
  }

  method Push(heap: seq<Entry>, e: Entry, ghost live: map<string, int>) returns (h: seq<Entry>)
    requires IsHeap(heap) && Lists(heap, live) && e.identity !in live
    ensures IsHeap(h) && Lists(h, live[e.identity := e.expires])
  {
    var grown := heap + [e];
    forall i | 0 <= i < |heap| ensures Ordered(grown, i) {
      assert Ordered(heap, i);
    }
    assert HeapBelow(grown, |heap|);
    assert Lists(grown, live[e.identity := e.expires]) by {
      assert e !in heap;
      assert multiset(grown) == multiset(heap) + multiset{e};
    }
    h := SiftUp(grown);
    PermutationLists(h, grown, live[e.identity := e.expires]);
  }

  /** Removes the entry that expires first. */
  method Pop(heap: seq<Entry>, ghost live: map<string, int>) returns (least: Entry, h: seq<Entry>)
    requires IsHeap(heap) && Lists(heap, live) && heap != []
    ensures least == heap[0] && least in heap
    ensures IsHeap(h) && |h| == |heap| - 1 && Lists(h, live - {least.identity})
  {
    var n := |heap| - 1;
    var s := Swap(heap, 0, n);
    least := s[n];
    SwapPermutes(heap, 0, n);
    PermutationLists(s, heap, live);
    DropLastLists(s, live);
    LastToRoot(heap);
    h := s[..n];
    if n > 0 {
      h := SiftDown(s[..n]);
      PermutationLists(h, s[..n], live - {least.identity});
    }
  }

  lemma DropLastLists(s: seq<Entry>, live: map<string, int>)
    requires Lists(s, live) && s != []
    ensures Lists(s[..|s| - 1], live - {s[|s| - 1].identity})
  {
    var rest, last := s[..|s| - 1], s[|s| - 1];
    assert s == rest + [last];
    assert multiset(s) == multiset(rest) + multiset{last};
    forall e | e in rest ensures e.identity != last.identity && multiset(rest)[e] == 1 {
      assert e in s && last in s;
      assert e in multiset(rest);
      assert multiset(s)[last] == 1;
      assert e != last;
    }
  }

  lemma ForgetExpired(live: map<string, int>, id: string, now: int)
    requires id in live && live[id] <= now
    ensures Purge(live - {id}, now) == Purge(live, now) && |live - {id}| <= |live|
  {
    SubsetSize((live - {id}).Keys, live.Keys);
  }

  /** When the root has not expired, nothing has. */
  lemma NothingExpired(h: seq<Entry>, live: map<string, int>, now: int)
    requires IsHeap(h) && Lists(h, live) && (h != [] ==> h[0].expires > now)
    ensures live == Purge(live, now)
  {
    forall id | id in live ensures live[id] > now {
      assert Entry(id, live[id]) in h;
      var i :| 0 <= i < |h| && h[i] == Entry(id, live[id]);
      RootIsLeast(h, i);
    }
  }

  class EarlyDataReplayCache {
    var entries: set<string>
    var expirations: seq<Entry>
    const max: nat
    ghost var live: map<string, int>

    /** The map and the heap name the same identities, the heap each of them once. */
    ghost predicate Valid()
      reads this
    {
      IsHeap(expirations) && Lists(expirations, live) && entries == live.Keys && |live| <= max
    }

    constructor (capacity: nat)
      requires capacity > 0
      ensures Valid() && live == map[] && max == capacity
    {
      entries, expirations, max, live := {}, [], capacity, map[];
    }

    method DropExpired(now: int)
      requires Valid()
      modifies this
      ensures Valid() && live == Purge(old(live), now)
    {
      while |expirations| > 0 && !(expirations[0].expires > now)
        invariant Valid() && Purge(live, now) == Purge(old(live), now)
        decreases |expirations|
      {
        DropRoot(now);
      }
      NothingExpired(expirations, live, now);
    }

    method DropRoot(now: int)
      requires Valid() && expirations != [] && expirations[0].expires <= now
      modifies this
      ensures Valid() && |expirations| == old(|expirations|) - 1
      ensures Purge(live, now) == Purge(old(live), now)
    {
      var entry, rest := Pop(expirations, live);
      ForgetExpired(live, entry.identity, now);
      expirations := rest;
      entries := entries - {entry.identity};
      live := live - {entry.identity};
    }

    /** Admits an identity that is not live when there is room, after dropping what has expired. */
    method CheckAndStore(identity: string, expires: int, now: int) returns (admitted: bool)
      requires Valid()
      modifies this
      ensures Valid() && live == After(old(live), Call(identity, expires, now), max)
      ensures admitted == Admits(old(live), Call(identity, expires, now), max)
    {
      hide Lists, Purge;
      DropExpired(now);
      assert |live| == |live.Keys|;
      if identity in entries || |entries| >= max { return false; }
      entries := entries + {identity};
      expirations := Push(expirations, Entry(identity, expires), live);
      assert live[identity := expires].Keys == live.Keys + {identity};
      assert |live[identity := expires]| == |live[identity := expires].Keys|;
      live := live[identity := expires];
      return true;
    }
  }
}
