/** The wire builder, which appends and backpatches lengths, and the wire parser, which latches its first error. */
module WireCodec {
  import opened Wire

  // ---------------------------------------------------------------- building

  /** What a builder holds, or None once it has failed. */
  type Built = Option<Bytes>

  function Cat(a: Built, b: Built): Built {
    if a.Some? && b.Some? then Some(a.value + b.value) else None
  }

  lemma CatAssociates(a: Built, b: Built, c: Built)
    ensures Cat(Cat(a, b), c) == Cat(a, Cat(b, c))
  {
    if a.Some? && b.Some? && c.Some? {
      assert a.value + b.value + c.value == a.value + (b.value + c.value);
    }
  }

  function Number(v: int, width: nat): Built {
    if 0 <= v < Radix(width) then Some(PutUint(v, width)) else None
  }

  /** A byte string behind its length; too long a string is an error. */
  function Vector(v: Bytes, width: nat): Built {
    if |v| < Radix(width) then Some(PutUint(|v|, width) + v) else None
  }

  class WireBuilder {
    var b: Bytes
    var failed: bool

    ghost function View(): Built
      reads this
    {
      if failed then None else Some(b)
    }

    constructor ()
      ensures View() == Some([])
    {
      b, failed := [], false;
    }

    method PutNumber(v: int, width: nat)
      modifies this
      ensures View() == Cat(old(View()), Number(v, width)) && |b| >= old(|b|)
    {
      if failed { return; }
      if v < 0 || v >= Radix(width) {
        failed := true;
        return;
      }
      b := b + PutUint(v, width);
    }

    /** Appends without a check; after a failure the bytes no longer matter. */
    method Append(v: Bytes)
      modifies this
      ensures View() == Cat(old(View()), Some(v)) && |b| >= old(|b|)
    {
      b := b + v;
    }

    method PutVector(v: Bytes, width: nat)
      modifies this
      ensures View() == Cat(old(View()), Vector(v, width)) && |b| >= old(|b|)
    {
      PutNumber(|v|, width);
      if !failed {
        assert old(b) + (PutUint(|v|, width) + v) == old(b) + PutUint(|v|, width) + v;
        b := b + v;
      }
    }

    /** Reserves the length bytes and remembers where; -1 after a failure. */
    method StartVector(width: nat) returns (start: int)
      modifies this
      ensures View() == Cat(old(View()), Some(Reserved(width)))
      ensures if failed then start == -1 && b == old(b) else start == old(|b|) && |b| == start + width
    {
      if failed { return -1; }
      start := |b|;
      b := b + Reserved(width);
    }

    /** Writes the length of what was appended since over the reserved bytes. */
    method EndVector(start: int, width: nat)
      requires start == -1 ==> failed
      requires start != -1 ==> 0 <= start && start + width <= |b|
      modifies this
      ensures View() == if old(failed) then None else Cat(Some(old(b)[..start]), Vector(old(b)[start + width..], width))
      ensures if start == -1 then b == old(b) else |b| >= start
    {
      if start < 0 { return; }
      if failed {
        b := b[..start];
        return;
      }
      var length := |b| - start - width;
      if length >= Radix(width) {
        b := b[..start];
        failed := true;
        return;
      }
      b := b[..start] + PutUint(length, width) + b[start + width..];
      assert b == old(b)[..start] + (PutUint(length, width) + old(b)[start + width..]);
    }
  }

  function Reserved(width: nat): (zeros: Bytes)
    ensures |zeros| == width
  {
    seq(width, _ => 0)
  }

  // ---------------------------------------------------------------- parsing

  /** The unread bytes and the latched error. */
  datatype Unread = Unread(rest: Bytes, failed: bool)

  datatype Read<T> = Read(value: T, next: Unread)

  function Take(p: Unread, n: nat): Read<Bytes> {
    if p.failed then Read([], p)
    else if n > |p.rest| then Read([], p.(failed := true))
    else Read(p.rest[..n], p.(rest := p.rest[n..]))
  }

  function GetNumber(p: Unread, width: nat): Read<nat> {
    var r := Take(p, width);
    Read(GetUint(r.value), r.next)
  }

  function GetVector(p: Unread, width: nat): Read<Bytes> {
    var n := GetNumber(p, width);
    Take(n.next, n.value)
  }

  predicate Finished(p: Unread) {
    !p.failed && p.rest == []
  }

  /** Reading gives back what was put, and leaves the rest. */
  lemma NumberReads(v: nat, width: nat, rest: Bytes)
    requires v < Radix(width)
    ensures GetNumber(Unread(PutUint(v, width) + rest, false), width) == Read(v, Unread(rest, false))
  {
    GetPut(v, width);
    var all := PutUint(v, width) + rest;
    assert all[..width] == PutUint(v, width) && all[width..] == rest;
  }

  lemma BytesRead(v: Bytes, rest: Bytes)
    ensures Take(Unread(v + rest, false), |v|) == Read(v, Unread(rest, false))
  {
    assert (v + rest)[..|v|] == v && (v + rest)[|v|..] == rest;
  }

  lemma VectorReads(v: Bytes, width: nat, rest: Bytes)
    requires |v| < Radix(width)
    ensures GetVector(Unread(Vector(v, width).value + rest, false), width) == Read(v, Unread(rest, false))
  {
    hide PutUint, GetUint;
    assert Vector(v, width).value + rest == PutUint(|v|, width) + (v + rest);
    NumberReads(|v|, width, v + rest);
    BytesRead(v, rest);
  }

  /** A failed parser stays where it is. */
  lemma FailureIsLatched(p: Unread, width: nat)
    requires p.failed
    ensures GetVector(p, width) == Read([], p) && GetNumber(p, width) == Read(0, p)
  {
    assert GetUint([]) == 0;
  }

  class WireParser {
    const b: Bytes
    var off: nat
    var failed: bool

    ghost predicate Valid()
      reads this
    {
      off <= |b|
    }

    ghost function View(): Unread
      requires Valid()
      reads this
    {
      Unread(b[off..], failed)
    }

    constructor (b: Bytes)
      ensures Valid() && View() == Unread(b, false) && this.b == b
    {
      this.b := b;
      off, failed := 0, false;
    }

    method TakeBytes(n: nat) returns (v: Bytes)
      requires Valid()
      modifies this
      ensures Valid() && Read(v, View()) == Take(old(View()), n)
    {
      if failed { return []; }
      if n > |b| - off {
        failed := true;
        return [];
      }
      assert b[off..][..n] == b[off..off + n] && b[off..][n..] == b[off + n..];
      v := b[off..off + n];
      off := off + n;
    }

    method TakeNumber(width: nat) returns (v: nat)
      requires Valid()
      modifies this
      ensures Valid() && Read(v, View()) == GetNumber(old(View()), width)
    {
      var taken := TakeBytes(width);
      v := GetUint(taken);
    }

    method TakeVector(width: nat) returns (v: Bytes)
      requires Valid()
      modifies this
      ensures Valid() && Read(v, View()) == GetVector(old(View()), width)
    {
      var n := TakeNumber(width);
      v := TakeBytes(n);
    }

    method Done() returns (ok: bool)
      requires Valid()
      ensures ok == Finished(View())
    {
      ok := !failed && off == |b|;
    }
  }
}
