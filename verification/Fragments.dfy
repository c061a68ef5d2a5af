/** Handshake messages, their fragmentation at any size, and the fragment codec. */
module Fragments {
  import opened Wire

  const HEADER_LENGTH := 12

  datatype Message = Message(typ: Byte, sequence: nat, body: Bytes)

  datatype Fragment = Fragment(typ: Byte, sequence: nat, length: nat, offset: nat, body: Bytes)

  // ---------------------------------------------------------------- fragmentation

  /** `f` carries the bytes of `m` at its offset. */
  predicate IsPartOf(f: Fragment, m: Message) {
    && f.typ == m.typ && f.sequence == m.sequence && f.length == |m.body|
    && f.offset + |f.body| <= |m.body|
    && f.body == m.body[f.offset..f.offset + |f.body|]
  }

  function Cut(m: Message, from: nat, to: nat): Fragment
    requires from <= to <= |m.body|
  {
    Fragment(m.typ, m.sequence, |m.body|, from, m.body[from..to])
  }

  function CutFrom(m: Message, offset: nat, maxFragment: nat): seq<Fragment>
    requires maxFragment > 0 && offset <= |m.body|
    decreases |m.body| - offset
  {
    if offset == |m.body| then []
    else
      var end := if offset + maxFragment < |m.body| then offset + maxFragment else |m.body|;
      [Cut(m, offset, end)] + CutFrom(m, end, maxFragment)
  }

  /** An empty message still takes one fragment. */
  function FragmentsOf(m: Message, maxFragment: nat): seq<Fragment>
    requires maxFragment > 0
  {
    if m.body == [] then [Cut(m, 0, 0)] else CutFrom(m, 0, maxFragment)
  }

  method FragmentMessage(m: Message, maxFragment: nat) returns (out: seq<Fragment>)
    requires maxFragment > 0
    ensures out == FragmentsOf(m, maxFragment)
  {
    var length := |m.body|;
    if length == 0 {
      return [Fragment(m.typ, m.sequence, 0, 0, [])];
    }
    out := [];
    var off := 0;
    while off < length
      invariant off <= length
      invariant out + CutFrom(m, off, maxFragment) == CutFrom(m, 0, maxFragment)
    {
      var end := if off + maxFragment < length then off + maxFragment else length;
      assert CutFrom(m, off, maxFragment) == [Cut(m, off, end)] + CutFrom(m, end, maxFragment);
      out := out + [Fragment(m.typ, m.sequence, length, off, m.body[off..end])];
      off := end;
    }
  }

  function Bodies(fragments: seq<Fragment>): Bytes {
    if fragments == [] then [] else fragments[0].body + Bodies(fragments[1..])
  }

  lemma {:induction false} CutBodies(m: Message, offset: nat, maxFragment: nat)
    requires maxFragment > 0 && offset <= |m.body|
    ensures Bodies(CutFrom(m, offset, maxFragment)) == m.body[offset..]
    decreases |m.body| - offset
  {
    if offset < |m.body| {
      var end := if offset + maxFragment < |m.body| then offset + maxFragment else |m.body|;
      CutBodies(m, end, maxFragment);
      assert m.body[offset..] == m.body[offset..end] + m.body[end..];
    }
  }

  lemma {:induction false} CutCount(m: Message, offset: nat, maxFragment: nat)
    requires maxFragment > 0 && offset <= |m.body|
    ensures |CutFrom(m, offset, maxFragment)| == (|m.body| - offset + maxFragment - 1) / maxFragment
    decreases |m.body| - offset
  {
    if offset < |m.body| {
      CutCount(m, if offset + maxFragment < |m.body| then offset + maxFragment else |m.body|, maxFragment);
      RoundUp(|m.body| - offset, maxFragment);
    } else {
      SmallQuotient(maxFragment - 1, maxFragment);
    }
  }

  lemma {:induction false} CutParts(m: Message, offset: nat, maxFragment: nat)
    requires maxFragment > 0 && offset <= |m.body|
    ensures forall f :: f in CutFrom(m, offset, maxFragment) ==>
            IsPartOf(f, m) && 0 < |f.body| <= maxFragment && offset <= f.offset
    decreases |m.body| - offset
  {
    if offset < |m.body| {
      CutParts(m, if offset + maxFragment < |m.body| then offset + maxFragment else |m.body|, maxFragment);
    }
  }

  /** At every size the fragments are parts of the message, fit the size, follow one another and add up to the body;
      their number is the rounded-up quotient the flight builder counts beforehand. */
  lemma CutsAddUp(m: Message, offset: nat, maxFragment: nat)
    requires maxFragment > 0 && offset <= |m.body|
    ensures Bodies(CutFrom(m, offset, maxFragment)) == m.body[offset..]
    ensures |CutFrom(m, offset, maxFragment)| == (|m.body| - offset + maxFragment - 1) / maxFragment
    ensures forall f :: f in CutFrom(m, offset, maxFragment) ==>
            IsPartOf(f, m) && 0 < |f.body| <= maxFragment && offset <= f.offset
  {
    CutBodies(m, offset, maxFragment);
    CutCount(m, offset, maxFragment);
    CutParts(m, offset, maxFragment);
  }

  lemma SmallQuotient(n: nat, d: nat)
    requires n < d
    ensures n / d == 0
  {}

  lemma RoundUp(n: nat, d: nat)
    requires d > 0 && n > 0
    ensures (n + d - 1) / d == 1 + ((if n > d then n - d else 0) + d - 1) / d
  {
    if n > d {
      OneMore(n - 1, d);
    } else {
      SmallQuotient(d - 1, d);
      OneMore(n - 1, d);
      SmallQuotient(n - 1, d);
    }
  }

  lemma OneMore(n: nat, d: nat)
    requires d > 0
    ensures (n + d) / d == 1 + n / d
  {
    var q, r := n / d, n % d;
    assert n + d == (q + 1) * d + r;
    QuotientIs(n + d, d, q + 1, r);
  }

  /** Every byte of the body is carried by some fragment. */
  lemma {:induction false} EveryByteIsCarried(m: Message, offset: nat, maxFragment: nat, k: nat)
    requires maxFragment > 0 && offset <= k < |m.body|
    ensures exists f :: f in CutFrom(m, offset, maxFragment) && f.offset <= k < f.offset + |f.body|
    decreases |m.body| - offset
  {
    var end := if offset + maxFragment < |m.body| then offset + maxFragment else |m.body|;
    var all := CutFrom(m, offset, maxFragment);
    assert all[0] == Cut(m, offset, end);
    if k < end {
      assert all[0] in all;
    } else {
      EveryByteIsCarried(m, end, maxFragment, k);
      var f :| f in CutFrom(m, end, maxFragment) && f.offset <= k < f.offset + |f.body|;
      assert f in all;
    }
  }

  // ---------------------------------------------------------------- codec

  predicate ValidFragment(f: Fragment) {
    f.length < U24_LIMIT && f.offset < U24_LIMIT && f.offset + |f.body| <= f.length
  }

  function PutFragment(f: Fragment): (b: Bytes)
    ensures |b| == HEADER_LENGTH + |f.body|
  {
    [f.typ] + PutUint(f.length, 3) + PutUint(f.sequence, 2) + PutUint(f.offset, 3) + PutUint(|f.body|, 3) + f.body
  }

  function Marshal(f: Fragment): Option<Bytes> {
    if ValidFragment(f) then Some(PutFragment(f)) else None
  }

  /** The fragment at the start of `b`, or None if it is truncated or out of bounds. */
  function ParseOne(b: Bytes): Option<Fragment> {
    if |b| < HEADER_LENGTH then None
    else
      var length, offset, n := GetUint(b[1..4]), GetUint(b[6..9]), GetUint(b[9..12]);
      if offset + n > length || n > |b| - HEADER_LENGTH then None
      else Some(Fragment(b[0], GetUint(b[4..6]), length, offset, b[12..12 + n]))
  }

  function Parse(b: Bytes): Option<seq<Fragment>>
    decreases |b|
  {
    if b == [] then Some([])
    else
      match ParseOne(b)
      case None => None
      case Some(f) =>
        match Parse(b[HEADER_LENGTH + |f.body|..])
        case None => None
        case Some(rest) => Some([f] + rest)
  }

  method ParseFragments(b: Bytes) returns (out: Option<seq<Fragment>>)
    ensures out == Parse(b)
  {
    var parsed: seq<Fragment> := [];
    var rest := b;
    assert forall more: seq<Fragment> :: parsed + more == more;
    while |rest| > 0
      invariant Parse(b) == match Parse(rest) case None => None case Some(more) => Some(parsed + more)
      decreases |rest|
    {
      if |rest| < HEADER_LENGTH { return None; }
      var length, offset, n := GetUint(rest[1..4]), GetUint(rest[6..9]), GetUint(rest[9..12]);
      if offset + n > length || n > |rest| - HEADER_LENGTH { return None; }
      var f := Fragment(rest[0], GetUint(rest[4..6]), length, offset, rest[12..12 + n]);
      assert ParseOne(rest) == Some(f);
      assert forall more: seq<Fragment> :: parsed + ([f] + more) == (parsed + [f]) + more;
      parsed := parsed + [f];
      rest := rest[12 + n..];
    }
    assert rest == [] && parsed + [] == parsed;
    return Some(parsed);
  }

  function PutAll(fragments: seq<Fragment>): Bytes {
    if fragments == [] then [] else PutFragment(fragments[0]) + PutAll(fragments[1..])
  }

  lemma ParsePut(f: Fragment, rest: Bytes)
    requires ValidFragment(f) && f.sequence < U16_LIMIT
    ensures ParseOne(PutFragment(f) + rest) == Some(f)
  {
    RadixValues();
    var b := PutFragment(f) + rest;
    assert b[1..4] == PutUint(f.length, 3);
    assert b[4..6] == PutUint(f.sequence, 2);
    assert b[6..9] == PutUint(f.offset, 3);
    assert b[9..12] == PutUint(|f.body|, 3);
    assert b[12..12 + |f.body|] == f.body;
    GetPut(f.length, 3);
    GetPut(f.sequence, 2);
    GetPut(f.offset, 3);
    GetPut(|f.body|, 3);
  }

  /** The header of a fragment (section 5.2 of RFC 9147), field by field. */
  lemma FragmentLayout(f: Fragment)
    requires ValidFragment(f) && f.sequence < U16_LIMIT
    ensures var b := PutFragment(f);
            && |b| == 12 + |f.body| && b[0] == f.typ && GetUint(b[1..4]) == f.length && GetUint(b[4..6]) == f.sequence
            && GetUint(b[6..9]) == f.offset && GetUint(b[9..12]) == |f.body| && b[12..] == f.body
  {
    ParsePut(f, []);
    assert PutFragment(f) + [] == PutFragment(f);
    assert PutFragment(f)[12..] == f.body;
    var b := PutFragment(f);
    RadixValues();
    assert b[9..12] == PutUint(|f.body|, 3);
    GetPut(|f.body|, 3);
  }

  /** What can be encoded: lengths and offsets of 24 bits, and no bytes beyond the length. */
  lemma MarshalsExactly(f: Fragment)
    ensures Marshal(f).Some? <==> f.length < 0x100_0000 && f.offset < 0x100_0000 && f.offset + |f.body| <= f.length
  {}

  lemma PutParse(b: Bytes)
    requires ParseOne(b).Some?
    ensures var f := ParseOne(b).value;
            && ValidFragment(f) && f.sequence < U16_LIMIT
            && PutFragment(f) + b[HEADER_LENGTH + |f.body|..] == b
  {
    RadixValues();
    var f := ParseOne(b).value;
    PutGet(b[1..4]);
    PutGet(b[4..6]);
    PutGet(b[6..9]);
    PutGet(b[9..12]);
    assert b == [b[0]] + b[1..4] + b[4..6] + b[6..9] + b[9..12] + b[12..12 + |f.body|] + b[12 + |f.body|..];
  }

  /** Any run of valid fragments parses back to itself. */
  lemma {:induction false} ParsePutAll(fragments: seq<Fragment>)
    requires forall f :: f in fragments ==> ValidFragment(f) && f.sequence < U16_LIMIT
    ensures Parse(PutAll(fragments)) == Some(fragments)
  {
    if fragments != [] {
      var first, rest := fragments[0], fragments[1..];
      ParsePut(first, PutAll(rest));
      assert PutAll(fragments)[HEADER_LENGTH + |first.body|..] == PutAll(rest);
      ParsePutAll(rest);
      assert fragments == [first] + rest;
    }
  }

  /** Accepted bytes are exactly the encoding of what was parsed. */
  lemma {:induction false} PutAllParse(b: Bytes)
    requires Parse(b).Some?
    ensures PutAll(Parse(b).value) == b
    ensures forall f :: f in Parse(b).value ==> ValidFragment(f) && f.sequence < U16_LIMIT
    decreases |b|
  {
    if b != [] {
      PutParse(b);
      var f := ParseOne(b).value;
      PutAllParse(b[HEADER_LENGTH + |f.body|..]);
      var rest := Parse(b[HEADER_LENGTH + |f.body|..]).value;
      assert Parse(b).value[1..] == rest;
    }
  }
}
