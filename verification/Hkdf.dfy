/** HKDF-Expand (section 2.3 of RFC 5869) and HKDF-Expand-Label (section 7.1 of RFC 8446), also computed in place. */
module Hkdf {
  import opened Wire

  /** A hash and its HMAC as functions; only the length of their results matters here. */
  datatype Suite = Suite(hash: Bytes -> Bytes, hmac: (Bytes, Bytes) -> Bytes, size: nat)

  ghost predicate IsSuite(s: Suite) {
    && (s.size == 32 || s.size == 48)
    && (forall text :: |s.hash(text)| == s.size)
    && (forall key, text :: |s.hmac(key, text)| == s.size)
  }

  const MAX_BLOCKS := 255

  // ---------------------------------------------------------------- definitions

  /** T(i) of RFC 5869. */
  function Block(s: Suite, secret: Bytes, info: Bytes, i: nat): Bytes {
    if i == 0 then [] else s.hmac(secret, Block(s, secret, info, i - 1) + info + [i % 256])
  }

  /** T(1) | ... | T(n). */
  function Blocks(s: Suite, secret: Bytes, info: Bytes, n: nat): Bytes {
    if n == 0 then [] else Blocks(s, secret, info, n - 1) + Block(s, secret, info, n)
  }

  lemma {:induction false} BlocksLength(s: Suite, secret: Bytes, info: Bytes, n: nat)
    requires IsSuite(s)
    ensures |Blocks(s, secret, info, n)| == n * s.size
  {
    if n > 0 { BlocksLength(s, secret, info, n - 1); }
  }

  /** The first `length` bytes of enough blocks. */
  ghost function Expand(s: Suite, secret: Bytes, info: Bytes, length: nat): (okm: Bytes)
    requires IsSuite(s) && length <= MAX_BLOCKS * s.size
  {
    BlocksLength(s, secret, info, MAX_BLOCKS);
    Blocks(s, secret, info, MAX_BLOCKS)[..length]
  }

  /** A prefix of fewer blocks is the same prefix. */
  lemma {:induction false} ExpandFromFewer(s: Suite, secret: Bytes, info: Bytes, n: nat, length: nat)
    requires IsSuite(s) && n <= MAX_BLOCKS && length <= n * s.size
    ensures length <= MAX_BLOCKS * s.size && length <= |Blocks(s, secret, info, n)|
    ensures Expand(s, secret, info, length) == Blocks(s, secret, info, n)[..length]
    decreases MAX_BLOCKS - n
  {
    BlocksLength(s, secret, info, n);
    if n < MAX_BLOCKS {
      BlocksLength(s, secret, info, n + 1);
      ExpandFromFewer(s, secret, info, n + 1, length);
    }
  }

  const PREFIX: Bytes := [100, 116, 108, 115, 49, 51]

  function Info(length: nat, name: Bytes, context: Bytes): Bytes
    requires |name| <= 249 && |context| <= 255
  {
    PutUint(length, 2) + [6 + |name|] + PREFIX + name + [|context|] + context
  }

  ghost function ExpandLabel(s: Suite, secret: Bytes, name: Bytes, context: Bytes, length: nat): Bytes
    requires IsSuite(s) && length <= MAX_BLOCKS * s.size && |name| <= 249 && |context| <= 255
  {
    Expand(s, secret, Info(length, name, context), length)
  }

  ghost function DeriveSecret(s: Suite, secret: Bytes, name: Bytes, transcript: Bytes): (r: Bytes)
    requires IsSuite(s) && |name| <= 249 && |transcript| <= 255
    ensures |r| == s.size
  {
    ExpandLabel(s, secret, name, transcript, s.size)
  }

  function Extract(s: Suite, secret: Bytes, salt: Bytes): Bytes {
    s.hmac(salt, secret)
  }

  /** One block suffices for one hash length of output. */
  lemma OneBlock(s: Suite, secret: Bytes, info: Bytes)
    requires IsSuite(s)
    ensures Expand(s, secret, info, s.size) == s.hmac(secret, info + [1])
  {
    ExpandFromFewer(s, secret, info, 1, s.size);
    assert Blocks(s, secret, info, 0) == [] && Block(s, secret, info, 0) == [];
    assert Block(s, secret, info, 1) == s.hmac(secret, [] + info + [1]);
    assert [] + info + [1] == info + [1];
    assert Blocks(s, secret, info, 1) == [] + Block(s, secret, info, 1);
  }

  // ---------------------------------------------------------------- windows of arrays

  /** Copies bytes into an array window. */
  method Put(a: array<Byte>, at: nat, b: Bytes)
    requires at + |b| <= a.Length
    modifies a
    ensures a[..] == old(a[..at]) + b + old(a[at + |b|..])
  {
    for i := 0 to |b|
      invariant forall k :: 0 <= k < i ==> a[at + k] == b[k]
      invariant forall k :: 0 <= k < a.Length && !(at <= k < at + i) ==> a[k] == old(a[k])
    {
      a[at + i] := b[i];
    }
  }

  /** Copies one window of an array to a lower one; the windows may overlap. */
  method MoveDown(a: array<Byte>, from: nat, to: nat, n: nat)
    requires to <= from && from + n <= a.Length
    modifies a
    ensures a[to..to + n] == old(a[from..from + n])
    ensures a[..to] == old(a[..to]) && a[to + n..] == old(a[to + n..])
  {
    ghost var moved := a[from..from + n];
    for i := 0 to n
      invariant forall k :: 0 <= k < i ==> a[to + k] == moved[k]
      invariant forall k :: 0 <= k < a.Length && !(to <= k < to + i) ==> a[k] == old(a[k])
    {
      a[to + i] := a[from + i];
    }
  }

  // ---------------------------------------------------------------- single-block form

  /** Writes the secret derived from `key`, which was read before the output is touched. */
  method ExpandLabelHash(s: Suite, key: Bytes, name: Bytes, context: Bytes, a: array<Byte>, outAt: nat)
    requires IsSuite(s) && |name| <= 249 && |context| <= 255 && outAt + s.size <= a.Length
    modifies a
    ensures a[..] == old(a[..outAt]) + DeriveSecret(s, key, name, context) + old(a[outAt + s.size..])
  {
    var text := [0, s.size, 6 + |name|] + PREFIX + name + [|context|] + context + [1];
    HeaderBytes(s.size);
    assert text == Info(s.size, name, context) + [1];
    OneBlock(s, key, Info(s.size, name, context));
    Put(a, outAt, s.hmac(key, text));
  }

  /** Derives from one window of an array over another, which may be the same. */
  method ExpandLabelHashInto(s: Suite, a: array<Byte>, secretAt: nat, name: Bytes, context: Bytes, outAt: nat)
    requires IsSuite(s) && |name| <= 249 && |context| <= 255
    requires secretAt + s.size <= a.Length && outAt + s.size <= a.Length
    modifies a
    ensures a[..]
            == old(a[..outAt]) + DeriveSecret(s, old(a[secretAt..secretAt + s.size]), name, context)
            + old(a[outAt + s.size..])
  {
    var key := a[secretAt..secretAt + s.size];
    ExpandLabelHash(s, key, name, context, a, outAt);
  }

  lemma HeaderBytes(size: nat)
    requires size < 256
    ensures PutUint(size, 2) == [0, size]
  {
    assert PutUint(size / 256, 1) == PutUint(0, 0) + [0];
  }

  method ExtractInto(s: Suite, secret: Bytes, a: array<Byte>, saltAt: nat, outAt: nat)
    requires IsSuite(s) && saltAt + s.size <= a.Length && outAt + s.size <= a.Length
    modifies a
    ensures a[..] == old(a[..outAt]) + Extract(s, secret, old(a[saltAt..saltAt + s.size])) + old(a[outAt + s.size..])
  {
    var salt := a[saltAt..saltAt + s.size];
    Put(a, outAt, s.hmac(salt, secret));
  }

  // ---------------------------------------------------------------- multi-block forms

  function Least(a: nat, b: nat): nat {
    if a <= b then a else b
  }

  /** The output holds the first `at` bytes and `done` blocks have been produced. */
  ghost predicate Produced(s: Suite, secret: Bytes, info: Bytes, made: nat, at: nat, length: nat, bytes: Bytes)
    requires IsSuite(s)
  {
    && at == Least(made * s.size, length) && |bytes| == at
    && bytes <= Blocks(s, secret, info, made)
  }

  /** Producing one more block, cut to what is still missing. */
  lemma ProduceNext(s: Suite, secret: Bytes, info: Bytes, made: nat, at: nat, length: nat, bytes: Bytes)
    requires IsSuite(s) && Produced(s, secret, info, made, at, length, bytes) && at < length
    ensures var block := Block(s, secret, info, made + 1);
            var n := Least(s.size, length - at);
            |block| == s.size && Produced(s, secret, info, made + 1, at + n, length, bytes + block[..n])
  {
    BlocksLength(s, secret, info, made);
    NextMultiple(made, s.size);
    var block := Block(s, secret, info, made + 1);
    assert bytes == Blocks(s, secret, info, made);
    assert Blocks(s, secret, info, made + 1) == bytes + block;
  }

  /** The next block, under the counter the loop has reached. */
  lemma NextSum(s: Suite, secret: Bytes, info: Bytes, made: nat, at: nat, length: nat, bytes: Bytes)
    requires IsSuite(s) && Produced(s, secret, info, made, at, length, bytes) && at < length <= MAX_BLOCKS * s.size
    ensures made < MAX_BLOCKS
    ensures var sum := s.hmac(secret, Block(s, secret, info, made) + info + [made + 1]);
            var n := Least(s.size, length - at);
            && sum == Block(s, secret, info, made + 1) && |sum| == s.size
            && Produced(s, secret, info, made + 1, at + n, length, bytes + sum[..n])
  {
    CounterFits(made, s.size, length);
    ProduceNext(s, secret, info, made, at, length, bytes);
  }

  lemma NextMultiple(n: nat, size: nat)
    ensures (n + 1) * size == n * size + size
  {}

  lemma ProducedAll(s: Suite, secret: Bytes, info: Bytes, made: nat, length: nat, bytes: Bytes)
    requires IsSuite(s) && length <= MAX_BLOCKS * s.size && made <= MAX_BLOCKS
    requires Produced(s, secret, info, made, length, length, bytes)
    ensures bytes == Expand(s, secret, info, length)
  {
    ExpandFromFewer(s, secret, info, made, length);
  }

  /** At most 255 blocks are needed, so the one-byte counter never wraps while it is used. */
  lemma CounterFits(made: nat, size: nat, length: nat)
    requires size > 0 && made * size < length <= MAX_BLOCKS * size
    ensures made < MAX_BLOCKS
  {
    if made >= MAX_BLOCKS {
      Monotone(MAX_BLOCKS, made, size);
      assert false;
    }
  }

  lemma Monotone(a: nat, b: nat, size: nat)
    requires a <= b
    ensures a * size <= b * size
  {}

  /** Writes bytes after a written part of a window and leaves everything outside the window alone. */
  method Fill(a: array<Byte>, from: nat, at: nat, b: Bytes, ghost to: nat)
    requires from <= at && at + |b| <= to <= a.Length
    modifies a
    ensures a[from..at + |b|] == old(a[from..at]) + b && a[at..at + |b|] == b
    ensures a[..from] == old(a[..from]) && a[to..] == old(a[to..])
  {
    Put(a, at, b);
  }

  /** Keeps a block for the next one and copies what is wanted of it to the output. */
  method StoreBlock(previous: array<Byte>, sum: Bytes, out: array<Byte>, from: nat, at: nat, part: Bytes, ghost to: nat)
    requires previous != out && |sum| <= previous.Length && from <= at && at + |part| <= to <= out.Length
    modifies previous, out
    ensures previous[..|sum|] == sum
    ensures out[from..at + |part|] == old(out[from..at]) + part
    ensures out[..from] == old(out[..from]) && out[to..] == old(out[to..])
  {
    Fill(previous, 0, 0, sum, previous.Length);
    Fill(out, from, at, part, to);
  }

  method Wipe(a: array<Byte>, n: nat)
    requires n <= a.Length
    modifies a
    ensures forall k :: 0 <= k < n ==> a[k] == 0
  {
    for i := 0 to n
      invariant forall k :: 0 <= k < i ==> a[k] == 0
    {
      a[i] := 0;
    }
  }

  /** One turn of the expander's loop. */
  method NextBlock(s: Suite, secret: Bytes, info: Bytes, previous: array<Byte>, used: nat, counter: Byte,
                   out: array<Byte>, from: nat, at: nat, length: nat, ghost made: nat) returns (n: nat)
    requires IsSuite(s) && at < length <= MAX_BLOCKS * s.size && previous.Length == 64 && previous != out
             && from + length <= out.Length
    requires Produced(s, secret, info, made, at, length, out[from..from + at])
    requires used <= 64 && previous[..used] == Block(s, secret, info, made)
             && (made < MAX_BLOCKS ==> counter == made + 1)
    modifies previous, out
    ensures made < MAX_BLOCKS && 0 < n && at + n <= length
    ensures Produced(s, secret, info, made + 1, at + n, length, out[from..from + at + n])
    ensures previous[..s.size] == Block(s, secret, info, made + 1)
    ensures out[..from] == old(out[..from]) && out[from + length..] == old(out[from + length..])
  {
    NextSum(s, secret, info, made, at, length, out[from..from + at]);
    var sum := s.hmac(secret, previous[..used] + info + [counter]);
    n := Least(s.size, length - at);
    StoreBlock(previous, sum, out, from, from + at, sum[..n], from + length);
  }

  /** The expander keeps each block in a buffer of its own, whose used part is the start of `previous`, and clears it at
      the end. The output is a window of an array. */
  method ExpandInto(s: Suite, secret: Bytes, info: Bytes, previous: array<Byte>, out: array<Byte>, from: nat,
                    length: nat)
    requires IsSuite(s) && length <= MAX_BLOCKS * s.size && previous.Length == 64 && previous != out
             && from + length <= out.Length
    modifies previous, out
    ensures out[from..from + length] == Expand(s, secret, info, length)
    ensures out[..from] == old(out[..from]) && out[from + length..] == old(out[from + length..])
    ensures forall k :: 0 <= k < s.size ==> previous[k] == 0
  {
    var at, used: nat := 0, 0;
    var counter: Byte := 1;
    ghost var made, head, tail := 0, out[..from], out[from + length..];
    while at < length
      invariant 0 <= at <= length && used <= 64 && made <= MAX_BLOCKS && (made < MAX_BLOCKS ==> counter == made + 1)
      invariant Produced(s, secret, info, made, at, length, out[from..from + at])
      invariant previous[..used] == Block(s, secret, info, made)
      invariant out[..from] == head && out[from + length..] == tail
      decreases length - at
    {
      var n := NextBlock(s, secret, info, previous, used, counter, out, from, at, length, made);
      used := s.size;
      at := at + n;
      counter := if counter == 255 then 0 else counter + 1;
      made := made + 1;
    }
    ProducedAll(s, secret, info, made, length, out[from..from + length]);
    Wipe(previous, s.size);
  }

  // ---------------------------------------------------------------- overlapping scratch

  /** Writes everything but the context, over the secret. */
  method BuildHead(scratch: array<Byte>, size: nat, length: nat, name: Bytes)
    requires scratch.Length == 2 * size && size <= 255 && 10 + |name| <= size
    modifies scratch
    ensures scratch[..10 + |name|] == PutUint(length, 2) + [6 + |name|] + PREFIX + name + [size]
    ensures scratch[size..] == old(scratch[size..])
  {
    var head := PutUint(length, 2);
    Extend(scratch, [], head, size);
    assert [] + head == head;
    Extend(scratch, head, [6 + |name|], size);
    head := head + [6 + |name|];
    Extend(scratch, head, PREFIX, size);
    head := head + PREFIX;
    Extend(scratch, head, name, size);
    head := head + name;
    Extend(scratch, head, [size], size);
  }

  /** Builds the label info at the start of the scratch, over the secret that lies there, moving the context down from
      the second half. */
  method BuildInfo(scratch: array<Byte>, size: nat, length: nat, name: Bytes)
    requires scratch.Length == 2 * size && size <= 255 && 10 + |name| <= size
    modifies scratch
    ensures scratch[..10 + |name| + size] == Info(length, name, old(scratch[size..]))
  {
    ghost var context := scratch[size..];
    var at := 10 + |name|;
    BuildHead(scratch, size, length, name);
    ghost var head := scratch[..at];
    assert scratch[size..size + size] == context;
    MoveDown(scratch, size, at, size);
    assert scratch[..at + size] == scratch[..at] + scratch[at..at + size];
    assert head + context == Info(length, name, context);
  }

  /** Continues a written prefix and leaves what starts at `keep` alone. */
  method Extend(a: array<Byte>, head: Bytes, b: Bytes, ghost keep: nat)
    requires |head| + |b| <= keep <= a.Length && a[..|head|] == head
    modifies a
    ensures a[..|head| + |b|] == head + b && a[keep..] == old(a[keep..])
  {
    Put(a, |head|, b);
  }

  /** Expand-Label whose secret and context lie in the two halves of the scratch that the info is built in. A last
      partial block is also put there, over the info. */
  method ExpandLabelWithScratchInto(s: Suite, scratch: array<Byte>, name: Bytes, out: array<Byte>)
    requires IsSuite(s) && scratch.Length == 2 * s.size && 10 + |name| <= s.size
    requires out.Length <= MAX_BLOCKS * s.size && out != scratch
    modifies scratch, out
    ensures out[..] == ExpandLabel(s, old(scratch[..s.size]), name, old(scratch[s.size..]), out.Length)
  {
    var key := scratch[..s.size];
    var infoLen := 10 + |name| + s.size;
    ghost var info := Info(out.Length, name, scratch[s.size..]);
    BuildInfo(scratch, s.size, out.Length, name);
    ExpandOver(s, key, scratch, infoLen, out);
  }

  /** The block loop: full blocks go straight into the output, where the next one reads them back. */
  method ExpandOver(s: Suite, key: Bytes, scratch: array<Byte>, infoLen: nat, out: array<Byte>)
    requires IsSuite(s) && s.size <= scratch.Length && infoLen <= scratch.Length
    requires out.Length <= MAX_BLOCKS * s.size && out != scratch
    modifies scratch, out
    ensures out[..] == Expand(s, key, old(scratch[..infoLen]), out.Length)
  {
    ghost var info := scratch[..infoLen];
    ghost var made := 0;
    var length, at, previous := out.Length, 0, 0;
    var counter: int := 1;
    while at < length
      invariant 0 <= previous <= at <= length && counter == made + 1 && made <= MAX_BLOCKS
      invariant at < length ==> scratch[..infoLen] == info
      invariant Produced(s, key, info, made, at, length, out[0..at])
      invariant at < length ==> out[previous..at] == Block(s, key, info, made)
      decreases length - at
    {
      NextSum(s, key, info, made, at, length, out[0..at]);
      var sum := s.hmac(key, out[previous..at] + scratch[..infoLen] + [counter]);
      previous := at;
      if length - at < s.size {
        StoreLast(scratch, out, at, sum);
        at := length;
      } else {
        Fill(out, 0, at, sum, length);
        assert sum[..s.size] == sum;
        at := at + s.size;
      }
      counter := counter + 1;
      made := made + 1;
    }
    ProducedAll(s, key, info, made, length, out[0..length]);
    assert out[0..length] == out[..];
  }

  /** A partial block is cut from the scratch, which is then cleared. */
  method StoreLast(scratch: array<Byte>, out: array<Byte>, at: nat, sum: Bytes)
    requires |sum| <= scratch.Length && at <= out.Length < at + |sum| && out != scratch
    modifies scratch, out
    ensures out[0..out.Length] == old(out[0..at]) + sum[..out.Length - at]
    ensures forall k :: 0 <= k < |sum| ==> scratch[k] == 0
  {
    var remaining := out.Length - at;
    Put(scratch, 0, sum);
    assert scratch[..remaining] == sum[..remaining];
    Put(out, at, scratch[..remaining]);
    Put(scratch, 0, seq(|sum|, _ => 0));
  }
}
