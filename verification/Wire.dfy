/** Bytes, fixed-width big-endian integers and prefixes: the vocabulary of every codec. */
module Wire {

  type Byte = x: int | 0 <= x < 256
  type Bytes = seq<Byte>

  datatype Option<+T> = None | Some(value: T)

  /** A transport address, as its text. */
  type Address = string

  /** The largest content of one record, 2^14 bytes. */
  const MAX_RECORD_CONTENT := 16384

  const U16_LIMIT := 0x1_0000
  const U24_LIMIT := 0x100_0000
  const U32_LIMIT := 0x1_0000_0000
  const U48_LIMIT := 0x1_0000_0000_0000
  const U64_LIMIT := 0x1_0000_0000_0000_0000

  /** 256 to the power `width`. */
  function Radix(width: nat): (r: nat)
    ensures r >= 1
  {
    if width == 0 then 1 else 256 * Radix(width - 1)
  }

  lemma RadixValues()
    ensures Radix(1) == 256 && Radix(2) == U16_LIMIT && Radix(3) == U24_LIMIT
    ensures Radix(4) == U32_LIMIT && Radix(6) == U48_LIMIT && Radix(8) == U64_LIMIT
  {
    assert Radix(1) == 256 * Radix(0);
    assert Radix(2) == 256 * Radix(1);
    assert Radix(3) == 256 * Radix(2);
    assert Radix(4) == 256 * Radix(3);
    assert Radix(5) == 256 * Radix(4);
    assert Radix(6) == 256 * Radix(5);
    assert Radix(7) == 256 * Radix(6);
    assert Radix(8) == 256 * Radix(7);
  }

  /** The low `width` bytes of `value`, most significant first (Go truncates silently on conversion). */
  function PutUint(value: nat, width: nat): (b: Bytes)
    ensures |b| == width
  {
    if width == 0 then [] else PutUint(value / 256, width - 1) + [value % 256]
  }

  function GetUint(b: Bytes): (value: nat)
  {
    if b == [] then 0 else 256 * GetUint(b[..|b| - 1]) + b[|b| - 1]
  }

  /** Bytes are digits in base 256, the most significant first. */
  lemma {:induction false} LeadingDigit(b: Bytes)
    requires b != []
    ensures GetUint(b) == b[0] * Radix(|b| - 1) + GetUint(b[1..])
  {
    if |b| > 1 {
      var last := |b| - 1;
      LeadingDigit(b[..last]);
      assert b[..last][1..] == b[1..][..last - 1] && b[1..][last - 1] == b[last];
      assert 256 * (b[0] * Radix(last - 1)) == b[0] * Radix(last);
    }
  }

  lemma {:induction false} GetPut(value: nat, width: nat)
    requires value < Radix(width)
    ensures GetUint(PutUint(value, width)) == value
  {
    if width > 0 {
      GetPut(value / 256, width - 1);
      var b := PutUint(value, width);
      assert b[..|b| - 1] == PutUint(value / 256, width - 1);
    }
  }

  lemma {:induction false} PutGet(b: Bytes)
    ensures GetUint(b) < Radix(|b|)
    ensures PutUint(GetUint(b), |b|) == b
  {
    if b != [] {
      PutGet(b[..|b| - 1]);
      assert b == b[..|b| - 1] + [b[|b| - 1]];
    }
  }

  /** Distinct values that fit have distinct encodings. */
  lemma PutInjective(x: nat, y: nat, width: nat)
    requires x < Radix(width) && y < Radix(width)
    requires PutUint(x, width) == PutUint(y, width)
    ensures x == y
  {
    GetPut(x, width);
    GetPut(y, width);
  }

  /** `p <= s` on sequences is "p is a prefix of s"; two strings are comparable when one prefixes the other. */
  predicate Comparable<T(==)>(a: seq<T>, b: seq<T>) {
    a <= b || b <= a
  }

  lemma PrefixesOfOneAreComparable<T>(a: seq<T>, b: seq<T>, s: seq<T>)
    requires a <= s && b <= s
    ensures a <= b || b <= a
  {
    if |a| <= |b| {
      assert a == s[..|a|] && b == s[..|b|];
      assert b[..|a|] == a;
    } else {
      assert a[..|b|] == b;
    }
  }

  /** Division is determined by quotient and remainder. */
  lemma QuotientIs(value: nat, divisor: nat, q: nat, r: nat)
    requires divisor > 0 && value == q * divisor + r && r < divisor
    ensures value / divisor == q
  {
    var p, s := value / divisor, value % divisor;
    assert value == p * divisor + s;
    assert (p - q) * divisor == r - s;
    SmallMultiple(p - q, divisor);
  }

  lemma SmallMultiple(k: int, divisor: int)
    requires divisor >= 0
    ensures k >= 1 ==> k * divisor >= divisor
    ensures k <= -1 ==> k * divisor <= -divisor
  {}

  /** The bytes of an encoded integer are its digits in base 256, the least significant one last. */
  lemma {:induction false} ByteOfUint(value: nat, width: nat, i: nat)
    requires i < width
    ensures PutUint(value, width)[width - 1 - i] == value / Radix(i) % 256
  {
    if i > 0 {
      ByteOfUint(value / 256, width - 1, i - 1);
      DivideTwice(value, Radix(i - 1));
    }
  }

  lemma DivideTwice(value: nat, radix: nat)
    requires radix > 0
    ensures value / 256 / radix == value / (256 * radix)
  {
    var q, r := value / 256, value % 256;
    var a, b := q / radix, q % radix;
    assert q == a * radix + b;
    assert value == 256 * (a * radix + b) + r == a * (256 * radix) + (256 * b + r);
    assert 0 <= 256 * b + r < 256 * radix;
    QuotientIs(value, 256 * radix, a, 256 * b + r);
  }
}
