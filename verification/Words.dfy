// Fixed-width words as bounded integers, little-endian byte order, bitwise
// exclusive or, and byte strings that are patched in place.

module Words {

  type u8 = x: int | 0 <= x < 0x100
  type u16 = x: int | 0 <= x < 0x1_0000
  type u32 = x: int | 0 <= x < 0x1_0000_0000
  type u64 = x: int | 0 <= x < 0x1_0000_0000_0000_0000

  const SIZE_MAX: u64 := 0xFFFF_FFFF_FFFF_FFFF

  /** No object in memory and no device is larger: addresses have fewer bits. */
  const MAX_OBJECT: u64 := 0x100_0000_0000_0000

  type bytes = seq<u8>

  /** A 64-bit sum: wraps around as size_t does. */
  function Add64(a: u64, b: u64): u64 {
    (a + b) % 0x1_0000_0000_0000_0000
  }

  lemma Add64Wraps(a: u64, b: u64)
    ensures Add64(a, b) == if a + b <= SIZE_MAX then a + b else a + b - SIZE_MAX - 1
  {
  }

  // ----- little-endian order

  function U16Bytes(v: u16): (r: bytes)
    ensures |r| == 2
  {
    [v % 256, v / 256]
  }

  function U32Bytes(v: u32): (r: bytes)
    ensures |r| == 4
  {
    var v1 := v / 256;
    var v2 := v1 / 256;
    [v % 256, v1 % 256, v2 % 256, v2 / 256]
  }

  /** The number whose little-endian digits s holds. */
  function Number(s: bytes): nat {
    if s == [] then 0 else s[0] + 256 * Number(s[1..])
  }

  lemma TwoDigits(s: bytes, i: nat)
    requires i + 2 <= |s|
    ensures Number(s[i..i + 2]) == s[i] as int + 256 * (s[i + 1] as int)
  {
    assert s[i..i + 2][1..] == [s[i + 1]];
    assert Number([s[i + 1]]) == s[i + 1] as int;
  }

  lemma FourDigits(s: bytes, i: nat)
    requires i + 4 <= |s|
    ensures Number(s[i..i + 4])
         == s[i] as int + 256 * (s[i + 1] as int + 256 * (s[i + 2] as int + 256 * (s[i + 3] as int)))
  {
    TwoDigits(s, i + 2);
    assert s[i..i + 4][1..][1..] == s[i + 2..i + 4];
  }

  function U16At(s: bytes, i: nat): u16
    requires i + 2 <= |s|
  {
    TwoDigits(s, i);
    Number(s[i..i + 2])
  }

  function U32At(s: bytes, i: nat): u32
    requires i + 4 <= |s|
  {
    FourDigits(s, i);
    Number(s[i..i + 4])
  }

  lemma U32RoundTrip(v: u32)
    ensures U32At(U32Bytes(v), 0) == v
  {
    FourDigits(U32Bytes(v), 0);
  }

  /** The n low-order bytes of v, least significant first. */
  function LowBytes(v: nat, n: nat): (r: bytes)
    ensures |r| == n
  {
    if n == 0 then [] else [v % 256] + LowBytes(v / 256, n - 1)
  }

  // ----- exclusive or

  function Xor(a: nat, b: nat): nat
    decreases a, b, 1
  {
    if a == 0 then b else if b == 0 then a else XorPositive(a, b)
  }

  /** The lowest bits differ or not; the rest is halved. */
  function XorPositive(a: nat, b: nat): nat
    requires a != 0 && b != 0
    decreases a, b, 0
  {
    (if a % 2 == b % 2 then 0 else 1) + 2 * Xor(a / 2, b / 2)
  }

  /** One unfolding of Xor that also holds when an operand is zero. */
  lemma XorBits(a: nat, b: nat)
    ensures Xor(a, b) % 2 == (if a % 2 == b % 2 then 0 else 1)
    ensures Xor(a, b) / 2 == Xor(a / 2, b / 2)
  {
    if a != 0 && b != 0 {
      Halves(if a % 2 == b % 2 then 0 else 1, Xor(a / 2, b / 2));
    }
  }

  lemma Halves(low: nat, high: nat)
    requires low < 2
    ensures (low + 2 * high) % 2 == low && (low + 2 * high) / 2 == high
  {
  }

  lemma {:induction false} XorCommutes(a: nat, b: nat)
    ensures Xor(a, b) == Xor(b, a)
    decreases a + b
  {
    if a == 0 || b == 0 {
    } else {
      XorCommutes(a / 2, b / 2);
    }
  }

  lemma {:induction false} XorAssociates(a: nat, b: nat, c: nat)
    ensures Xor(Xor(a, b), c) == Xor(a, Xor(b, c))
    decreases a + b + c
  {
    if a == 0 || b == 0 || c == 0 {
    } else {
      XorAssociates(a / 2, b / 2, c / 2);
      XorBits(a, b);
      XorBits(b, c);
      XorBits(Xor(a, b), c);
      XorBits(a, Xor(b, c));
    }
  }

  lemma {:induction false} XorSelf(a: nat)
    ensures Xor(a, a) == 0
  {
    if a == 0 {
    } else {
      XorSelf(a / 2);
    }
  }

  /** Exclusive or with a fixed word can be undone, hence is injective. */
  lemma XorCancels(a: nat, b: nat, c: nat)
    ensures Xor(Xor(a, c), c) == a
    ensures Xor(a, c) == Xor(b, c) ==> a == b
  {
    forall x: nat ensures Xor(Xor(x, c), c) == x {
      XorAssociates(x, c, c);
      XorSelf(c);
    }
  }

  function Pow2(n: nat): (r: nat)
    ensures r >= 1
  {
    if n == 0 then 1 else 2 * Pow2(n - 1)
  }

  lemma {:induction false} XorBounded(a: nat, b: nat, n: nat)
    requires a < Pow2(n) && b < Pow2(n)
    ensures Xor(a, b) < Pow2(n)
  {
    if a == 0 || b == 0 {
    } else {
      XorBounded(a / 2, b / 2, n - 1);
    }
  }

  lemma DoubleProduct(b: nat, p: nat)
    ensures b * (2 * p) == 2 * (b * p)
  {
  }

  /** Words that share no bit position combine by addition. */
  lemma {:induction false} XorDisjoint(a: nat, b: nat, n: nat)
    requires a < Pow2(n)
    ensures Xor(a, b * Pow2(n)) == a + b * Pow2(n)
  {
    if n == 0 {
    } else {
      XorDisjoint(a / 2, b, n - 1);
      assert Pow2(n) == 2 * Pow2(n - 1);
      hide Xor, Pow2;
      var c := b * Pow2(n - 1);
      DoubleProduct(b, Pow2(n - 1));
      Halves(0, c);
      XorBits(a, 2 * c);
    }
  }

  function Xor32(a: u32, b: u32): (r: u32)
    ensures r == Xor(a, b)
  {
    assert Xor(a, b) < Pow2(32) by {
      Pow2Of32();
      XorBounded(a, b, 32);
    }
    Pow2Of32();
    Xor(a, b)
  }

  lemma Pow2Of32()
    ensures Pow2(8) == 0x100
    ensures Pow2(16) == 0x1_0000
    ensures Pow2(24) == 0x100_0000
    ensures Pow2(31) == 0x8000_0000
    ensures Pow2(32) == 0x1_0000_0000
  {
    assert Pow2(8) == 0x100;
    assert Pow2(16) == 0x1_0000;
    assert Pow2(24) == 0x100_0000;
    assert Pow2(31) == 0x8000_0000;
  }

  // ----- byte strings patched in place

  /** s with the bytes from position at on replaced by part. */
  function Splice(s: bytes, at: nat, part: bytes): (r: bytes)
    requires at + |part| <= |s|
    ensures |r| == |s|
    ensures forall i :: 0 <= i < |s| ==> r[i] == if at <= i < at + |part| then part[i - at] else s[i]
  {
    s[..at] + part + s[at + |part|..]
  }

  function Fill(n: nat, b: u8): (r: bytes)
    ensures |r| == n
    ensures forall i :: 0 <= i < n ==> r[i] == b
  {
    seq(n, _ => b)
  }

  lemma SpliceInside(s: bytes, at: nat, part: bytes)
    requires at + |part| <= |s|
    ensures Splice(s, at, part)[at..at + |part|] == part
  {
  }

  lemma SpliceFront(s: bytes, part: bytes)
    requires |part| <= |s|
    ensures Splice(s, 0, part)[..|part|] == part && Splice(s, 0, part)[|part|..] == s[|part|..]
  {
  }

  lemma SpliceOutside(s: bytes, at: nat, part: bytes, lo: nat, hi: nat)
    requires at + |part| <= |s|
    requires lo <= hi <= |s|
    requires hi <= at || at + |part| <= lo
    ensures Splice(s, at, part)[lo..hi] == s[lo..hi]
  {
  }

  /** Consecutive patches join into one. */
  lemma SpliceJoin(s: bytes, at: nat, a: bytes, b: bytes)
    requires at + |a| + |b| <= |s|
    ensures Splice(Splice(s, at, a), at + |a|, b) == Splice(s, at, a + b)
  {
  }

  /** s is found in mem from position at on. */
  ghost predicate Lies(mem: bytes, at: nat, s: bytes) {
    at + |s| <= |mem| && mem[at..at + |s|] == s
  }

  lemma LiesApart(mem: bytes, at: nat, a: bytes, b: bytes)
    requires Lies(mem, at, a + b)
    ensures Lies(mem, at, a) && Lies(mem, at + |a|, b)
  {
    var s := mem[at..at + |a| + |b|];
    assert mem[at..at + |a|] == s[..|a|];
    assert mem[at + |a|..at + |a| + |b|] == s[|a|..];
  }

  lemma LiesAt(mem: bytes, at: nat, s: bytes, k: nat)
    requires Lies(mem, at, s) && k < |s|
    ensures mem[at + k] == s[k]
  {
    assert mem[at..at + |s|][k] == mem[at + k];
  }

  lemma U16Lies(mem: bytes, at: nat, v: u16)
    requires Lies(mem, at, U16Bytes(v))
    ensures U16At(mem, at) == v
  {
    LiesAt(mem, at, U16Bytes(v), 0);
    LiesAt(mem, at, U16Bytes(v), 1);
    TwoDigits(mem, at);
  }
}
