// The reflected CRC-32 of section 8 of RFC 1952, one byte at a time, and what
// it is guaranteed to detect.

module Crc {
  import opened Words

  const POLY: u32 := 0xEDB88320
  const SEED: u32 := 0xFFFF_FFFF

  function BitStep(v: u32): u32 {
    if v % 2 != 0 then Xor32(v / 2, POLY) else v / 2
  }

  function Steps(v: u32, n: nat): u32 {
    if n == 0 then v else BitStep(Steps(v, n - 1))
  }

  /** The register after one more byte. */
  function ByteStep(crc: u32, b: u8): u32 {
    Steps(Xor32(crc, b), 8)
  }

  /** The register after all of s, starting from crc. */
  function Fold(crc: u32, s: bytes): u32 {
    if s == [] then crc else ByteStep(Fold(crc, s[..|s| - 1]), s[|s| - 1])
  }

  function Finalize(crc: u32): u32 {
    Xor32(crc, 0xFFFF_FFFF)
  }

  function Crc32(s: bytes): u32 {
    Finalize(Fold(SEED, s))
  }

  // ----- the loops

  method UpdateByte(crc: u32, b: u8) returns (r: u32)
    ensures r == ByteStep(crc, b)
  {
    var value := Xor32(crc, b);
    for bit := 0 to 8
      invariant value == Steps(Xor32(crc, b), bit)
    {
      if value % 2 != 0 {
        value := Xor32(value / 2, POLY);
      } else {
        value := value / 2;
      }
    }
    r := value;
  }

  /** Feeds s into the register, byte by byte. */
  method Update(crc: u32, s: bytes) returns (r: u32)
    ensures r == Fold(crc, s)
  {
    r := crc;
    for index := 0 to |s|
      invariant r == Fold(crc, s[..index])
    {
      assert s[..index + 1][..index] == s[..index];
      r := UpdateByte(r, s[index]);
    }
    assert s[..|s|] == s;
  }

  method ComputeCrc32(s: bytes) returns (r: u32)
    ensures r == Crc32(s)
  {
    r := Update(SEED, s);
    r := Finalize(r);
  }

  // ----- the register is folded piecewise

  lemma {:induction false} FoldAppend(crc: u32, s: bytes, t: bytes)
    ensures Fold(crc, s + t) == Fold(Fold(crc, s), t)
    decreases |t|
  {
    if t == [] {
      assert s + t == s;
    } else {
      FoldAppend(crc, s, t[..|t| - 1]);
      assert (s + t)[..|s + t| - 1] == s + t[..|t| - 1];
    }
  }

  // ----- every bit step is linear and injective

  lemma Exchange(a: nat, b: nat, p: nat)
    ensures Xor(Xor(a, p), b) == Xor(Xor(a, b), p)
    ensures Xor(a, Xor(b, p)) == Xor(Xor(a, b), p)
    ensures Xor(Xor(a, p), Xor(b, p)) == Xor(a, b)
  {
    XorAssociates(a, b, p);
    XorAssociates(a, p, b);
    XorCommutes(b, p);
    XorAssociates(Xor(a, p), b, p);
    XorCancels(Xor(a, b), 0, p);
  }

  lemma BitStepLinear(a: u32, b: u32)
    ensures BitStep(Xor32(a, b)) == Xor32(BitStep(a), BitStep(b))
  {
    XorBits(a, b);
    Exchange(a / 2, b / 2, POLY);
  }

  lemma BitStepTop(a: u32)
    ensures BitStep(a) >= 0x8000_0000 <==> a % 2 != 0
  {
    if a % 2 != 0 {
      var low: nat, x := 0x6DB88320, a / 2;
      Pow2Of32();
      XorBounded(x, low, 31);
      XorDisjoint(low, 1, 31);
      XorAssociates(x, low, 0x8000_0000);
      XorDisjoint(Xor(x, low), 1, 31);
    }
  }

  lemma BitStepInjective(a: u32, b: u32)
    requires BitStep(a) == BitStep(b)
    ensures a == b
  {
    BitStepTop(a);
    BitStepTop(b);
    XorCancels(a / 2, b / 2, POLY);
  }

  lemma {:induction false} StepsLinear(a: u32, b: u32, n: nat)
    ensures Steps(Xor32(a, b), n) == Xor32(Steps(a, n), Steps(b, n))
  {
    if n == 0 {
    } else {
      StepsLinear(a, b, n - 1);
      BitStepLinear(Steps(a, n - 1), Steps(b, n - 1));
    }
  }

  lemma {:induction false} StepsInjective(a: u32, b: u32, n: nat)
    requires Steps(a, n) == Steps(b, n)
    ensures a == b
  {
    if n == 0 {
    } else {
      BitStepInjective(Steps(a, n - 1), Steps(b, n - 1));
      StepsInjective(a, b, n - 1);
    }
  }

  lemma {:induction false} StepsAdd(a: u32, m: nat, n: nat)
    ensures Steps(Steps(a, m), n) == Steps(a, m + n)
  {
    if n == 0 {
    } else {
      StepsAdd(a, m, n - 1);
    }
  }

  /** Low zero bits are merely shifted out. */
  lemma {:induction false} StepsShift(x: nat, n: nat)
    requires x * Pow2(n) < 0x1_0000_0000
    ensures Steps(x * Pow2(n), n) == x
  {
    if n == 0 {
    } else {
      DoubleProduct(x, Pow2(n - 1));
      var half: u32 := x * Pow2(n - 1);
      StepsShift(x, n - 1);
      StepsAdd(2 * half, 1, n - 1);
      assert Steps(2 * half, 1) == BitStep(Steps(2 * half, 0)) == half;
    }
  }

  /** Different registers stay different under the same bytes. */
  lemma {:induction false} FoldInjectiveInRegister(c: u32, d: u32, s: bytes)
    requires Fold(c, s) == Fold(d, s)
    ensures c == d
  {
    if s == [] {
    } else {
      var front, last := s[..|s| - 1], s[|s| - 1];
      var x, y := Fold(c, front), Fold(d, front);
      StepsInjective(Xor32(x, last), Xor32(y, last), 8);
      XorCancels(x, y, last);
      FoldInjectiveInRegister(c, d, front);
    }
  }

  // ----- four bytes enter the register like one little-endian word

  lemma {:induction false} NumberInjective(v: bytes, w: bytes)
    requires |v| == |w| && Number(v) == Number(w)
    ensures v == w
  {
    if v == [] {
    } else {
      NumberInjective(v[1..], w[1..]);
      assert v == [v[0]] + v[1..] && w == [w[0]] + w[1..];
    }
  }

  lemma {:induction false} NumberFits(w: bytes)
    requires |w| <= 4
    ensures Number(w) < [1, 0x100, 0x1_0000, 0x100_0000, 0x1_0000_0000][|w|]
  {
    if w == [] {
    } else {
      NumberFits(w[1..]);
    }
  }

  /** A number met after m steps acts like one placed m bits higher at the start. */
  lemma EnterHigh(v: u32, high: nat, m: nat)
    requires high * Pow2(m) < 0x1_0000_0000
    ensures high < 0x1_0000_0000
    ensures Xor32(Steps(v, m), high) == Steps(Xor32(v, high * Pow2(m)), m)
  {
    assert high <= high * Pow2(m);
    StepsShift(high, m);
    StepsLinear(v, high * Pow2(m), m);
  }

  lemma {:induction false} FoldNumber(c: u32, w: bytes)
    requires Number(w) < 0x1_0000_0000
    ensures Fold(c, w) == Steps(Xor32(c, Number(w)), 8 * |w|)
    decreases |w|
  {
    hide BitStep;
    if w == [] {
      XorCommutes(c, 0);
    } else {
      FoldFirst(c, w);
      FoldNumber(ByteStep(c, w[0]), w[1..]);
      EnterAbove(c, w[0], Number(w[1..]));
      StepsAdd(Xor32(c, Number(w)), 8, 8 * (|w| - 1));
    }
  }

  lemma EnterAbove(c: u32, b: u8, high: nat)
    requires b + 256 * high < 0x1_0000_0000
    ensures Xor32(ByteStep(c, b), high) == Steps(Xor32(c, b + 256 * high), 8)
  {
    hide Steps;
    Pow2Of32();
    EnterHigh(Xor32(c, b), high, 8);
    XorAssociates(c, b, high * 256);
    XorDisjoint(b, high, 8);
  }

  lemma FoldFirst(c: u32, s: bytes)
    requires s != []
    ensures Fold(c, s) == Fold(ByteStep(c, s[0]), s[1..])
  {
    FoldAppend(c, [s[0]], s[1..]);
    assert [s[0]] + s[1..] == s;
    assert [s[0]][..0] == [];
    assert Fold(c, [s[0]]) == ByteStep(Fold(c, []), s[0]);
  }

  lemma WindowInjective(c: u32, v: bytes, w: bytes)
    requires |v| == |w| <= 4
    requires Fold(c, v) == Fold(c, w)
    ensures v == w
  {
    NumberFits(v);
    NumberFits(w);
    FoldNumber(c, v);
    FoldNumber(c, w);
    StepsInjective(Xor32(c, Number(v)), Xor32(c, Number(w)), 8 * |v|);
    XorCommutes(c, Number(v));
    XorCommutes(c, Number(w));
    XorCancels(Number(v), Number(w), c);
    NumberInjective(v, w);
  }

  /** s and t agree everywhere except, possibly, in the four bytes from i on. */
  ghost predicate SameOutsideWindow(s: bytes, t: bytes, i: nat) {
    && |s| == |t|
    && forall k :: 0 <= k < |s| && !(i <= k < i + 4) ==> s[k] == t[k]
  }

  /** Any damage confined to four consecutive bytes changes the checksum. */
  lemma BurstDetected(s: bytes, t: bytes, i: nat)
    requires SameOutsideWindow(s, t, i)
    requires s != t
    ensures Crc32(s) != Crc32(t)
  {
    var lo := if i < |s| then i else |s|;
    var hi := if i + 4 < |s| then i + 4 else |s|;
    var front, back := s[..lo], s[hi..];
    assert s == front + s[lo..hi] + back;
    assert t == front + t[lo..hi] + back by {
      assert t[..lo] == front && t[hi..] == back;
    }
    if Crc32(s) == Crc32(t) {
      MiddleInjective(front, s[lo..hi], t[lo..hi], back);
    }
  }

  lemma MiddleInjective(front: bytes, v: bytes, w: bytes, back: bytes)
    requires |v| == |w| <= 4
    requires Crc32(front + v + back) == Crc32(front + w + back)
    ensures v == w
  {
    XorCancels(Fold(SEED, front + v + back), Fold(SEED, front + w + back), 0xFFFF_FFFF);
    FoldAppend(SEED, front + v, back);
    FoldAppend(SEED, front + w, back);
    FoldInjectiveInRegister(Fold(SEED, front + v), Fold(SEED, front + w), back);
    FoldAppend(SEED, front, v);
    FoldAppend(SEED, front, w);
    WindowInjective(Fold(SEED, front), v, w);
  }
}
