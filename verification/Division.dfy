// The checksum as the remainder of a division: polynomials over two elements as
// lists of coefficients, divided the way one does on paper.

module Division {
  import opened Words
  import opened Crc

  /** Coefficients, that of the highest power first. */
  type Poly = seq<bool>

  /** The powers below 32 of the generator, whose degree is 32. */
  predicate InGenerator(power: int) {
    || power == 26 || power == 23 || power == 22 || power == 16 || power == 12 || power == 11 || power == 10
    || power == 8 || power == 7 || power == 5 || power == 4 || power == 2 || power == 1 || power == 0
  }

  function GeneratorTail(): (p: Poly)
    ensures |p| == 32
  {
    seq(32, i => InGenerator(31 - i))
  }

  /** Adds b to the highest coefficients of a. */
  function PlusFront(a: Poly, b: Poly): (r: Poly)
    requires |b| <= |a|
    ensures |r| == |a|
  {
    seq(|a|, i requires 0 <= i < |a| => if i < |b| then a[i] != b[i] else a[i])
  }

  /** Long division: cancel the leading coefficient until the degree is below 32. */
  function Remainder(m: Poly): (r: Poly)
    ensures |r| == if |m| <= 32 then |m| else 32
    decreases |m|
  {
    if |m| <= 32 then m
    else Remainder(if m[0] then PlusFront(m[1..], GeneratorTail()) else m[1..])
  }

  function Same(n: nat, b: bool): (p: Poly)
    ensures |p| == n
  {
    seq(n, _ => b)
  }

  /** The n low bits of v, the lowest first. */
  function BitsOf(v: nat, n: nat): (p: Poly)
    ensures |p| == n
  {
    if n == 0 then [] else [v % 2 != 0] + BitsOf(v / 2, n - 1)
  }

  /** A message as a polynomial: byte after byte, each from its lowest bit on. */
  function MessageBits(s: bytes): (p: Poly)
    ensures |p| == 8 * |s|
  {
    if s == [] then [] else BitsOf(s[0], 8) + MessageBits(s[1..])
  }

  // ----- bits of words

  lemma {:induction false} BitsXor(a: nat, b: nat, n: nat)
    ensures BitsOf(Xor(a, b), n) == PlusFront(BitsOf(a, n), BitsOf(b, n))
  {
    if n == 0 {
    } else {
      hide Xor, PlusFront;
      XorBits(a, b);
      BitsXor(a / 2, b / 2, n - 1);
      PlusFrontStep(a % 2 != 0, BitsOf(a / 2, n - 1), b % 2 != 0, BitsOf(b / 2, n - 1));
    }
  }

  lemma PlusFrontStep(x: bool, a: Poly, y: bool, b: Poly)
    requires |b| <= |a|
    ensures PlusFront([x] + a, [y] + b) == [x != y] + PlusFront(a, b)
  {
  }

  lemma {:induction false} BitsTop(v: nat, n: nat)
    requires v < Pow2(n)
    ensures BitsOf(v, n + 1) == BitsOf(v, n) + [false]
  {
    if n == 0 {
      assert v == 0;
      assert BitsOf(0, 1) == [false] + BitsOf(0, 0);
    } else {
      BitsTop(v / 2, n - 1);
    }
  }

  lemma HalfBits(v: u32)
    ensures BitsOf(v / 2, 32) == BitsOf(v, 32)[1..] + [false]
  {
    Pow2Of32();
    assert Pow2(32) == 2 * Pow2(31);
    BitsTop(v / 2, 31);
  }

  lemma {:induction false} BitsDetermine(a: nat, b: nat, n: nat)
    requires a < Pow2(n) && b < Pow2(n) && BitsOf(a, n) == BitsOf(b, n)
    ensures a == b
  {
    if n == 0 {
    } else {
      assert BitsOf(a, n)[0] == BitsOf(b, n)[0] && BitsOf(a, n)[1..] == BitsOf(b, n)[1..];
      BitsDetermine(a / 2, b / 2, n - 1);
    }
  }

  // ----- one step of the division is one step of the register

  function Bit(b: bool): u32 {
    if b then 1 else 0
  }

  /** The register after more bits, one at a time. */
  function Feed(c: u32, m: Poly): u32
    decreases |m|
  {
    if m == [] then c else Feed(BitStep(Xor32(c, Bit(m[0]))), m[1..])
  }

  lemma BitEnters(c: u32, b: bool)
    ensures Xor32(c, Bit(b)) / 2 == c / 2
    ensures Xor32(c, Bit(b)) % 2 != 0 <==> ((c % 2 != 0) != b)
  {
    hide Xor;
    XorBits(c, Bit(b));
    XorCommutes(c / 2, 0);
    XorZero(c / 2);
  }

  lemma XorZero(a: nat)
    ensures Xor(0, a) == a
  {
  }

  lemma DivisionStep(m: Poly, c: u32)
    requires |m| > 32
    ensures
      var next := BitStep(Xor32(c, Bit(m[0])));
      Remainder(PlusFront(m, BitsOf(c, 32))) == Remainder(PlusFront(m[1..], BitsOf(next, 32)))
  {
    var d := Xor32(c, Bit(m[0]));
    var top, x := PlusFront(m, BitsOf(c, 32)), PlusFront(m[1..], BitsOf(c / 2, 32));
    BitEnters(c, m[0]);
    hide Xor32;
    FirstBit(c);
    HalfBits(c);
    assert top[1..] == x by {
      hide BitsOf;
    }
    if d % 2 != 0 {
      GeneratorBits();
      BitsXor(c / 2, POLY, 32);
      PlusTwice(m[1..], BitsOf(c / 2, 32), GeneratorTail());
    }
  }

  lemma FirstBit(c: nat)
    ensures BitsOf(c, 32)[0] == (c % 2 != 0)
  {
  }

  lemma PlusTwice(a: Poly, b: Poly, c: Poly)
    requires |b| == |c| <= |a|
    ensures PlusFront(PlusFront(a, b), c) == PlusFront(a, PlusFront(b, c))
  {
  }

  /** The bits of v are the last n coefficients of the generator. */
  ghost predicate TailBits(v: nat, n: nat) {
    n <= 32 && BitsOf(v, n) == GeneratorTail()[32 - n..]
  }

  lemma TailBit(v: nat, half: nat, n: nat)
    requires n < 32 && v == 2 * half + if InGenerator(n) then 1 else 0
    requires TailBits(half, n)
    ensures TailBits(v, n + 1)
  {
    assert GeneratorTail()[31 - n..] == [InGenerator(n)] + GeneratorTail()[32 - n..];
  }

  lemma NoBits()
    ensures TailBits(0, 0)
  {
  }

  lemma HighestBits4()
    ensures TailBits(0xE, 4)
  {
    hide TailBits, BitsOf, GeneratorTail;
    NoBits();
    TailBit(0x1, 0x0, 0);
    TailBit(0x3, 0x1, 1);
    TailBit(0x7, 0x3, 2);
    TailBit(0xE, 0x7, 3);
  }

  lemma HighestBits8()
    ensures TailBits(0xED, 8)
  {
    hide TailBits, BitsOf, GeneratorTail;
    HighestBits4();
    TailBit(0x1D, 0xE, 4);
    TailBit(0x3B, 0x1D, 5);
    TailBit(0x76, 0x3B, 6);
    TailBit(0xED, 0x76, 7);
  }

  lemma HighestBits12()
    ensures TailBits(0xEDB, 12)
  {
    hide TailBits, BitsOf, GeneratorTail;
    HighestBits8();
    TailBit(0x1DB, 0xED, 8);
    TailBit(0x3B6, 0x1DB, 9);
    TailBit(0x76D, 0x3B6, 10);
    TailBit(0xEDB, 0x76D, 11);
  }

  lemma HighestBits16()
    ensures TailBits(0xEDB8, 16)
  {
    hide TailBits, BitsOf, GeneratorTail;
    HighestBits12();
    TailBit(0x1DB7, 0xEDB, 12);
    TailBit(0x3B6E, 0x1DB7, 13);
    TailBit(0x76DC, 0x3B6E, 14);
    TailBit(0xEDB8, 0x76DC, 15);
  }

  lemma HighestBits20()
    ensures TailBits(0xEDB88, 20)
  {
    hide TailBits, BitsOf, GeneratorTail;
    HighestBits16();
    TailBit(0x1DB71, 0xEDB8, 16);
    TailBit(0x3B6E2, 0x1DB71, 17);
    TailBit(0x76DC4, 0x3B6E2, 18);
    TailBit(0xEDB88, 0x76DC4, 19);
  }

  lemma HighestBits24()
    ensures TailBits(0xEDB883, 24)
  {
    hide TailBits, BitsOf, GeneratorTail;
    HighestBits20();
    TailBit(0x1DB710, 0xEDB88, 20);
    TailBit(0x3B6E20, 0x1DB710, 21);
    TailBit(0x76DC41, 0x3B6E20, 22);
    TailBit(0xEDB883, 0x76DC41, 23);
  }

  lemma HighestBits28()
    ensures TailBits(0xEDB8832, 28)
  {
    hide TailBits, BitsOf, GeneratorTail;
    HighestBits24();
    TailBit(0x1DB7106, 0xEDB883, 24);
    TailBit(0x3B6E20C, 0x1DB7106, 25);
    TailBit(0x76DC419, 0x3B6E20C, 26);
    TailBit(0xEDB8832, 0x76DC419, 27);
  }

  lemma HighestBits32()
    ensures TailBits(0xEDB88320, 32)
  {
    hide TailBits, BitsOf, GeneratorTail;
    HighestBits28();
    TailBit(0x1DB71064, 0xEDB8832, 28);
    TailBit(0x3B6E20C8, 0x1DB71064, 29);
    TailBit(0x76DC4190, 0x3B6E20C8, 30);
    TailBit(0xEDB88320, 0x76DC4190, 31);
  }

  /** The constant of the register is the generator, lowest bit highest power. */
  lemma GeneratorBits()
    ensures BitsOf(POLY, 32) == GeneratorTail()
  {
    hide BitsOf, GeneratorTail;
    HighestBits32();
    assert GeneratorTail()[0..] == GeneratorTail();
  }

  lemma {:induction false} RemainderFeeds(m: Poly, c: u32)
    ensures Remainder(PlusFront(m + Same(32, false), BitsOf(c, 32))) == BitsOf(Feed(c, m), 32)
    decreases |m|
  {
    hide BitsOf, BitStep, Xor32;
    if m == [] {
      assert PlusFront(m + Same(32, false), BitsOf(c, 32)) == BitsOf(c, 32);
    } else {
      DivisionStep(m + Same(32, false), c);
      assert (m + Same(32, false))[1..] == m[1..] + Same(32, false);
      RemainderFeeds(m[1..], BitStep(Xor32(c, Bit(m[0]))));
    }
  }

  // ----- a byte is fed bit by bit

  lemma {:induction false} FeedNumber(c: u32, b: nat, n: nat)
    requires b < Pow2(n) && b < 0x1_0000_0000
    ensures Feed(c, BitsOf(b, n)) == Steps(Xor32(c, b), n)
    decreases n
  {
    if n == 0 {
      XorCommutes(c, 0);
      XorZero(c);
    } else {
      var low := b % 2 != 0;
      LowBitFirst(c, b);
      FeedNumber(BitStep(Xor32(c, Bit(low))), b / 2, n - 1);
      StepsAdd(Xor32(c, b), 1, n - 1);
      assert Steps(Xor32(c, b), 1) == BitStep(Steps(Xor32(c, b), 0));
      assert BitsOf(b, n)[1..] == BitsOf(b / 2, n - 1);
    }
  }

  lemma LowBitFirst(c: u32, b: u32)
    ensures BitStep(Xor32(c, b)) == Xor32(BitStep(Xor32(c, Bit(b % 2 != 0))), b / 2)
  {
    var low := Bit(b % 2 != 0);
    hide Xor, BitStep;
    XorDisjointBit(low, b / 2);
    XorAssociates(c, low, 2 * (b / 2));
    BitStepLinear(Xor32(c, low), 2 * (b / 2));
    assert BitStep(2 * (b / 2)) == b / 2 by {
      EvenStep(b / 2);
    }
  }

  lemma EvenStep(h: nat)
    requires 2 * h < 0x1_0000_0000
    ensures BitStep(2 * h) == h
  {
  }

  lemma XorDisjointBit(low: nat, high: nat)
    requires low < 2
    ensures Xor(low, 2 * high) == low + 2 * high
  {
    hide Xor;
    assert Pow2(1) == 2;
    XorDisjoint(low, high, 1);
  }

  lemma {:induction false} FeedAppend(c: u32, a: Poly, b: Poly)
    ensures Feed(c, a + b) == Feed(Feed(c, a), b)
    decreases |a|
  {
    hide BitStep, Xor32;
    if a == [] {
      assert a + b == b;
    } else {
      assert (a + b)[1..] == a[1..] + b;
      FeedAppend(BitStep(Xor32(c, Bit(a[0]))), a[1..], b);
    }
  }

  lemma {:induction false} FeedMessage(c: u32, s: bytes)
    ensures Feed(c, MessageBits(s)) == Fold(c, s)
    decreases |s|
  {
    hide Feed, BitsOf, Steps, Xor32;
    if s == [] {
      NothingFed(c);
    } else {
      FoldFirst(c, s);
      FeedAppend(c, BitsOf(s[0], 8), MessageBits(s[1..]));
      Pow2Of32();
      FeedNumber(c, s[0], 8);
      FeedMessage(ByteStep(c, s[0]), s[1..]);
    }
  }

  lemma NothingFed(c: u32)
    ensures Feed(c, []) == c
  {
  }

  // ----- the checksum

  /** The checksum of a message is the complement of the remainder, on division by
      the generator, of the message followed by 32 zeros, its first 32
      coefficients complemented. */
  lemma ChecksumIsRemainder(s: bytes)
    ensures BitsOf(Crc32(s), 32)
         == PlusFront(Remainder(PlusFront(MessageBits(s) + Same(32, false), Same(32, true))), Same(32, true))
  {
    hide Fold, Remainder, Xor, Feed;
    Pow2Of32();
    AllOnes(32);
    RemainderFeeds(MessageBits(s), SEED);
    FeedMessage(SEED, s);
    BitsXor(Fold(SEED, s), 0xFFFF_FFFF, 32);
  }

  lemma {:induction false} AllOnes(n: nat)
    ensures BitsOf(Pow2(n) - 1, n) == Same(n, true)
  {
    if n == 0 {
    } else {
      AllOnes(n - 1);
      assert (Pow2(n) - 1) / 2 == Pow2(n - 1) - 1 && (Pow2(n) - 1) % 2 == 1;
    }
  }

  /** And these bits are the checksum. */
  lemma ChecksumFromBits(s: bytes, v: u32)
    ensures BitsOf(v, 32) == BitsOf(Crc32(s), 32) <==> v == Crc32(s)
  {
    Pow2Of32();
    if BitsOf(v, 32) == BitsOf(Crc32(s), 32) {
      BitsDetermine(v, Crc32(s), 32);
    }
  }
}
