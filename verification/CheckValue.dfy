// Concrete values of the checksum. Registers are computed on machine words, whose
// bits are then weighed as numbers.

module CheckValue {
  import opened Words
  import opened Crc

  /** The number a word stands for. */
  function Value(v: bv32): nat {
    if v == 0 then 0 else LowBit(v) + 2 * Value(v >> 1)
  }

  function LowBit(v: bv32): nat {
    if v & 1 == 1 then 1 else 0
  }

  lemma ValueHalves(v: bv32)
    ensures Value(v) == LowBit(v) + 2 * Value(v >> 1) && LowBit(v) <= 1
  {
  }

  lemma {:induction false} ValuePositive(v: bv32)
    requires v != 0
    ensures Value(v) > 0
    decreases v
  {
    if LowBit(v) == 1 {
    } else {
      ValuePositive(v >> 1);
    }
  }

  lemma XorShifts(v: bv32, w: bv32)
    ensures (v ^ w) >> 1 == (v >> 1) ^ (w >> 1)
    ensures LowBit(v ^ w) == if LowBit(v) == LowBit(w) then 0 else 1
    ensures v == 0 && w == 0 ==> v ^ w == 0
  {
  }

  lemma JoinBits(x: nat, y: nat, z: nat, dx: nat, dy: nat, hx: nat, hy: nat)
    requires dx <= 1 && dy <= 1 && x == dx + 2 * hx && y == dy + 2 * hy
    requires z == (if dx == dy then 0 else 1) + 2 * Xor(hx, hy)
    ensures z == Xor(x, y)
  {
    hide Xor;
    XorBits(x, y);
    Halves(dx, hx);
    Halves(dy, hy);
  }

  lemma {:induction false} ValueXor(v: bv32, w: bv32)
    ensures Value(v ^ w) == Xor(Value(v), Value(w))
    decreases Value(v) + Value(w)
  {
    if v == 0 && w == 0 {
      XorShifts(v, w);
    } else {
      if v != 0 {
        ValuePositive(v);
      } else {
        ValuePositive(w);
      }
      hide Value, Xor, LowBit;
      ValueHalves(v);
      ValueHalves(w);
      ValueHalves(v ^ w);
      XorShifts(v, w);
      ValueXor(v >> 1, w >> 1);
      JoinBits(Value(v), Value(w), Value(v ^ w), LowBit(v), LowBit(w), Value(v >> 1), Value(w >> 1));
    }
  }

  /** The weight of the lowest two bits, and so on. */
  function LowPair(v: bv32): (n: nat)
    ensures n < 4
  {
    LowBit(v) + 2 * LowBit(v >> 1)
  }

  lemma ValuePair(v: bv32)
    ensures Value(v) == LowPair(v) + 4 * Value(v >> 2)
  {
    hide Value, LowBit;
    assert (v >> 1) >> 1 == v >> 2;
    ValueHalves(v);
    ValueHalves(v >> 1);
  }

  function LowNibble(v: bv32): (n: nat)
    ensures n < 0x10
  {
    LowPair(v) + 0x4 * LowPair(v >> 2)
  }

  lemma ValueNibble(v: bv32)
    ensures Value(v) == LowNibble(v) + 0x10 * Value(v >> 4)
  {
    hide Value, LowPair;
    assert (v >> 2) >> 2 == v >> 4;
    ValuePair(v);
    ValuePair(v >> 2);
  }

  function LowValue(v: bv32): (n: nat)
    ensures n < 0x100
  {
    LowNibble(v) + 0x10 * LowNibble(v >> 4)
  }

  lemma ValueByte(v: bv32)
    ensures Value(v) == LowValue(v) + 0x100 * Value(v >> 8)
  {
    hide Value, LowNibble;
    assert (v >> 4) >> 4 == v >> 8;
    ValueNibble(v);
    ValueNibble(v >> 4);
  }

  function LowHalf(v: bv32): (n: nat)
    ensures n < 0x10000
  {
    LowValue(v) + 0x100 * LowValue(v >> 8)
  }

  lemma ValueHalf(v: bv32)
    ensures Value(v) == LowHalf(v) + 0x10000 * Value(v >> 16)
  {
    hide Value, LowValue;
    assert (v >> 8) >> 8 == v >> 16;
    ValueByte(v);
    ValueByte(v >> 8);
  }

  /** The value of a word, told by its four bytes. */
  lemma ValueOfBytes(v: bv32)
    ensures Value(v) == LowHalf(v) + 0x1_0000 * LowHalf(v >> 16)
  {
    hide Value, LowHalf;
    ValueHalf(v);
    ValueHalf(v >> 16);
    assert (v >> 16) >> 16 == 0;
    ValueOfZero();
  }

  lemma ValueOfZero()
    ensures Value(0) == 0
  {
  }

  lemma ValueFits(v: bv32)
    ensures Value(v) < 0x1_0000_0000
  {
    hide Value, LowHalf;
    ValueOfBytes(v);
  }

  // ----- the register on machine words

  function WordStep(v: bv32): bv32 {
    if LowBit(v) == 1 then (v >> 1) ^ 0xEDB88320 else v >> 1
  }

  function WordSteps(v: bv32, n: nat): bv32 {
    if n == 0 then v else WordStep(WordSteps(v, n - 1))
  }

  lemma ValueOfPoly()
    ensures Value(0xEDB88320) == 0xEDB88320
  {
    hide Value;
    ValueOfBytes(0xEDB88320);
  }

  lemma ValueOfOnes()
    ensures Value(0xFFFF_FFFF) == 0xFFFF_FFFF
  {
    hide Value;
    ValueOfBytes(0xFFFF_FFFF);
  }

  lemma ValueOfCheck()
    ensures Value(0xCBF43926) == 0xCBF43926
  {
    hide Value;
    ValueOfBytes(0xCBF43926);
  }

  lemma ValueOfResidue()
    ensures Value(0xDEBB20E3) == 0xDEBB20E3
  {
    hide Value;
    ValueOfBytes(0xDEBB20E3);
  }

  lemma WordStepIsBitStep(v: bv32)
    ensures Value(v) < 0x1_0000_0000 && BitStep(Value(v)) == Value(WordStep(v))
  {
    hide Value, Xor;
    ValueFits(v);
    ValueHalves(v);
    ValueOfPoly();
    ValueXor(v >> 1, 0xEDB88320);
  }

  lemma {:induction false} WordStepsAreSteps(v: bv32, n: nat)
    ensures Value(v) < 0x1_0000_0000 && Steps(Value(v), n) == Value(WordSteps(v, n))
  {
    hide Value, BitStep, WordStep;
    ValueFits(v);
    if n == 0 {
    } else {
      WordStepsAreSteps(v, n - 1);
      WordStepIsBitStep(WordSteps(v, n - 1));
    }
  }

  /** One byte entering a register. */
  lemma WordByte(v: bv32, b: bv32)
    requires b < 0x100
    ensures Value(v) < 0x1_0000_0000 && Value(b) < 0x100
    ensures ByteStep(Value(v), Value(b)) == Value(WordSteps(v ^ b, 8))
  {
    hide Value, Xor, Steps, WordSteps;
    ValueFits(v);
    SmallValue(b);
    ValueXor(v, b);
    WordStepsAreSteps(v ^ b, 8);
  }

  lemma SmallValue(b: bv32)
    requires b < 0x100
    ensures Value(b) == LowValue(b) < 0x100
  {
    hide Value;
    ValueByte(b);
    assert b >> 8 == 0;
    ValueOfZero();
  }

  // ----- the check value and the residue

  /** The register after one more character, on machine words. */
  lemma OneMore(s: bytes, t: bytes, b: u8, v: bv32, w: bv32, next: bv32)
    requires t == s + [b] && w < 0x100 && LowValue(w) == b
    requires Fold(SEED, s) == Value(v) && WordSteps(v ^ w, 8) == next
    ensures Fold(SEED, t) == Value(next)
  {
    hide Value, Steps, WordSteps, LowValue;
    WordByte(v, w);
    SmallValue(w);
    assert t[..|s|] == s;
  }

  /** The check value of this checksum: that of the text 123456789. */
  lemma CheckValue()
    ensures Crc32([0x31, 0x32, 0x33, 0x34, 0x35, 0x36, 0x37, 0x38, 0x39]) == 0xCBF43926
  {
    hide Value, Fold, WordSteps;
    ValueOfOnes();
    ValueOfCheck();
    NothingFolded();
    CheckRegisters();
    OneMore([], [0x31], 0x31, 0xFFFFFFFF, 0x31, 0x7C231048);
    OneMore([0x31], [0x31, 0x32], 0x32, 0x7C231048, 0x32, 0xB0ACBB32);
    OneMore([0x31, 0x32], [0x31, 0x32, 0x33], 0x33, 0xB0ACBB32, 0x33, 0x77B79C2D);
    OneMore([0x31, 0x32, 0x33], [0x31, 0x32, 0x33, 0x34], 0x34, 0x77B79C2D, 0x34, 0x641C1F5C);
    OneMore([0x31, 0x32, 0x33, 0x34], [0x31, 0x32, 0x33, 0x34, 0x35], 0x35, 0x641C1F5C, 0x35, 0x340AC5E3);
    OneMore([0x31, 0x32, 0x33, 0x34, 0x35], [0x31, 0x32, 0x33, 0x34, 0x35, 0x36], 0x36, 0x340AC5E3, 0x36, 0xF68D2C9E);
    OneMore([0x31, 0x32, 0x33, 0x34, 0x35, 0x36], [0x31, 0x32, 0x33, 0x34, 0x35, 0x36, 0x37], 0x37, 0xF68D2C9E, 0x37, 0xAFFC9660);
    OneMore([0x31, 0x32, 0x33, 0x34, 0x35, 0x36, 0x37], [0x31, 0x32, 0x33, 0x34, 0x35, 0x36, 0x37, 0x38], 0x38, 0xAFFC9660, 0x38, 0x651F2550);
    OneMore([0x31, 0x32, 0x33, 0x34, 0x35, 0x36, 0x37, 0x38], [0x31, 0x32, 0x33, 0x34, 0x35, 0x36, 0x37, 0x38, 0x39], 0x39, 0x651F2550, 0x39, 0x340BC6D9);
    ValueXor(0x340BC6D9, 0xFFFF_FFFF);
  }

  lemma NothingFolded()
    ensures Fold(SEED, []) == 0xFFFF_FFFF
  {
  }

  /** The registers on the way through that text. */
  lemma CheckRegisters()
    ensures WordSteps(0xFFFFFFFF ^ 0x31, 8) == 0x7C231048
    ensures WordSteps(0x7C231048 ^ 0x32, 8) == 0xB0ACBB32
    ensures WordSteps(0xB0ACBB32 ^ 0x33, 8) == 0x77B79C2D
    ensures WordSteps(0x77B79C2D ^ 0x34, 8) == 0x641C1F5C
    ensures WordSteps(0x641C1F5C ^ 0x35, 8) == 0x340AC5E3
    ensures WordSteps(0x340AC5E3 ^ 0x36, 8) == 0xF68D2C9E
    ensures WordSteps(0xF68D2C9E ^ 0x37, 8) == 0xAFFC9660
    ensures WordSteps(0xAFFC9660 ^ 0x38, 8) == 0x651F2550
    ensures WordSteps(0x651F2550 ^ 0x39, 8) == 0x340BC6D9
  {
  }

  /** Any text followed by its own checksum leaves the same register. */
  lemma Residue(s: bytes)
    ensures Fold(SEED, s + U32Bytes(Crc32(s))) == 0xDEBB20E3
  {
    hide Fold, Steps, Xor, U32Bytes;
    var r := Fold(SEED, s);
    FoldAppend(SEED, s, U32Bytes(Crc32(s)));
    ChecksumNumber(Crc32(s));
    FoldNumber(r, U32Bytes(Crc32(s)));
    Complement(r);
    ResidueSteps();
  }

  lemma ChecksumNumber(v: u32)
    ensures |U32Bytes(v)| == 4 && Number(U32Bytes(v)) == v
  {
    U32RoundTrip(v);
    assert U32Bytes(v)[0..4] == U32Bytes(v);
  }

  lemma Complement(r: u32)
    ensures Xor32(r, Finalize(r)) == 0xFFFF_FFFF
  {
    XorAssociates(r, r, 0xFFFF_FFFF);
    XorSelf(r);
  }

  lemma ResidueSteps()
    ensures Steps(0xFFFF_FFFF, 32) == 0xDEBB20E3
  {
    hide Value, WordSteps, Steps;
    ValueOfOnes();
    ValueOfResidue();
    WordStepsAreSteps(0xFFFF_FFFF, 32);
    ResidueWord();
  }

  lemma ResidueWord()
    ensures WordSteps(0xFFFF_FFFF, 32) == 0xDEBB20E3
  {
    assert WordSteps(0xFFFF_FFFF, 4) == 0xB2420DE3;
    assert WordSteps(0xFFFF_FFFF, 8) == 0x2DFD1072;
    assert WordSteps(0xFFFF_FFFF, 12) == 0x39B1F1CF;
    assert WordSteps(0xFFFF_FFFF, 16) == 0xBE26ED00;
    assert WordSteps(0xFFFF_FFFF, 20) == 0xBE26ED0;
    assert WordSteps(0xFFFF_FFFF, 24) == 0xBE26ED;
    assert WordSteps(0xFFFF_FFFF, 28) == 0x86D830BA;
    assert WordSteps(0xFFFF_FFFF, 32) == 0xDEBB20E3;
  }
}
