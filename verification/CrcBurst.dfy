/**
 Bursts of 32 consecutive bits against the CRC-32 of the W3C PNG Specification (Second
 Edition), Annex D. The bits of a byte are sent least significant first, so a burst that
 starts at bit `j` of a byte ends below bit `j` of the fourth byte after it.
 */
module CrcBurst {
  import opened Bytes
  import opened Crc32
  import Words

  // ----- the low bits of a word

  /** The low `j` bits. */
  function Low(j: nat): bv32
    requires j <= 8
  {
    if j == 0 then 0 else if j == 1 then 0x1 else if j == 2 then 0x3 else if j == 3 then 0x7 else if j == 4 then 0xF
    else if j == 5 then 0x1F else if j == 6 then 0x3F else if j == 7 then 0x7F else 0xFF
  }

  function Down(x: bv32, j: nat): bv32
    requires j <= 8
  {
    if j == 0 then x else if j == 1 then x >> 1 else if j == 2 then x >> 2 else if j == 3 then x >> 3 else if j == 4 then x >> 4
    else if j == 5 then x >> 5 else if j == 6 then x >> 6 else if j == 7 then x >> 7 else x >> 8
  }

  function Up(x: bv32, j: nat): bv32
    requires j <= 8
  {
    if j == 0 then x else if j == 1 then x << 1 else if j == 2 then x << 2 else if j == 3 then x << 3 else if j == 4 then x << 4
    else if j == 5 then x << 5 else if j == 6 then x << 6 else if j == 7 then x << 7 else x << 8
  }

  function And(x: bv32, y: bv32): bv32 { x & y }

  lemma DownOnce(x: bv32, j: nat)
    requires 0 < j <= 8 && And(x, Low(j)) == 0
    ensures x & 1 == 0 && And(x >> 1, Low(j - 1)) == 0 && Down(x >> 1, j - 1) == Down(x, j)
  {
  }

  /** While the low bits are zero, steps only shift. */
  lemma {:induction false} ZeroBitsShift(x: bv32, j: nat)
    requires j <= 8 && And(x, Low(j)) == 0
    ensures Steps(x, j) == Down(x, j)
    decreases j
  {
    if j > 0 {
      DownOnce(x, j);
      ZeroLowBitShifts(x);
      ZeroBitsShift(x >> 1, j - 1);
    }
  }

  lemma ThreeBytesUp(f: bv32)
    requires And(f, 0xFF) == f
    ensures And(f << 24, 0xFF) == 0 && DropLowByte(f << 24) == f << 16
    ensures And(f << 16, 0xFF) == 0 && DropLowByte(f << 16) == f << 8
    ensures And(f << 8, 0xFF) == 0 && DropLowByte(f << 8) == f
  {
  }

  lemma SinksThreeBytes(f: bv32)
    requires And(f, 0xFF) == f
    ensures Steps(f << 24, 24) == f
  {
    ThreeBytesUp(f);
    ZeroLowBitsShift(f << 24);
    ZeroLowBitsShift(f << 16);
    ZeroLowBitsShift(f << 8);
    StepsCompose(f << 24, 8, 16);
    StepsCompose(f << 16, 8, 8);
  }

  lemma UpFits(e: bv8, j: nat)
    requires j <= 8 && And(e as bv32, Low(j)) == e as bv32
    ensures And(Up(e as bv32, 8 - j), 0xFF) == Up(e as bv32, 8 - j)
  {
  }

  lemma UpComesDown(e: bv8, j: nat)
    requires j <= 8
    ensures Down(Up(e as bv32, 8 - j), 8 - j) == e as bv32
  {
  }

  lemma UpLeavesZeros(e: bv8, k: nat)
    requires k <= 8
    ensures And(Up(e as bv32, k), Low(k)) == 0
  {
  }

  lemma TopAndBottom(x: bv32, e: bv32, j: nat)
    requires j <= 8 && And(x, Low(j)) == 0 && And(e, Low(j)) == e && Down(x, j) == Up(e, 8 - j) << 24
    ensures x == 0 && e == 0
  {
  }

  /** A burst is the difference `x` in four bytes and `d` in the fifth; they leave the register only when both are zero. */
  lemma BurstIsZero(x: bv32, d: bv8, j: nat)
    requires j <= 8 && And(x, Low(j)) == 0 && And(d as bv32, Low(j)) == d as bv32 && Steps(x, 32) == d as bv32
    ensures x == 0 && d as bv32 == 0
  {
    hide And, Low, Down, Up, Steps;
    var f := Up(d as bv32, 8 - j);
    ZeroBitsShift(x, j);
    StepsCompose(x, j, 32 - j);
    UpFits(d, j);
    UpComesDown(d, j);
    UpLeavesZeros(d, 8 - j);
    SinksThreeBytes(f);
    ZeroBitsShift(f, 8 - j);
    StepsCompose(f << 24, 24, 8 - j);
    StepsAreInjective(Down(x, j), f << 24, 32 - j);
    TopAndBottom(x, d as bv32, j);
  }

  function Xor8(a: bv8, b: bv8): bv8 { a ^ b }

  /** The difference of two bytes. */
  function Difference(a: Byte, b: Byte): bv8 { Xor8(Words.Narrow(a), Words.Narrow(b)) }

  lemma DifferenceIsXor(a: Byte, b: Byte)
    ensures Difference(a, b) as bv32 == Xor(Widen(a), Widen(b))
  {
    hide Xor, Xor8, Words.Narrow;
    NarrowXor(Words.Narrow(a), Words.Narrow(b));
  }

  lemma NarrowXor(a: bv8, b: bv8)
    ensures Xor8(a, b) as bv32 == Xor(a as bv32, b as bv32)
  {
  }

  // ----- bursts in messages

  predicate SameBitsBelow(a: Byte, b: Byte, j: nat)
    requires j <= 8
  {
    And(Widen(a), Low(j)) == And(Widen(b), Low(j))
  }

  predicate SameBitsFrom(a: Byte, b: Byte, j: nat)
    requires j <= 8
  {
    Down(Widen(a), j) == Down(Widen(b), j)
  }

  /** Five bytes that agree outside the 32 bits from bit `j` of the first to bit `j` of the last. */
  predicate IsBurst(v: Buffer, w: Buffer, j: nat)
    requires |v| == |w| == 5 && j <= 8
  {
    SameBitsBelow(v[0], w[0], j) && SameBitsFrom(v[4], w[4], j)
  }

  lemma BelowIsZero(x: bv32, y: bv32, a: Byte, b: Byte, j: nat)
    requires j <= 8 && And(x, 0xFF) == Widen(a) && And(y, 0xFF) == Widen(b) && SameBitsBelow(a, b, j)
    ensures And(Xor(x, y), Low(j)) == 0
  {
    hide And, Xor, Low, Widen;
    MaskByte(x, y);
    LowOfByte(Xor(x, y), j);
    BytesBelow(a, b, j);
  }

  lemma MaskByte(x: bv32, y: bv32)
    ensures And(Xor(x, y), 0xFF) == Xor(And(x, 0xFF), And(y, 0xFF))
  {
    MaskXor(x, y);
  }

  lemma BytesBelow(a: Byte, b: Byte, j: nat)
    requires j <= 8 && SameBitsBelow(a, b, j)
    ensures And(Xor(Widen(a), Widen(b)), Low(j)) == 0
  {
    BelowMeans(Words.Narrow(a), Words.Narrow(b), j);
  }

  lemma LowOfByte(x: bv32, j: nat)
    requires j <= 8
    ensures And(x, Low(j)) == And(And(x, 0xFF), Low(j))
  {
  }

  lemma BelowMeans(a: bv8, b: bv8, j: nat)
    requires j <= 8 && And(a as bv32, Low(j)) == And(b as bv32, Low(j))
    ensures And(Xor(a as bv32, b as bv32), Low(j)) == 0
  {
  }

  lemma FromIsZero(a: Byte, b: Byte, j: nat)
    requires j <= 8 && SameBitsFrom(a, b, j)
    ensures And(Xor(Widen(a), Widen(b)), Low(j)) == Xor(Widen(a), Widen(b))
  {
    FromMeans(Words.Narrow(a), Words.Narrow(b), j);
  }

  lemma FromMeans(a: bv8, b: bv8, j: nat)
    requires j <= 8 && Down(a as bv32, j) == Down(b as bv32, j)
    ensures And(Xor(a as bv32, b as bv32), Low(j)) == Xor(a as bv32, b as bv32)
  {
  }

  lemma FirstByte(w: Buffer)
    requires |w| == 4
    ensures And(Word(w), 0xFF) == Widen(w[0])
  {
    ByteOfWord(w, 0);
  }

  lemma FiveBytes(c: bv32, v: Buffer)
    requires |v| == 5
    ensures Register(c, v) == ByteStep(Steps(Xor(c, Word(v[..4])), 32), v[4])
  {
    hide Word, Steps, ByteStep;
    assert v == v[..4] + [v[4]];
    RegisterAppend(c, v[..4], [v[4]]);
    RegisterOne(Register(c, v[..4]), v[4]);
    FourBytes(c, v[..4]);
  }

  /** The differences of two bursts that meet in one state cancel. */
  lemma DifferencesMeet(c: bv32, x: bv32, y: bv32, a: bv32, b: bv32)
    requires Steps(Xor(Steps(Xor(c, x), 32), a), 8) == Steps(Xor(Steps(Xor(c, y), 32), b), 8)
    ensures Steps(Xor(x, y), 32) == Xor(a, b)
  {
    hide Xor, Steps;
    var p, q := Steps(Xor(c, x), 32), Steps(Xor(c, y), 32);
    StepsAreInjective(Xor(p, a), Xor(q, b), 8);
    StepsAreLinear(Xor(c, x), Xor(c, y), 32);
    CancelCommon(c, x, y);
    CancelAcross(p, q, a, b);
  }

  lemma CancelCommon(c: bv32, x: bv32, y: bv32)
    ensures Xor(Xor(c, x), Xor(c, y)) == Xor(x, y)
  {
    hide Xor;
    var u := Xor(c, y);
    XorLaws(c, x, u);
    XorLaws(x, c, u);
    XorLaws(c, u, u);
    XorLaws(c, y, u);
    XorLaws(y, c, u);
  }

  lemma CancelAcross(p: bv32, q: bv32, a: bv32, b: bv32)
    requires Xor(p, a) == Xor(q, b)
    ensures Xor(p, q) == Xor(a, b)
  {
    hide Xor;
    XorLaws(p, a, a);
    XorLaws(q, b, a);
    XorLaws(q, Xor(b, a), q);
    XorLaws(Xor(b, a), q, q);
    XorLaws(b, a, a);
  }

  lemma XorIsZero(a: bv32, b: bv32)
    requires Xor(a, b) == 0
    ensures a == b
  {
  }

  /** A burst within 32 consecutive bits, wherever it starts, always changes the CRC. */
  lemma BitBurstIsDetected(before: Buffer, v: Buffer, w: Buffer, after: Buffer, j: nat)
    requires |v| == |w| == 5 && v != w && j <= 8 && IsBurst(v, w, j)
    ensures Crc(before + v + after) != Crc(before + w + after)
  {
    hide Crc, Register, ByteStep, Word, Xor, And, Low, Down, Steps, Widen;
    if Crc(before + v + after) == Crc(before + w + after) {
      EqualCrcsMeet(before, v, w, after);
      BurstIsSame(Register(0xFFFFFFFF, before), v, w, j);
    }
  }

  lemma BurstIsSame(c: bv32, v: Buffer, w: Buffer, j: nat)
    requires |v| == |w| == 5 && j <= 8 && IsBurst(v, w, j) && Register(c, v) == Register(c, w)
    ensures v == w
  {
    hide Register, Word, Xor, And, Low, Down, Steps, Widen, Difference;
    var x, y := Word(v[..4]), Word(w[..4]);
    var a, b := Widen(v[4]), Widen(w[4]);
    FiveBytes(c, v);
    FiveBytes(c, w);
    DifferencesMeet(c, x, y, a, b);
    FirstByte(v[..4]);
    FirstByte(w[..4]);
    BelowIsZero(x, y, v[0], w[0], j);
    FromIsZero(v[4], w[4], j);
    DifferenceIsXor(v[4], w[4]);
    BurstIsZero(Xor(x, y), Difference(v[4], w[4]), j);
    XorIsZero(x, y);
    XorIsZero(a, b);
    WordIsInjective(v[..4], w[..4]);
    WidenIsInjective(v[4], w[4]);
    assert v == v[..4] + [v[4]] && w == w[..4] + [w[4]];
  }
}
