/**
 The CRC-32 of the W3C PNG Specification (Second Edition), section 5.5 and Annex D:
 the bitwise shift register, the table-driven form, and the errors the code detects.
 */
module Crc32 {
  import opened Bytes
  import Words

  // ----- words

  function Xor(a: bv32, b: bv32): bv32 { a ^ b }

  function Widen(b: Byte): bv32 { Words.Narrow(b) as bv32 }

  /** `x & 0xff` as a table index. */
  function LowByte(x: bv32): nat { (x & 0xFF) as int }

  lemma XorLaws(a: bv32, b: bv32, c: bv32)
    ensures Xor(Xor(a, b), c) == Xor(a, Xor(b, c))
    ensures Xor(a, b) == Xor(b, a)
    ensures Xor(Xor(a, b), b) == a
  {
  }

  lemma WordAsInteger(a: bv32)
    ensures 0 <= a as int < 0x1_0000_0000
    ensures (a as int) as bv32 == a
  {
  }

  /** Checksums are compared as integers; equal integers are equal words. */
  lemma EqualAsIntegers(a: bv32, b: bv32)
    requires a as int == b as int
    ensures a == b
  {
    WordAsInteger(a);
    WordAsInteger(b);
  }

  // ----- the bitwise register

  /** One shift-and-xor step with the reflected polynomial. */
  function Step(c: bv32): bv32 {
    if c & 1 != 0 then 0xEDB88320 ^ (c >> 1) else c >> 1
  }

  function Steps(c: bv32, n: nat): bv32
    decreases n
  {
    if n == 0 then c else Steps(Step(c), n - 1)
  }

  function ByteStep(c: bv32, b: Byte): bv32 {
    Steps(Xor(c, Widen(b)), 8)
  }

  function Register(c: bv32, s: Buffer): bv32
    decreases |s|
  {
    if s == [] then c else Register(ByteStep(c, s[0]), s[1..])
  }

  function Crc(s: Buffer): bv32 {
    Xor(Register(0xFFFFFFFF, s), 0xFFFFFFFF)
  }

  // ----- a step is linear and undone by shifting the other way

  function StepBack(c: bv32): bv32 {
    if c & 0x80000000 != 0 then ((c ^ 0xEDB88320) << 1) | 1 else c << 1
  }

  lemma StepBackThenStep(c: bv32)
    ensures Step(StepBack(c)) == c
  {
    if c & 0x80000000 != 0 {
      StepBackOdd(c);
      assert StepBack(c) == ((c ^ 0xEDB88320) << 1) | 1;
    } else {
      StepBackEven(c);
    }
  }

  lemma StepBackOdd(c: bv32)
    requires c & 0x80000000 != 0
    ensures (((c ^ 0xEDB88320) << 1) | 1) & 1 != 0
    ensures 0xEDB88320 ^ ((((c ^ 0xEDB88320) << 1) | 1) >> 1) == c
  {
  }

  lemma StepBackEven(c: bv32)
    requires c & 0x80000000 == 0
    ensures (c << 1) & 1 == 0 && (c << 1) >> 1 == c
  {
  }

  lemma StepThenStepBack(c: bv32)
    ensures StepBack(Step(c)) == c
  {
  }

  lemma ShiftXor(a: bv32, b: bv32)
    ensures (a ^ b) >> 1 == (a >> 1) ^ (b >> 1)
    ensures (a ^ b) & 1 == (a & 1) ^ (b & 1)
    ensures (a & 1 == 0 || a & 1 == 1) && (b & 1 == 0 || b & 1 == 1)
  {
  }

  lemma XorCancels(p: bv32, a: bv32, b: bv32)
    ensures (p ^ a) ^ (p ^ b) == a ^ b
    ensures (p ^ a) ^ b == p ^ (a ^ b)
    ensures a ^ (p ^ b) == p ^ (a ^ b)
  {
  }

  lemma StepIsLinear(a: bv32, b: bv32)
    ensures Step(Xor(a, b)) == Xor(Step(a), Step(b))
  {
    ShiftXor(a, b);
    XorCancels(0xEDB88320, a >> 1, b >> 1);
  }

  lemma {:induction false} StepsAreLinear(a: bv32, b: bv32, n: nat)
    ensures Steps(Xor(a, b), n) == Xor(Steps(a, n), Steps(b, n))
    decreases n
  {
    if n > 0 {
      StepIsLinear(a, b);
      StepsAreLinear(Step(a), Step(b), n - 1);
    }
  }

  lemma {:induction false} StepsAreInjective(a: bv32, b: bv32, n: nat)
    requires Steps(a, n) == Steps(b, n)
    ensures a == b
    decreases n
  {
    if n > 0 {
      StepsAreInjective(Step(a), Step(b), n - 1);
      StepThenStepBack(a);
      StepThenStepBack(b);
    }
  }

  lemma {:induction false} StepsCompose(c: bv32, m: nat, n: nat)
    ensures Steps(Steps(c, m), n) == Steps(c, m + n)
    decreases m
  {
    if m > 0 {
      StepsCompose(Step(c), m - 1, n);
    }
  }

  // ----- the table-driven form

  /** `x >>> 8` */
  function DropLowByte(x: bv32): bv32 { x >> 8 }

  function LowPart(x: bv32): bv32 { x & 0xFF }

  function HighPart(x: bv32): bv32 { x & 0xFFFFFF00 }

  function TableEntry(value: nat): bv32
    requires value < 256
  {
    Steps(value as bv32, 8)
  }

  const CRC32_TABLE: seq<bv32> := seq(256, value requires 0 <= value < 256 => TableEntry(value))

  /** The initialiser of the table: eight shift-and-xor steps for each byte value. */
  method BuildTable() returns (table: array<bv32>)
    ensures table[..] == CRC32_TABLE
  {
    table := new bv32[256];
    for value := 0 to 256
      invariant table[..value] == CRC32_TABLE[..value]
    {
      var crc := EntryLoop(value);
      table[value] := crc;
    }
  }

  method EntryLoop(value: nat) returns (crc: bv32)
    requires value < 256
    ensures crc == TableEntry(value)
  {
    crc := value as bv32;
    var bit := 0;
    while bit < 8
      invariant 0 <= bit <= 8
      invariant Steps(crc, 8 - bit) == TableEntry(value)
    {
      crc := Step(crc);
      bit := bit + 1;
    }
  }

  lemma ZeroLowBitShifts(x: bv32)
    requires x & 1 == 0
    ensures Step(x) == x >> 1
  {
  }

  lemma ZeroLowBits(x: bv32)
    requires x & 0xFF == 0
    ensures x & 1 == 0 && (x >> 1) & 1 == 0 && (x >> 2) & 1 == 0 && (x >> 3) & 1 == 0
    ensures (x >> 4) & 1 == 0 && (x >> 5) & 1 == 0 && (x >> 6) & 1 == 0 && (x >> 7) & 1 == 0
  {
  }

  lemma ShiftsCompose(x: bv32)
    ensures (x >> 1) >> 1 == x >> 2 && (x >> 2) >> 1 == x >> 3 && (x >> 3) >> 1 == x >> 4
    ensures (x >> 4) >> 1 == x >> 5 && (x >> 5) >> 1 == x >> 6 && (x >> 6) >> 1 == x >> 7
    ensures (x >> 7) >> 1 == x >> 8
  {
  }

  lemma ZeroLowBitsShift(x: bv32)
    requires x & 0xFF == 0
    ensures Steps(x, 8) == DropLowByte(x)
  {
    ZeroLowBits(x);
    ShiftsCompose(x);
    ZeroLowBitShifts(x);
    ZeroLowBitShifts(x >> 1);
    ZeroLowBitShifts(x >> 2);
    ZeroLowBitShifts(x >> 3);
    ZeroLowBitShifts(x >> 4);
    ZeroLowBitShifts(x >> 5);
    ZeroLowBitShifts(x >> 6);
    ZeroLowBitShifts(x >> 7);
  }

  lemma SplitWord(x: bv32)
    ensures x == Xor(LowPart(x), HighPart(x))
  {
  }

  lemma HighPartBits(x: bv32)
    ensures HighPart(x) & 0xFF == 0 && DropLowByte(HighPart(x)) == DropLowByte(x)
  {
  }

  lemma HighPartShifts(x: bv32)
    ensures Steps(HighPart(x), 8) == DropLowByte(x)
  {
    HighPartBits(x);
    ZeroLowBitsShift(HighPart(x));
  }

  lemma ByteIsSmall(c: bv32, b: Byte)
    ensures DropLowByte(Xor(c, Widen(b))) == DropLowByte(c)
  {
  }

  lemma LowByteIndex(x: bv32)
    ensures LowByte(x) < 256
    ensures LowByte(x) as bv32 == LowPart(x)
  {
    LowByteBound(x);
    WordAsInteger(LowPart(x));
  }

  lemma LowByteBound(x: bv32)
    ensures LowByte(x) < 256 && LowByte(x) == LowPart(x) as int
  {
  }

  lemma TableLookup(x: bv32)
    ensures LowByte(x) < |CRC32_TABLE|
    ensures CRC32_TABLE[LowByte(x)] == Steps(LowPart(x), 8)
  {
    LowByteIndex(x);
  }

  /** Looking the low byte up in the table is eight shift-and-xor steps. */
  lemma TableStepIsBitwise(c: bv32, b: Byte)
    ensures LowByte(Xor(c, Widen(b))) < |CRC32_TABLE|
    ensures Xor(CRC32_TABLE[LowByte(Xor(c, Widen(b)))], DropLowByte(c)) == ByteStep(c, b)
  {
    var x := Xor(c, Widen(b));
    TableLookup(x);
    SplitWord(x);
    StepsAreLinear(LowPart(x), HighPart(x), 8);
    HighPartShifts(x);
    ByteIsSmall(c, b);
  }

  lemma {:induction false} RegisterAppend(c: bv32, s: Buffer, t: Buffer)
    ensures Register(c, s + t) == Register(Register(c, s), t)
    decreases |s|
  {
    if s == [] {
      assert s + t == t;
    } else {
      assert (s + t)[1..] == s[1..] + t;
      RegisterAppend(ByteStep(c, s[0]), s[1..], t);
    }
  }

  lemma RegisterOne(c: bv32, b: Byte)
    ensures Register(c, [b]) == ByteStep(c, b)
  {
  }

  /** The inner loop: one buffer, a byte at a time. */
  method Feed(start: bv32, buffer: Buffer) returns (crc: bv32)
    ensures crc == Register(start, buffer)
  {
    crc := start;
    for j := 0 to |buffer|
      invariant crc == Register(start, buffer[..j])
    {
      TableStepIsBitwise(crc, buffer[j]);
      RegisterAppend(start, buffer[..j], [buffer[j]]);
      RegisterOne(crc, buffer[j]);
      assert buffer[..j + 1] == buffer[..j] + [buffer[j]];
      crc := Xor(CRC32_TABLE[LowByte(Xor(crc, Widen(buffer[j])))], DropLowByte(crc));
    }
    assert buffer[..|buffer|] == buffer;
  }

  /** The fast CRC over any list of buffers is the bitwise CRC of their concatenation. */
  method Crc32(buffers: seq<Buffer>) returns (value: nat)
    ensures value == Crc(Concat(buffers)) as int
  {
    var crc: bv32 := 0xFFFFFFFF;
    for i := 0 to |buffers|
      invariant crc == Register(0xFFFFFFFF, Concat(buffers[..i]))
    {
      ConcatAppend(buffers[..i], [buffers[i]]);
      assert buffers[..i + 1] == buffers[..i] + [buffers[i]];
      assert Concat([buffers[i]]) == buffers[i];
      RegisterAppend(0xFFFFFFFF, Concat(buffers[..i]), buffers[i]);
      crc := Feed(crc, buffers[i]);
    }
    assert buffers[..|buffers|] == buffers;
    value := Xor(crc, 0xFFFFFFFF) as int;
  }

  // ----- what the code detects

  lemma XorIsInjective(c: bv32, a: bv32, b: bv32)
    requires Xor(c, a) == Xor(c, b)
    ensures a == b
  {
  }

  lemma WidenIsInjective(a: Byte, b: Byte)
    requires Widen(a) == Widen(b)
    ensures a == b
  {
    NarrowWiden(Words.Narrow(a), Words.Narrow(b));
    Words.NarrowIsInjective(a, b);
  }

  lemma NarrowWiden(a: bv8, b: bv8)
    requires a as bv32 == b as bv32
    ensures a == b
  {
  }

  /** A byte step permutes the states: no two states meet, and every state is reached. */
  lemma ByteStepInjectiveInState(c: bv32, d: bv32, b: Byte)
    requires ByteStep(c, b) == ByteStep(d, b)
    ensures c == d
  {
    StepsAreInjective(Xor(c, Widen(b)), Xor(d, Widen(b)), 8);
    XorLaws(c, Widen(b), 0);
    XorLaws(d, Widen(b), 0);
  }

  lemma {:induction false} StepsAreOnto(target: bv32, n: nat) returns (c: bv32)
    ensures Steps(c, n) == target
    decreases n
  {
    c := target;
    if n > 0 {
      var d := StepsAreOnto(target, n - 1);
      c := StepBack(d);
      StepBackThenStep(d);
    }
  }

  lemma ByteStepIsOnto(target: bv32, b: Byte) returns (c: bv32)
    ensures ByteStep(c, b) == target
  {
    var d := StepsAreOnto(target, 8);
    c := Xor(d, Widen(b));
    XorLaws(d, Widen(b), 0);
  }

  /** From one state, different bytes lead to different states. */
  lemma ByteStepInjectiveInByte(c: bv32, a: Byte, b: Byte)
    requires ByteStep(c, a) == ByteStep(c, b)
    ensures a == b
  {
    StepsAreInjective(Xor(c, Widen(a)), Xor(c, Widen(b)), 8);
    XorIsInjective(c, Widen(a), Widen(b));
    WidenIsInjective(a, b);
  }

  lemma {:induction false} RegisterIsInjective(c: bv32, d: bv32, s: Buffer)
    requires Register(c, s) == Register(d, s)
    ensures c == d
    decreases |s|
  {
    if s != [] {
      RegisterIsInjective(ByteStep(c, s[0]), ByteStep(d, s[0]), s[1..]);
      ByteStepInjectiveInState(c, d, s[0]);
    }
  }

  /** Equal checksums of inputs sharing prefix and suffix force equal register states in between. */
  lemma EqualCrcsMeet(before: Buffer, v: Buffer, w: Buffer, after: Buffer)
    requires Crc(before + v + after) == Crc(before + w + after)
    ensures Register(Register(0xFFFFFFFF, before), v) == Register(Register(0xFFFFFFFF, before), w)
  {
    var start: bv32 := 0xFFFFFFFF;
    XorLaws(Register(start, before + v + after), start, 0);
    XorLaws(Register(start, before + w + after), start, 0);
    RegisterAppend(start, before + v, after);
    RegisterAppend(start, before + w, after);
    RegisterAppend(start, before, v);
    RegisterAppend(start, before, w);
    RegisterIsInjective(Register(start, before + v), Register(start, before + w), after);
  }

  /** The value a four-byte run contributes to the register: its little-endian word. */
  function Shifted(b: Byte, k: nat): bv32
    requires k < 4
  {
    if k == 0 then Widen(b)
    else if k == 1 then Widen(b) << 8
    else if k == 2 then Widen(b) << 16
    else Widen(b) << 24
  }

  function Word(w: Buffer): bv32
    requires |w| == 4
  {
    Xor(Xor(Xor(Shifted(w[0], 0), Shifted(w[1], 1)), Shifted(w[2], 2)), Shifted(w[3], 3))
  }

  function ByteAt(x: bv32, k: nat): bv32
    requires k < 4
  {
    if k == 0 then x & 0xFF
    else if k == 1 then (x >> 8) & 0xFF
    else if k == 2 then (x >> 16) & 0xFF
    else (x >> 24) & 0xFF
  }

  lemma ByteAtXor(x: bv32, y: bv32, k: nat)
    requires k < 4
    ensures ByteAt(Xor(x, y), k) == Xor(ByteAt(x, k), ByteAt(y, k))
  {
    MaskXor(x, y);
    if k == 1 {
      MaskXor(x >> 8, y >> 8);
    } else if k == 2 {
      MaskXor(x >> 16, y >> 16);
    } else if k == 3 {
      MaskXor(x >> 24, y >> 24);
    }
  }

  lemma MaskXor(x: bv32, y: bv32)
    ensures (x ^ y) & 0xFF == (x & 0xFF) ^ (y & 0xFF)
    ensures (x ^ y) >> 8 == (x >> 8) ^ (y >> 8)
    ensures (x ^ y) >> 16 == (x >> 16) ^ (y >> 16)
    ensures (x ^ y) >> 24 == (x >> 24) ^ (y >> 24)
  {
  }

  lemma ByteAtShifted(b: Byte, j: nat, k: nat)
    requires j < 4 && k < 4
    ensures ByteAt(Shifted(b, j), k) == if j == k then Widen(b) else 0
  {
  }

  lemma XorZero(x: bv32)
    ensures Xor(x, 0) == x && Xor(0, x) == x
  {
  }

  lemma ByteAtXorFour(p: bv32, q: bv32, r: bv32, s: bv32, k: nat)
    requires k < 4
    ensures ByteAt(Xor(Xor(Xor(p, q), r), s), k)
         == Xor(Xor(Xor(ByteAt(p, k), ByteAt(q, k)), ByteAt(r, k)), ByteAt(s, k))
  {
    ByteAtXor(Xor(Xor(p, q), r), s, k);
    ByteAtXor(Xor(p, q), r, k);
    ByteAtXor(p, q, k);
  }

  lemma ByteOfWord(w: Buffer, k: nat)
    requires |w| == 4 && k < 4
    ensures ByteAt(Word(w), k) == Widen(w[k])
  {
    hide ByteAt, Shifted, Xor, Widen;
    ByteAtXorFour(Shifted(w[0], 0), Shifted(w[1], 1), Shifted(w[2], 2), Shifted(w[3], 3), k);
    ByteAtShifted(w[0], 0, k);
    ByteAtShifted(w[1], 1, k);
    ByteAtShifted(w[2], 2, k);
    ByteAtShifted(w[3], 3, k);
    XorZero(Widen(w[k]));
    XorZero(0);
  }

  lemma WordIsInjective(v: Buffer, w: Buffer)
    requires |v| == |w| == 4 && Word(v) == Word(w)
    ensures v == w
  {
    forall k | 0 <= k < 4
      ensures v[k] == w[k]
    {
      ByteOfWord(v, k);
      ByteOfWord(w, k);
      WidenIsInjective(v[k], w[k]);
    }
  }

  lemma ShiftedZero(b: Byte)
    ensures Shifted(b, 0) == Widen(b)
  {
  }

  lemma ShiftedDown(b: Byte, k: nat)
    requires 0 < k < 4
    ensures Shifted(b, k) & 0xFF == 0 && DropLowByte(Shifted(b, k)) == Shifted(b, k - 1)
  {
  }

  lemma {:induction false} ShiftedSinks(b: Byte, k: nat)
    requires 0 < k < 4
    ensures Steps(Shifted(b, k), 8 * k) == Widen(b)
    decreases k
  {
    ShiftedDown(b, k);
    ShiftedZero(b);
    ZeroLowBitsShift(Shifted(b, k));
    if k > 1 {
      ShiftedSinks(b, k - 1);
      StepsCompose(Shifted(b, k), 8, 8 * (k - 1));
    }
  }

  /** A byte fed in after 8k steps is the same byte xored in 8k bits higher at the start. */
  lemma LateByte(c: bv32, b: Byte, k: nat)
    requires 0 < k < 4
    ensures ByteStep(Steps(c, 8 * k), b) == Steps(Xor(c, Shifted(b, k)), 8 * k + 8)
  {
    ShiftedSinks(b, k);
    StepsAreLinear(c, Shifted(b, k), 8 * k);
    StepsCompose(Xor(c, Shifted(b, k)), 8 * k, 8);
  }

  lemma RegisterFour(c: bv32, w: Buffer)
    requires |w| == 4
    ensures Register(c, w) == ByteStep(ByteStep(ByteStep(ByteStep(c, w[0]), w[1]), w[2]), w[3])
  {
    assert w == [w[0]] + [w[1]] + [w[2]] + [w[3]];
    RegisterAppend(c, [w[0]] + [w[1]] + [w[2]], [w[3]]);
    RegisterAppend(c, [w[0]] + [w[1]], [w[2]]);
    RegisterAppend(c, [w[0]], [w[1]]);
    RegisterOne(c, w[0]);
    RegisterOne(ByteStep(c, w[0]), w[1]);
    RegisterOne(ByteStep(ByteStep(c, w[0]), w[1]), w[2]);
    RegisterOne(ByteStep(ByteStep(ByteStep(c, w[0]), w[1]), w[2]), w[3]);
  }

  /** Four bytes enter the register as one xor followed by 32 steps. */
  lemma FourBytes(c: bv32, w: Buffer)
    requires |w| == 4
    ensures Register(c, w) == Steps(Xor(c, Word(w)), 32)
  {
    var p, q, r, s := Shifted(w[0], 0), Shifted(w[1], 1), Shifted(w[2], 2), Shifted(w[3], 3);
    RegisterFour(c, w);
    ShiftedZero(w[0]);
    LateByte(Xor(c, p), w[1], 1);
    LateByte(Xor(Xor(c, p), q), w[2], 2);
    LateByte(Xor(Xor(Xor(c, p), q), r), w[3], 3);
    XorLaws(c, p, q);
    XorLaws(c, Xor(p, q), r);
    XorLaws(c, Xor(Xor(p, q), r), s);
  }

  /**
   A burst confined to four consecutive bytes always changes the CRC, whatever bits it
   flips and whatever surrounds it.
   */
  lemma BurstIsDetected(before: Buffer, v: Buffer, w: Buffer, after: Buffer)
    requires |v| == |w| == 4 && v != w
    ensures Crc(before + v + after) != Crc(before + w + after)
  {
    if Crc(before + v + after) == Crc(before + w + after) {
      EqualCrcsMeet(before, v, w, after);
      var c := Register(0xFFFFFFFF, before);
      FourBytes(c, v);
      FourBytes(c, w);
      StepsAreInjective(Xor(c, Word(v)), Xor(c, Word(w)), 32);
      XorIsInjective(c, Word(v), Word(w));
      WordIsInjective(v, w);
    }
  }

  /** Two inputs of equal length that differ in exactly one byte have different CRCs. */
  lemma OneByteIsDetected(s: Buffer, i: nat, b: Byte)
    requires i < |s| && b != s[i]
    ensures Crc(s[i := b]) != Crc(s)
  {
    assert s == s[..i] + [s[i]] + s[i + 1..];
    assert s[i := b] == s[..i] + [b] + s[i + 1..];
    if Crc(s[i := b]) == Crc(s) {
      EqualCrcsMeet(s[..i], [s[i]], [b], s[i + 1..]);
      var c := Register(0xFFFFFFFF, s[..i]);
      RegisterOne(c, s[i]);
      RegisterOne(c, b);
      ByteStepInjectiveInByte(c, s[i], b);
    }
  }
}
