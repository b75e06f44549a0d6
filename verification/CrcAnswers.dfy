/** Known answers of the two checksums: the one that ends every PNG file, and the check value of the CRC-8. */
module CrcAnswers {
  import opened Bytes
  import C32 = Crc32
  import C8 = DispenseFrame
  import Words

  // ----- CRC-32

  lemma WideAnswer(c: bv32, x: bv32)
    ensures C32.Steps(x, 8) == C32.Step(C32.Step(C32.Step(C32.Step(C32.Step(C32.Step(C32.Step(C32.Step(x))))))))
    ensures c == 0xFFFFFFFF && x == c ^ 0x49 ==> C32.Steps(x, 8) == 0x22FDE946
    ensures c == 0x22FDE946 && x == c ^ 0x45 ==> C32.Steps(x, 8) == 0x992BAC53
    ensures c == 0x992BAC53 && x == c ^ 0x4E ==> C32.Steps(x, 8) == 0x639F4775
    ensures c == 0x639F4775 && x == c ^ 0x44 ==> C32.Steps(x, 8) == 0x51BD9F7D
  {
    var x1 := C32.Step(x);
    var x2 := C32.Step(x1);
    var x3 := C32.Step(x2);
    var x4 := C32.Step(x3);
    var x5 := C32.Step(x4);
    var x6 := C32.Step(x5);
    var x7 := C32.Step(x6);
    var x8 := C32.Step(x7);
    assert x8 == C32.Steps(x8, 0) == C32.Steps(x7, 1) == C32.Steps(x6, 2) == C32.Steps(x5, 3) == C32.Steps(x4, 4)
        == C32.Steps(x3, 5) == C32.Steps(x2, 6) == C32.Steps(x1, 7) == C32.Steps(x, 8);
  }

  lemma Letters()
    ensures C32.Widen(0x49) == 0x49 && C32.Widen(0x45) == 0x45 && C32.Widen(0x4E) == 0x4E && C32.Widen(0x44) == 0x44
  {
  }

  /** The checksum of an empty end chunk, over the letters IEND: every PNG file ends in it. */
  lemma EndChecksum()
    ensures C32.Crc([0x49, 0x45, 0x4E, 0x44]) == 0xAE426082
  {
    hide C32.Steps, C32.Step, C32.Widen;
    Letters();
    WideAnswer(0xFFFFFFFF, 0xFFFFFFFF ^ 0x49);
    WideAnswer(0x22FDE946, 0x22FDE946 ^ 0x45);
    WideAnswer(0x992BAC53, 0x992BAC53 ^ 0x4E);
    WideAnswer(0x639F4775, 0x639F4775 ^ 0x44);
    var s: Buffer := [0x49, 0x45, 0x4E, 0x44];
    assert s[1..][1..] == [0x4E, 0x44] && [0x4E, 0x44][1..] == [0x44] && [0x44][1..] == [];
    assert C32.Register(0xFFFFFFFF, s) == C32.Register(0x22FDE946, s[1..]) == C32.Register(0x992BAC53, s[1..][1..])
        == C32.Register(0x639F4775, [0x44]) == C32.Register(0x51BD9F7D, []);
  }

  // ----- CRC-8

  /** One step divides by the polynomial of degree 8 with the terms 8, 2, 1 and 0: it is taken off where the top bit leaves. */
  lemma StepDivides(c: bv8)
    ensures C8.Step(c) as bv16 == ((c as bv16) << 1) ^ (if c & 0x80 != 0 then 0x107 else 0)
  {
  }

  lemma ShortAnswer(x: bv8)
    ensures x == 0x01 ==> C8.Steps(x, 8) == 0x07
    ensures x == 0x06 ==> C8.Steps(x, 8) == 0x12
  {
    var x1 := C8.Step(x);
    var x2 := C8.Step(x1);
    var x3 := C8.Step(x2);
    var x4 := C8.Step(x3);
    var x5 := C8.Step(x4);
    var x6 := C8.Step(x5);
    var x7 := C8.Step(x6);
    var x8 := C8.Step(x7);
    assert x == C8.Steps(x, 0) && x1 == C8.Steps(x, 1) && x2 == C8.Steps(x, 2) && x3 == C8.Steps(x, 3) && x4 == C8.Steps(x, 4);
    assert x5 == C8.Steps(x, 5) && x6 == C8.Steps(x, 6) && x7 == C8.Steps(x, 7) && x8 == C8.Steps(x, 8);
  }

  lemma One()
    ensures Words.Narrow(1) == 0x01 && C8.Xor(0, 0x01) == 0x01 && C8.Xor(0x07, 0x01) == 0x06 && Words.AsByte(0x12) == 0x12
  {
  }

  /** The command of the first cell: 55 01 01 12. */
  lemma FirstCell()
    ensures C8.Command(1, 1) == [0x55, 0x01, 0x01, 0x12]
  {
    hide C8.Steps, C8.Step, C8.Xor, Words.Narrow, Words.AsByte;
    One();
    ShortAnswer(0x01);
    ShortAnswer(0x06);
    var s: Buffer := [1, 1];
    assert s[..1] == [1] && [1][..0] == [];
    assert C8.Register(0, []) == 0;
    assert C8.Register(0, [1]) == C8.ByteStep(0, 1) == 0x07;
    assert C8.Register(0, s) == C8.ByteStep(0x07, 1) == 0x12;
  }
}
