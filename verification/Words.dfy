/** Words of eight bits and the bytes they stand for. */
module Words {
  import opened Bytes

  function Narrow(b: Byte): bv8 { b as bv8 }

  function AsByte(c: bv8): (b: Byte)
    ensures Narrow(b) == c
  {
    c as int
  }

  lemma NextWord(c: bv8)
    requires c != 0xFF
    ensures (c + 1) as int == c as int + 1
  {
  }

  /** Every byte is the value of a word. */
  lemma {:induction false} WordOf(b: Byte) returns (c: bv8)
    ensures AsByte(c) == b
  {
    c := 0;
    if b > 0 {
      c := WordOf(b - 1);
      NextWord(c);
      c := c + 1;
    }
  }

  lemma NarrowIsInjective(a: Byte, b: Byte)
    requires Narrow(a) == Narrow(b)
    ensures a == b
  {
    var c := WordOf(a);
    var d := WordOf(b);
  }

  lemma NarrowOfAsByte(c: bv8, b: Byte)
    ensures b == AsByte(c) <==> Narrow(b) == c
  {
    if Narrow(b) == c {
      NarrowIsInjective(b, AsByte(c));
    }
  }
}
