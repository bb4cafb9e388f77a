/** 32-bit words, and powers of two. */
module Words {

  const WORD := 0x1_0000_0000

  type word = x: nat | x < WORD

  function Pow2(n: nat): nat {
    if n == 0 then 1 else 2 * Pow2(n - 1)
  }

  lemma Pow2Of8()
    ensures Pow2(8) == 0x100
  {
    assert Pow2(4) == 0x10;
  }

  lemma Pow2Of32()
    ensures Pow2(32) == WORD
  {
    Pow2Of8();
    assert Pow2(16) == 0x1_0000;
    assert Pow2(24) == 0x100_0000;
  }
}
