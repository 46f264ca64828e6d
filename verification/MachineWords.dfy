// Arithmetic in 32-bit machine words.
module MachineWords {
  const WORD := 0x1_0000_0000

  function Word32(a: int): (r: nat)
    ensures r < WORD
    ensures 0 <= a < WORD ==> r == a
  {
    a % WORD
  }

  function Add32(a: int, b: int): (r: nat)
    ensures r < WORD
    ensures 0 <= a + b < WORD ==> r == a + b
  {
    Word32(a + b)
  }

  lemma Add32Mod(a: int, b: int)
    ensures Add32(Word32(a), b) == Word32(a + b)
  {
  }
}
