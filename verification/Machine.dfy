// What the programs take from the machine.
module Machine {

  type Byte = b: int | 0 <= b < 256
  type Bytes = seq<Byte>

  // One more than the largest unsigned int.
  const WORD := 0x1_0000_0000

  // Bit k of n in two's complement: halving rounds down.
  function Bit(n: int, k: nat): (b: int)
    ensures b == 0 || b == 1
    decreases k
  {
    if k == 0 then n % 2 else Bit(n / 2, k - 1)
  }
}
