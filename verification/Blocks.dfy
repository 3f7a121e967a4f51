/** Positions in a medium that is read and written in blocks. */
module Blocks {
  import opened Arithmetic

  function BlockOf(x: nat, blockSize: nat): nat
    requires blockSize > 0
  {
    x / blockSize
  }

  function OffsetOf(x: nat, blockSize: nat): nat
    requires blockSize > 0
  {
    x % blockSize
  }

  function StartOf(block: nat, blockSize: nat): nat {
    block * blockSize
  }

  lemma {:induction false} BlockParts(x: nat, blockSize: nat)
    requires blockSize > 0
    ensures StartOf(BlockOf(x, blockSize), blockSize) + OffsetOf(x, blockSize) == x
            && OffsetOf(x, blockSize) < blockSize
  {
    DivMod(x, blockSize);
  }

  lemma {:induction false} Multiples(b: nat, q: nat, d: nat)
    ensures b < q ==> b * d + d <= q * d
    ensures b >= q ==> q * d <= b * d
  {
    if b < q {
      MulMonotone(b + 1, q, d);
      assert (b + 1) * d == b * d + d;
    } else {
      MulMonotone(q, b, d);
    }
  }
}
