/** The allocator of alloc.c: blocks are cut from the top of a static space, and `malloc` helps out when
    it is used up. Sizes are 32-bit numbers; what `malloc` answers is given. */
module Pool {

  const ALIGNMENT: nat := 16

  const SPACE: nat := 2048

  const TWO32: nat := 0x1_0000_0000

  /** The size that is set aside for `n` bytes; the sum is cut to 32 bits. */
  function Rounded(n: nat): nat {
    (ALIGNMENT + n - n % 16) % TWO32
  }

  /** Rounding up leaves more than was asked for, except where the sum no longer fits into 32 bits. */
  lemma RoundedIsEnough(n: nat)
    requires n < TWO32
    ensures Rounded(n) % ALIGNMENT == 0
    ensures Rounded(n) > n <==> n < TWO32 - ALIGNMENT
    ensures n >= TWO32 - ALIGNMENT ==> Rounded(n) == 0
  {
    assert TWO32 - ALIGNMENT == 16 * 0xFFF_FFFF;
    if n >= TWO32 - ALIGNMENT {
      assert n - n % 16 == TWO32 - ALIGNMENT;
    } else {
      assert ALIGNMENT + n - n % 16 < TWO32;
    }
  }

  datatype Place = InSpace(start: nat) | Elsewhere | Nowhere

  // A block of the space, with the size that was asked for.
  datatype Block = Block(start: nat, size: nat)

  predicate Apart(b: Block, c: Block) {
    b.start + b.size <= c.start || c.start + c.size <= b.start
  }

  /** All blocks lie in the used part of the space, aligned, and no two of them share a byte. */
  ghost predicate Sound(avail: nat, blocks: seq<Block>) {
    && avail <= SPACE && avail % ALIGNMENT == 0
    && (forall i :: 0 <= i < |blocks| ==>
          avail <= blocks[i].start && blocks[i].start + blocks[i].size <= SPACE && blocks[i].start % ALIGNMENT == 0)
    && (forall i, j :: 0 <= i < j < |blocks| ==> Apart(blocks[i], blocks[j]))
  }

  class Allocator {
    var avail: nat
    ghost var blocks: seq<Block>

    constructor ()
      ensures avail == SPACE && blocks == [] && Sound(avail, blocks)
    {
      avail, blocks := SPACE, [];
    }

    /** `alloc`. The blocks stay sound exactly when the rounding does not overflow, as the source warns it
        might: a size too near to 2^32 is rounded to nothing and granted at once. */
    method Alloc(n: nat, memory: bool) returns (x: Place)
      requires Sound(avail, blocks) && n < TWO32
      modifies this
      ensures Sound(avail, blocks) <==> n < TWO32 - ALIGNMENT
      ensures x.InSpace? <==> n < old(avail) || n >= TWO32 - ALIGNMENT
      ensures x.InSpace? ==>
                && blocks == old(blocks) + [Block(x.start, n)] && x.start == avail <= old(avail)
                && (avail < old(avail) <==> n < TWO32 - ALIGNMENT)
      ensures !x.InSpace? ==> blocks == old(blocks) && avail == old(avail) && x == if memory then Elsewhere else Nowhere
    {
      RoundedIsEnough(n);
      var m := Rounded(n);
      if m <= avail {
        avail := avail - m;
        blocks := blocks + [Block(avail, n)];
        assert n >= TWO32 - ALIGNMENT ==> blocks[|blocks| - 1].start + blocks[|blocks| - 1].size > SPACE;
        return InSpace(avail);
      }
      return if memory then Elsewhere else Nowhere;
    }
  }
}
