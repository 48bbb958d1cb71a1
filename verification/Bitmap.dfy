/** The slot bitmap of a heap page: eight slots to a byte, the first in the highest bit. */
module Bitmap {
  const WIDTH: nat := 8
  const HIGHEST_BIT: bv8 := 0x80

  function GetBit(k: nat): bv8
    requires k < WIDTH
  {
    HIGHEST_BIT >> k
  }

  predicate InMap(bm: seq<bv8>, pos: nat)
  {
    pos / WIDTH < |bm|
  }

  function Set(bm: seq<bv8>, pos: nat): seq<bv8>
    requires InMap(bm, pos)
  {
    bm[pos / WIDTH := bm[pos / WIDTH] | GetBit(pos % WIDTH)]
  }

  function Reset(bm: seq<bv8>, pos: nat): seq<bv8>
    requires InMap(bm, pos)
  {
    bm[pos / WIDTH := bm[pos / WIDTH] & !GetBit(pos % WIDTH)]
  }

  predicate IsSet(bm: seq<bv8>, pos: nat)
    requires InMap(bm, pos)
  {
    bm[pos / WIDTH] & GetBit(pos % WIDTH) != 0
  }

  lemma ByteBits(b: bv8, i: nat, j: nat)
    requires i < WIDTH && j < WIDTH
    ensures (b | GetBit(i)) & GetBit(j) != 0 <==> i == j || b & GetBit(j) != 0
    ensures (b & !GetBit(i)) & GetBit(j) != 0 <==> i != j && b & GetBit(j) != 0
  {
    BitOf(i);
    BitOf(j);
  }

  lemma BitOf(k: nat)
    requires k < WIDTH
    ensures GetBit(k) == [0x80, 0x40, 0x20, 0x10, 0x08, 0x04, 0x02, 0x01][k]
  {
    assert (0x80 as bv8) >> 0 == 0x80 && (0x80 as bv8) >> 1 == 0x40 && (0x80 as bv8) >> 2 == 0x20;
    assert (0x80 as bv8) >> 3 == 0x10 && (0x80 as bv8) >> 4 == 0x08 && (0x80 as bv8) >> 5 == 0x04;
    assert (0x80 as bv8) >> 6 == 0x02 && (0x80 as bv8) >> 7 == 0x01;
  }

  /** Setting or clearing one slot changes that slot and no other. */
  lemma OneSlotChanges(bm: seq<bv8>, pos: nat, q: nat)
    requires InMap(bm, pos) && InMap(bm, q)
    ensures IsSet(Set(bm, pos), q) <==> q == pos || IsSet(bm, q)
    ensures IsSet(Reset(bm, pos), q) <==> q != pos && IsSet(bm, q)
  {
    ByteBits(bm[pos / WIDTH], pos % WIDTH, q % WIDTH);
    assert q == q / WIDTH * WIDTH + q % WIDTH && pos == pos / WIDTH * WIDTH + pos % WIDTH;
  }

  /** The slots as the heap model sees them. */
  function Bits(bm: seq<bv8>, n: nat): seq<bool>
    requires n == 0 || InMap(bm, n - 1)
  {
    seq(n, i requires 0 <= i < n => IsSet(bm, i))
  }

  lemma BitsChange(bm: seq<bv8>, n: nat, pos: nat)
    requires pos < n && InMap(bm, n - 1)
    ensures Bits(Set(bm, pos), n) == Bits(bm, n)[pos := true]
    ensures Bits(Reset(bm, pos), n) == Bits(bm, n)[pos := false]
  {
    forall i | 0 <= i < n
      ensures Bits(Set(bm, pos), n)[i] == Bits(bm, n)[pos := true][i]
      ensures Bits(Reset(bm, pos), n)[i] == Bits(bm, n)[pos := false][i]
    {
      OneSlotChanges(bm, pos, i);
    }
  }
}
