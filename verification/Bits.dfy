/** Bits of bytes, and the bit pool that numbers the sessions of a network. */
module Bits {
  /** 1 << j, for the eight bits of a byte. */
  function Mask(j: nat): bv8
    requires j < 8
  {
    match j
    case 0 => 0x01
    case 1 => 0x02
    case 2 => 0x04
    case 3 => 0x08
    case 4 => 0x10
    case 5 => 0x20
    case 6 => 0x40
    case _ => 0x80
  }

  predicate Bit(b: bv8, j: nat)
    requires j < 8
  {
    b & Mask(j) != 0
  }

  /** get_bit: bit `j` is the lowest one after a shift by `j`. */
  lemma BitIs(b: bv8, j: nat)
    requires j < 8
    ensures Bit(b, j) <==> (b >> j) & 1 == 1
  {
    if j < 4 { LowBit(b, j); } else { HighBit(b, j); }
  }

  lemma LowBit(b: bv8, j: nat)
    requires j < 4
    ensures Bit(b, j) <==> (b >> j) & 1 == 1
  {
    match j
    case 0 =>
    case 1 => assert b & 0x02 != 0 <==> (b >> 1) & 1 == 1;
    case 2 => assert b & 0x04 != 0 <==> (b >> 2) & 1 == 1;
    case 3 => assert b & 0x08 != 0 <==> (b >> 3) & 1 == 1;
  }

  lemma HighBit(b: bv8, j: nat)
    requires 4 <= j < 8
    ensures Bit(b, j) <==> (b >> j) & 1 == 1
  {
    match j
    case 4 => assert b & 0x10 != 0 <==> (b >> 4) & 1 == 1;
    case 5 => assert b & 0x20 != 0 <==> (b >> 5) & 1 == 1;
    case 6 => assert b & 0x40 != 0 <==> (b >> 6) & 1 == 1;
    case 7 => assert b & 0x80 != 0 <==> (b >> 7) & 1 == 1;
  }

  lemma MasksApart(j: nat, k: nat)
    requires j < 8 && k < 8
    ensures j != k ==> Mask(j) & Mask(k) == 0 && Mask(j) != Mask(k)
    ensures Mask(j) & Mask(j) == Mask(j) != 0
  {
  }

  lemma OrMasked(b: bv8, m: bv8, n: bv8)
    requires (m & n == 0 && m != n) || m == n != 0
    ensures (b | m) & n != 0 <==> m == n || b & n != 0
  {
  }

  lemma AndMasked(b: bv8, m: bv8, n: bv8)
    requires (m & n == 0 && m != n) || m == n != 0
    ensures (b & !m) & n != 0 <==> m != n && b & n != 0
  {
  }

  /** Setting one bit of a byte leaves the other seven alone. */
  lemma SetKeeps(b: bv8, j: nat, k: nat)
    requires j < 8 && k < 8
    ensures Bit(b | Mask(j), k) <==> k == j || Bit(b, k)
  {
    MasksApart(j, k);
    OrMasked(b, Mask(j), Mask(k));
  }

  /** Clearing one bit of a byte leaves the other seven alone. */
  lemma ClearKeeps(b: bv8, j: nat, k: nat)
    requires j < 8 && k < 8
    ensures Bit(b & !Mask(j), k) <==> k != j && Bit(b, k)
  {
    MasksApart(j, k);
    AndMasked(b, Mask(j), Mask(k));
  }

  lemma AllOnes(b: bv8)
    requires b & 1 != 0 && b & 2 != 0 && b & 4 != 0 && b & 8 != 0
    requires b & 16 != 0 && b & 32 != 0 && b & 64 != 0 && b & 128 != 0
    ensures b == 0xff
  {
  }

  lemma FullByte(b: bv8)
    ensures b == 0xff <==> forall j: nat | j < 8 :: Bit(b, j)
  {
    if forall j: nat | j < 8 :: Bit(b, j) {
      assert Bit(b, 0) && Bit(b, 1) && Bit(b, 2) && Bit(b, 3) && Bit(b, 4) && Bit(b, 5) && Bit(b, 6) && Bit(b, 7);
      AllOnes(b);
    }
    if b == 0xff {
      forall j: nat | j < 8
        ensures Bit(b, j)
      {
        MasksApart(j, j);
        OnesMasked(Mask(j));
      }
    }
  }

  lemma OnesMasked(m: bv8)
    ensures 0xff & m == m
  {
  }

  // ---------- bitmaps ----------

  /** Bit `n` of a bitmap. */
  ghost predicate IsSet(s: seq<bv8>, n: nat) {
    n / 8 < |s| && Bit(s[n / 8], n % 8)
  }

  /** The numbers of the set bits. */
  ghost function BitsOf(s: seq<bv8>): set<nat> {
    set n: nat | n < 8 * |s| && IsSet(s, n)
  }

  method SetBit(bitmap: array<bv8>, bit: nat)
    requires bit < 8 * bitmap.Length
    modifies bitmap
    ensures BitsOf(bitmap[..]) == old(BitsOf(bitmap[..])) + {bit}
  {
    hide Mask, Bit;
    ghost var was := bitmap[..];
    bitmap[bit / 8] := bitmap[bit / 8] | Mask(bit % 8);
    forall n: nat | n < 8 * |was|
      ensures IsSet(bitmap[..], n) <==> n == bit || IsSet(was, n)
    {
      if n / 8 == bit / 8 { SetKeeps(was[n / 8], bit % 8, n % 8); }
    }
  }

  method ClearBit(bitmap: array<bv8>, bit: nat)
    requires bit < 8 * bitmap.Length
    modifies bitmap
    ensures BitsOf(bitmap[..]) == old(BitsOf(bitmap[..])) - {bit}
  {
    hide Mask, Bit;
    ghost var was := bitmap[..];
    bitmap[bit / 8] := bitmap[bit / 8] & !Mask(bit % 8);
    forall n: nat | n < 8 * |was|
      ensures IsSet(bitmap[..], n) <==> n != bit && IsSet(was, n)
    {
      if n / 8 == bit / 8 { ClearKeeps(was[n / 8], bit % 8, n % 8); }
    }
  }

  /** The scanning loops of both allocators: the first byte with a free bit, then the bit. */
  method ScanFree(bitmap: array<bv8>, nbyte: nat) returns (i: nat, j: nat)
    requires nbyte <= bitmap.Length
    ensures i <= nbyte && (i == nbyte <==> forall n: nat :: n < 8 * nbyte ==> n in BitsOf(bitmap[..]))
    ensures i < nbyte ==> j < 8 && 8 * i + j !in BitsOf(bitmap[..])
    ensures i < nbyte ==> forall n: nat :: n < 8 * i + j ==> n in BitsOf(bitmap[..])
  {
    i, j := 0, 0;
    while i < nbyte && bitmap[i] == 0xff
      invariant i <= nbyte && forall n: nat :: n < 8 * i ==> n in BitsOf(bitmap[..])
    {
      FullByte(bitmap[i]);
      i := i + 1;
    }
    if i < nbyte {
      FullByte(bitmap[i]);
      while Bit(bitmap[i], j)
        invariant j < 8 && forall k: nat :: k < j ==> Bit(bitmap[i], k)
        decreases 8 - j
      {
        j := j + 1;
      }
      assert !IsSet(bitmap[..], 8 * i + j) && 8 * i + j < 8 * nbyte;
      assert 8 * i + j !in BitsOf(bitmap[..]);
    }
  }

  // ---------- bitv.c ----------

  /** The lowest number below `limit` that is not taken. */
  ghost predicate LowestFree(n: nat, taken: set<nat>, limit: nat) {
    n < limit && n !in taken && forall m: nat :: m < n ==> m in taken
  }

  /** The lowest number from `n` on that is not taken, or the limit. */
  ghost function LowestFrom(taken: set<int>, n: nat, limit: nat): nat
    decreases limit - n
  {
    if n >= limit || n !in taken then n else LowestFrom(taken, n + 1, limit)
  }

  lemma {:induction false} LowestFromIsLowest(taken: set<int>, n: nat, limit: nat)
    requires forall m: nat :: m < n ==> m in taken
    ensures n <= limit ==> LowestFrom(taken, n, limit) <= limit
    ensures LowestFrom(taken, n, limit) < limit ==> LowestFrom(taken, n, limit) !in taken
    ensures forall m: nat :: m < LowestFrom(taken, n, limit) ==> m in taken
    decreases limit - n
  {
    if n < limit && n in taken {
      LowestFromIsLowest(taken, n + 1, limit);
    }
  }

  /** The bits in whole bytes: only these are ever allocated. */
  function Whole(nbits: nat): nat { nbits / 8 * 8 }

  /** bitpool_allocate_bit: takes the lowest free bit, or fails exactly when the whole bytes of the pool
      are full. */
  method AllocateBit(bitpool: array<bv8>, nbits: nat, bit0: nat) returns (ret: int, bit: nat)
    requires nbits <= 8 * bitpool.Length
    modifies bitpool
    ensures ret == 0 || ret == -1
    ensures ret == -1 <==> forall n: nat :: n < Whole(nbits) ==> n in old(BitsOf(bitpool[..]))
    ensures ret == -1 ==> bit == bit0 && bitpool[..] == old(bitpool[..])
    ensures ret == 0 ==> LowestFree(bit, old(BitsOf(bitpool[..])), Whole(nbits))
    ensures ret == 0 ==> BitsOf(bitpool[..]) == old(BitsOf(bitpool[..])) + {bit}
  {
    ghost var was := bitpool[..];
    var nbyte := nbits / 8;
    var i, j := ScanFree(bitpool, nbyte);
    assert bitpool[..] == was && 8 * nbyte == Whole(nbits);
    if i == nbyte {
      return -1, bit0;
    }
    bit := i * 8 + j;
    assert bit !in BitsOf(bitpool[..]);
    SetBit(bitpool, bit);
    ret := 0;
  }

  /** bitpool_release_bit: frees a bit of the pool; a number outside it changes nothing. */
  method ReleaseBit(bitpool: array<bv8>, nbits: nat, bit: nat) returns (ret: int)
    requires nbits <= 8 * bitpool.Length
    modifies bitpool
    ensures ret == if bit < nbits then 0 else -1
    ensures BitsOf(bitpool[..]) == old(BitsOf(bitpool[..])) - if bit < nbits then {bit} else {}
  {
    if bit < nbits {
      ClearBit(bitpool, bit);
      return 0;
    }
    return -1;
  }
}
