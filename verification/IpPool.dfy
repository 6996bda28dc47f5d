/** The address pool of a network: ipcalc on byte-swapped words, and the bitmap of addresses in use. */
module IpPool {
  import opened Wrappers
  import opened Powers
  import opened Bits

  /** A 32-bit word; an address is kept in network byte order, as a little-endian machine reads it. */
  type Word = w: nat | w < 0x1_0000_0000

  type Octet = o: nat | o < 256

  /** The word with these octets, most significant first. */
  function Join(a: Octet, b: Octet, c: Octet, d: Octet): Word {
    ((a * 256 + b) * 256 + c) * 256 + d
  }

  /** htonl and ntohl. */
  function Swap(w: Word): Word {
    Join(w % 256, w / 256 % 256, w / 256 / 256 % 256, w / 256 / 256 / 256)
  }

  /** Subtraction of unsigned words. */
  function Sub(a: Word, b: Word): Word {
    if a >= b then a - b else a - b + 0x1_0000_0000
  }

  /** Bitwise or. */
  function Or(a: nat, b: nat): nat {
    if a == 0 then b else if b == 0 then a
    else 2 * Or(a / 2, b / 2) + if a % 2 == 1 || b % 2 == 1 then 1 else 0
  }

  // ---------- octets ----------

  lemma Octets(w: Word)
    ensures w == Join(w / 256 / 256 / 256, w / 256 / 256 % 256, w / 256 % 256, w % 256)
  {
  }

  lemma JoinOctets(a: Octet, b: Octet, c: Octet, d: Octet)
    ensures var w := Join(a, b, c, d);
      w % 256 == d && w / 256 % 256 == c && w / 256 / 256 % 256 == b && w / 256 / 256 / 256 == a
  {
    var w := Join(a, b, c, d);
    assert w / 256 == (a * 256 + b) * 256 + c;
    assert w / 256 / 256 == a * 256 + b;
  }

  lemma SwapTwice(w: Word)
    ensures Swap(Swap(w)) == w
  {
    Octets(w);
    JoinOctets(w % 256, w / 256 % 256, w / 256 / 256 % 256, w / 256 / 256 / 256);
    hide Join;
  }

  /** No octet of `x` is below that of `h`. */
  predicate NoBorrow(x: nat, h: nat, octets: nat) {
    octets == 0 || (x % 256 >= h % 256 && NoBorrow(x / 256, h / 256, octets - 1))
  }

  /** Subtracting in network byte order agrees with subtracting in host order when no octet borrows. */
  lemma SubSwap(x: Word, h: Word)
    requires NoBorrow(x, h, 4)
    ensures x >= h && Sub(Swap(x), Swap(h)) == Swap(x - h)
  {
    hide NoBorrow, Join;
    Octets(x);
    Octets(h);
    NoBorrowOctets(x, h);
    var a, b, c, d := x / 256 / 256 / 256, x / 256 / 256 % 256, x / 256 % 256, x % 256;
    var e, f, g, i := h / 256 / 256 / 256, h / 256 / 256 % 256, h / 256 % 256, h % 256;
    SubJoin(a, b, c, d, e, f, g, i);
    SubJoin(d, c, b, a, i, g, f, e);
    JoinOctets(a - e, b - f, c - g, d - i);
  }

  lemma NoBorrowOctets(x: Word, h: Word)
    requires NoBorrow(x, h, 4)
    ensures x % 256 >= h % 256 && x / 256 % 256 >= h / 256 % 256 && x / 256 / 256 % 256 >= h / 256 / 256 % 256
    ensures x / 256 / 256 / 256 >= h / 256 / 256 / 256
  {
    hide NoBorrow;
    NoBorrowIs(x, h, 3);
    NoBorrowIs(x / 256, h / 256, 2);
    NoBorrowIs(x / 256 / 256, h / 256 / 256, 1);
    NoBorrowIs(x / 256 / 256 / 256, h / 256 / 256 / 256, 0);
  }

  lemma SubJoin(a: Octet, b: Octet, c: Octet, d: Octet, e: Octet, f: Octet, g: Octet, i: Octet)
    requires a >= e && b >= f && c >= g && d >= i
    ensures Join(a, b, c, d) >= Join(e, f, g, i)
    ensures Join(a, b, c, d) - Join(e, f, g, i) == Join(a - e, b - f, c - g, d - i)
  {
  }

  // ---------- bitwise or ----------

  lemma OrHalves(a: nat, b: nat)
    ensures Or(a, b) == 2 * Or(a / 2, b / 2) + if a % 2 == 1 || b % 2 == 1 then 1 else 0
  {
  }

  lemma {:induction false} OrBound(a: nat, b: nat, j: nat)
    requires a < Pow2(j) && b < Pow2(j)
    ensures Or(a, b) < Pow2(j)
    decreases j
  {
    if a != 0 && b != 0 { OrBound(a / 2, b / 2, j - 1); }
  }

  lemma OrStep(a: nat, b: nat, o: nat, x: nat, u: nat)
    requires Or(a + x / 2, b + u / 2) == o + Or(x / 2, u / 2)
    ensures Or(2 * a + x, 2 * b + u) == 2 * o + Or(x, u)
  {
    hide Or;
    assert (2 * a + x) / 2 == a + x / 2 && (2 * a + x) % 2 == x % 2;
    assert (2 * b + u) / 2 == b + u / 2 && (2 * b + u) % 2 == u % 2;
    OrHalves(2 * a + x, 2 * b + u);
    OrHalves(x, u);
  }

  lemma Doubling(q: nat, y: nat)
    ensures (2 * q) * y == 2 * (q * y)
  {
  }

  /** Or of the low `j` bits and of the rest apart. */
  lemma {:induction false} OrSplit(y: nat, x: nat, v: nat, u: nat, j: nat)
    requires x < Pow2(j) && u < Pow2(j)
    ensures Or(Pow2(j) * y + x, Pow2(j) * v + u) == Pow2(j) * Or(y, v) + Or(x, u)
    decreases j
  {
    hide Or;
    if j == 0 {
      assert x == 0 && u == 0;
      OrNothing();
    } else {
      var q := Pow2(j - 1);
      OrSplit(y, x / 2, v, u / 2, j - 1);
      OrStep(q * y, q * v, q * Or(y, v), x, u);
      Doubling(q, y);
      Doubling(q, v);
      Doubling(q, Or(y, v));
    }
  }

  lemma OrNothing()
    ensures Or(0, 0) == 0
  {
  }

  lemma OrOctet(y: nat, x: Octet, v: nat, u: Octet)
    ensures Or(y * 256 + x, v * 256 + u) == Or(y, v) * 256 + Or(x, u) && Or(x, u) < 256
  {
    Pow8();
    OrSplit(y, x, v, u, 8);
    OrBound(x, u, 8);
  }

  lemma OrJoin(a: Octet, b: Octet, c: Octet, d: Octet, e: Octet, f: Octet, g: Octet, h: Octet)
    ensures Or(a, e) < 256 && Or(b, f) < 256 && Or(c, g) < 256 && Or(d, h) < 256
    ensures Or(Join(a, b, c, d), Join(e, f, g, h)) == Join(Or(a, e), Or(b, f), Or(c, g), Or(d, h))
  {
    hide Or;
    OrOctet(0, a, 0, e);
    OrOctet(a, b, e, f);
    var p, q := a * 256 + b, e * 256 + f;
    OrOctet(p, c, q, g);
    var r, s := p * 256 + c, q * 256 + g;
    OrOctet(r, d, s, h);
    assert Or(r, s) == (Or(a, e) * 256 + Or(b, f)) * 256 + Or(c, g);
  }

  /** Bitwise or does not mind the byte order. */
  lemma OrSwap(w: Word, v: Word)
    ensures Or(w, v) < 0x1_0000_0000 && Or(Swap(w), Swap(v)) == Swap(Or(w, v))
  {
    hide Or;
    Octets(w);
    Octets(v);
    var a, b, c, d := w / 256 / 256 / 256, w / 256 / 256 % 256, w / 256 % 256, w % 256;
    var e, f, g, h := v / 256 / 256 / 256, v / 256 / 256 % 256, v / 256 % 256, v % 256;
    OrJoin(a, b, c, d, e, f, g, h);
    OrJoin(d, c, b, a, h, g, f, e);
    JoinOctets(Or(a, e), Or(b, f), Or(c, g), Or(d, h));
  }

  lemma {:induction false} OrFull(r: nat, k: nat)
    requires r < Pow2(k)
    ensures Or(r, Pow2(k) - 1) == Pow2(k) - 1
    decreases k
  {
    if k > 0 {
      var q := Pow2(k - 1);
      assert (2 * q - 1) / 2 == q - 1 && (2 * q - 1) % 2 == 1;
      OrHalves(r, 2 * q - 1);
      OrFull(r / 2, k - 1);
    }
  }

  // ---------- ipcalc ----------

  /** ipcalc: the number of hosts less one, and the last and first host addresses. */
  function IpCalc(address: Word, netmask: Word): (Word, Word, Word)
    requires Or(address, 0xffff_ffff - netmask) < 0x1_0000_0000
  {
    var hosts := Sub(Swap(Sub(0xffff_ffff, netmask)), 2);
    var hostmax := Sub(Or(address, 0xffff_ffff - netmask), Swap(1));
    (hosts, hostmax, Sub(hostmax, Swap(hosts)))
  }

  lemma NoBorrowRest(x: nat, octets: nat)
    ensures NoBorrow(x, 0, octets)
  {
    if octets > 0 { NoBorrowRest(x / 256, octets - 1); }
  }

  lemma FullLowOctet(x: nat, z: nat)
    requires x == 256 * z + 255
    ensures x % 256 == 255 && x / 256 == z
  {
  }

  /** Host bits all set against host bits all set. */
  lemma {:induction false} OnesNoBorrow(n: nat, k: nat, octets: nat)
    ensures NoBorrow(n * Pow2(k) + Pow2(k) - 1, Pow2(k) - 1, octets)
    decreases octets
  {
    hide Pow2, NoBorrow;
    var x, h := n * Pow2(k) + Pow2(k) - 1, Pow2(k) - 1;
    if octets == 0 {
      NoBorrowNone(x, h);
    } else {
      NoBorrowIs(x, h, octets - 1);
      if k >= 8 {
        var q := Pow2(k - 8);
        Pow8();
        Pow2Add(8, k - 8);
        Scale(n, 256, q);
        FullLowOctet(x, n * q + q - 1);
        FullLowOctet(h, q - 1);
        OnesNoBorrow(n, k - 8, octets - 1);
      } else {
        LowOnes(n, k);
        Pow8();
        Pow2Mono(k, 8);
        SmallOctet(h);
        NoBorrowRest(x / 256, octets - 1);
      }
    }
  }

  lemma NoBorrowNone(x: nat, h: nat)
    ensures NoBorrow(x, h, 0)
  {
  }

  lemma SmallOctet(h: nat)
    requires h < 256
    ensures h / 256 == 0 && h % 256 == h
  {
  }

  lemma Scale(n: int, p: int, q: int)
    ensures n * (p * q) == p * (n * q)
  {
  }

  lemma Remainder(p: int, t: int, r: int)
    requires p >= 0 && r == p * t + p - 1 && r >= 0
    ensures p - 1 <= r
  {
    assert t <= -1 ==> p * t <= -p;
    assert t >= 0 ==> p * t >= 0;
  }

  /** The low octet of a number with its `k` low bits set. */
  lemma LowOnes(n: nat, k: nat)
    requires k < 8
    ensures Pow2(k) - 1 <= (n * Pow2(k) + Pow2(k) - 1) % 256
  {
    hide Pow2;
    var p, q := Pow2(k), Pow2(8 - k);
    Pow8();
    Pow2Add(k, 8 - k);
    var x := n * p + p - 1;
    var m, r := x / 256, x % 256;
    Scale(m, p, q);
    assert p * (n - m * q) == p * n - p * (m * q);
    Remainder(p, n - m * q, r);
  }

  lemma {:induction false} TopNoBorrow(h: Word)
    ensures NoBorrow(0xffff_ffff, h, 4)
  {
    assert NoBorrow(0xff, h / 256 / 256 / 256, 1);
    assert NoBorrow(0xffff, h / 256 / 256, 2);
    assert NoBorrow(0xff_ffff, h / 256, 3);
  }

  /** The low octet of the host bits is at least 3. */
  lemma LowHostBits(k: nat)
    requires 2 <= k
    ensures Pow2(k) >= 4 && (Pow2(k) - 1) % 256 >= 3
  {
    Pow2Mono(2, k);
    assert Pow2(2) == 4;
    if k < 8 {
      Pow8();
      Pow2Mono(k, 8);
    } else {
      Pow8();
      Pow2Add(8, k - 8);
      FullLowOctet(Pow2(k) - 1, Pow2(k - 8) - 1);
    }
  }

  /** Taking a little from two low octets that can spare it. */
  lemma LessNoBorrow(x: nat, h: nat, i: nat, j: nat)
    requires NoBorrow(x, h, 4) && i <= j <= h % 256
    ensures x >= i && h >= j && NoBorrow(x - i, h - j, 4)
  {
    assert (x - i) / 256 == x / 256 && (x - i) % 256 == x % 256 - i;
    assert (h - j) / 256 == h / 256 && (h - j) % 256 == h % 256 - j;
    assert NoBorrow(x / 256, h / 256, 3);
    hide NoBorrow;
    NoBorrowIs(x - i, h - j, 3);
  }

  lemma NoBorrowIs(x: nat, h: nat, octets: nat)
    ensures NoBorrow(x, h, octets + 1) <==> x % 256 >= h % 256 && NoBorrow(x / 256, h / 256, octets)
  {
  }

  /** The host number `n` of a network of prefix 32 - k, with host bits `r`. */
  function Host(n: nat, r: nat, k: nat): Word
    requires k <= 32 && n < Pow2(32 - k) && r < Pow2(k)
  {
    HostFits(n, r, k);
    n * Pow2(k) + r
  }

  lemma HostFits(n: nat, r: nat, k: nat)
    requires k <= 32 && n < Pow2(32 - k) && r < Pow2(k)
    ensures n * Pow2(k) + r < 0x1_0000_0000
  {
    hide Pow2;
    Pow2Add(32 - k, k);
    Pow32();
    Below(n, Pow2(32 - k), Pow2(k));
  }

  /** The netmask of prefix 32 - k. */
  function Mask32(k: nat): Word
    requires k <= 32
  {
    Pow32();
    Pow2Mono(k, 32);
    0x1_0000_0000 - Pow2(k)
  }

  /** For every address and contiguous mask of prefix 1 to 30 no octet borrows: the first host is the
      network address plus 1, the last the broadcast address less 1, and `hosts` is their distance. */
  lemma Calc(n: nat, r: nat, k: nat)
    requires 2 <= k <= 31 && n < Pow2(32 - k) && r < Pow2(k)
    ensures var address, netmask, ones := Swap(Host(n, r, k)), Swap(Mask32(k)), Pow2(k) - 1;
      Or(address, 0xffff_ffff - netmask) < 0x1_0000_0000 &&
      NoBorrow(Host(n, ones, k), 1, 4) && NoBorrow(Host(n, ones - 1, k), ones - 2, 4) &&
      IpCalc(address, netmask) == (ones - 2, Swap(Host(n, ones - 1, k)), Swap(Host(n, 1, k)))
  {
    hide Pow2, Or, NoBorrow, Swap, Host, Mask32;
    var p := Pow2(k);
    LowHostBits(k);
    MaskIs(k);
    HostDiff(n, p - 1, p - 2, k);
    HostDiff(n, p - 2, 1, k);
    var top := Host(n, p - 1, k);
    // the mask
    TopNoBorrow(Mask32(k));
    SubSwap(0xffff_ffff, Mask32(k));
    SwapTop();
    SwapTwice(p - 1);
    // the broadcast address
    OrSwap(Host(n, r, k), p - 1);
    OrTop(n, r, k);
    // the subtractions
    TopOnes(n, k);
    OneNoBorrow(top, p - 1);
    SubSwap(top, 1);
    LessNoBorrow(top, p - 1, 1, 2);
    SubSwap(Host(n, p - 2, k), p - 3);
  }

  lemma OneNoBorrow(x: nat, h: nat)
    requires NoBorrow(x, h, 4) && h % 256 >= 1
    ensures NoBorrow(x, 1, 4)
  {
    hide NoBorrow;
    NoBorrowIs(x, h, 3);
    NoBorrowRest(x / 256, 3);
    NoBorrowIs(x, 1, 3);
  }

  lemma HostDiff(n: nat, r: nat, s: nat, k: nat)
    requires k <= 32 && n < Pow2(32 - k) && r < Pow2(k) && s < Pow2(k)
    ensures Host(n, r, k) - Host(n, s, k) == r - s
  {
    hide Pow2;
  }

  lemma OrTop(n: nat, r: nat, k: nat)
    requires k <= 32 && n < Pow2(32 - k) && r < Pow2(k)
    ensures Or(Host(n, r, k), Pow2(k) - 1) == Host(n, Pow2(k) - 1, k)
  {
    hide Pow2, Or;
    OrHost(n, r, k);
  }

  lemma TopOnes(n: nat, k: nat)
    requires k <= 32 && n < Pow2(32 - k)
    ensures NoBorrow(Host(n, Pow2(k) - 1, k), Pow2(k) - 1, 4)
  {
    hide Pow2, NoBorrow;
    OnesNoBorrow(n, k, 4);
  }

  lemma MaskIs(k: nat)
    requires k <= 32
    ensures Mask32(k) + Pow2(k) == 0x1_0000_0000
  {
    hide Pow2;
  }

  /** So it is for prefix 0. */
  lemma CalcWhole(address: Word)
    ensures Or(address, 0xffff_ffff) < 0x1_0000_0000
    ensures IpCalc(address, 0) == (0xffff_fffd, Swap(0xffff_fffe), Swap(1))
  {
    hide Or, Pow2, Swap;
    Pow32();
    OrFull(address, 32);
    SwapTop();
    SwapWhole();
  }

  lemma SwapWhole()
    ensures Swap(1) == 0x100_0000 && Swap(0xffff_fffd) == 0xfdff_ffff && Swap(0xffff_fffe) == 0xfeff_ffff
  {
    hide Swap;
    SwapJoin(0, 0, 0, 1);
    SwapJoin(0xff, 0xff, 0xff, 0xfd);
    SwapJoin(0xff, 0xff, 0xff, 0xfe);
  }

  lemma SwapJoin(a: Octet, b: Octet, c: Octet, d: Octet)
    ensures Swap(Join(a, b, c, d)) == Join(d, c, b, a)
  {
    JoinOctets(a, b, c, d);
    hide Join;
  }

  /** For the prefixes 31 and 32 the number of hosts wraps around below zero. */
  lemma CalcWraps(address: Word, k: nat)
    requires k < 2 && Or(address, 0xffff_ffff - Swap(Mask32(k))) < 0x1_0000_0000
    ensures IpCalc(address, Swap(Mask32(k))).0 == 0x1_0000_0000 + Pow2(k) - 3 >= 0xffff_fffe
  {
    hide Or, NoBorrow, Swap;
    TopNoBorrow(Mask32(k));
    SubSwap(0xffff_ffff, Mask32(k));
    SwapTop();
    SwapTwice(Pow2(k) - 1);
  }

  lemma SwapTop()
    ensures Swap(0xffff_ffff) == 0xffff_ffff
  {
  }

  lemma OrHost(n: nat, r: nat, k: nat)
    requires r < Pow2(k)
    ensures Or(n * Pow2(k) + r, Pow2(k) - 1) == n * Pow2(k) + Pow2(k) - 1
  {
    hide Or, Pow2;
    OrSplit(n, r, 0, Pow2(k) - 1, k);
    OrFull(r, k);
    OrZero(n);
    assert Pow2(k) * 0 == 0 && Pow2(k) * n == n * Pow2(k);
  }

  lemma OrZero(n: nat)
    ensures Or(n, 0) == n
  {
  }

  // ---------- the bitmap ----------

  /** allocate_bit of ippool.c: takes the lowest free bit unless it is above `bits`. */
  method TakeBit(bitmap: array<bv8>, bits: nat) returns (ret: int, bit: nat)
    requires bitmap.Length == (bits + 7) / 8 && bits < 8 * bitmap.Length
    modifies bitmap
    ensures ret == 0 || ret == 1
    ensures ret == 0 <==> forall n: nat :: n <= bits ==> n in old(BitsOf(bitmap[..]))
    ensures ret == 0 ==> bitmap[..] == old(bitmap[..])
    ensures ret == 1 ==> LowestFree(bit, old(BitsOf(bitmap[..])), bits + 1)
    ensures ret == 1 ==> BitsOf(bitmap[..]) == old(BitsOf(bitmap[..])) + {bit}
  {
    hide BitsOf;
    ghost var was := BitsOf(bitmap[..]);
    var byteSize := (bits + 7) / 8;
    var i, j := ScanFree(bitmap, byteSize);
    assert BitsOf(bitmap[..]) == was;
    if i == byteSize {
      return 0, 0;
    }
    bit := i * 8 + j;
    if bit > bits {
      return 0, bit;
    }
    SetBit(bitmap, bit);
    ret := 1;
  }

  /** free_bit of ippool.c. */
  method FreeBit(bitmap: array<bv8>, bits: nat, bit: nat) returns (ret: int)
    requires bits < 8 * bitmap.Length
    modifies bitmap
    ensures ret == if bit <= bits then 1 else 0
    ensures ret == 1 ==> BitsOf(bitmap[..]) == old(BitsOf(bitmap[..])) - {bit}
    ensures ret == 0 ==> bitmap[..] == old(bitmap[..])
  {
    if bit <= bits {
      ClearBit(bitmap, bit);
      return 1;
    }
    return 0;
  }

  // ---------- the pool ----------

  class Pool {
    const hosts: Word
    const hostmin: Word
    const hostmax: Word
    var pool: array<bv8>
    /** The first and the last usable address, as numbers: those of network `n`, but for its own and
        the broadcast address. */
    ghost const n: nat
    ghost const k: nat
    ghost const first: nat
    ghost const last: nat

    ghost predicate Valid()
      reads this
    {
      2 <= k <= 31 && n < Pow2(32 - k) && Pow2(k) >= 4 &&
      first == Host(n, 1, k) && last == Host(n, Pow2(k) - 2, k) && last == first + hosts < 0xffff_ffff &&
      hosts == Pow2(k) - 3 && hostmin == Swap(first) && hostmax == Swap(last) && pool.Length == (hosts + 7) / 8
    }

    /** The bit of an address. */
    ghost function Bit(a: nat): int { a - first }

    ghost predicate Usable(a: nat) { first <= a <= last }

    /** The usable addresses in use, as numbers. */
    ghost function Taken(): set<nat>
      reads this, pool
    {
      set a: nat | a <= last && Usable(a) && Bit(a) in BitsOf(pool[..])
    }

    /** ippool_new: nothing is in use. */
    constructor (address: Word, netmask: Word, ghost n: nat, ghost r: nat, ghost k: nat)
      requires 2 <= k <= 31 && n < Pow2(32 - k) && r < Pow2(k)
      requires address == Swap(Host(n, r, k)) && netmask == Swap(Mask32(k))
      ensures Valid() && this.n == n && this.k == k && fresh(pool) && Taken() == {} && BitsOf(pool[..]) == {}
    {
      hide Pow2, Or, Swap, Sub, Mask32;
      Calc(n, r, k);
      LowHostBits(k);
      HostFits(n, Pow2(k) - 1, k);
      this.n, this.k, this.first, this.last := n, k, Host(n, 1, k), Host(n, Pow2(k) - 2, k);
      var (hosts, hostmax, hostmin) := IpCalc(address, netmask);
      this.hosts, this.hostmax, this.hostmin := hosts, hostmax, hostmin;
      pool := new bv8[(hosts + 7) / 8](_ => 0);
    }

    /** Every usable address has its bit inside the bitmap, and the number of hosts fits an int. */
    lemma BitsFit()
      requires Valid()
      ensures hosts < 8 * ((hosts + 7) / 8) && hosts < 0x8000_0000
    {
      hide Pow2, Host, Swap;
      FourOrEights(k);
      Pow2Mono(k, 31);
      Pow31();
    }

    /** ippool_get_ip: the lowest address not in use, or nothing exactly when all are. */
    method GetIp() returns (ip: Option<Word>)
      requires Valid()
      modifies pool
      ensures Valid() && pool == old(pool)
      ensures ip == None <==> forall a: nat :: Usable(a) ==> a in old(Taken())
      ensures ip == None ==> pool[..] == old(pool[..])
      ensures ip.Some? ==>
        var a := Swap(ip.value);
        Usable(a) && a !in old(Taken()) && (forall b: nat :: Usable(b) && b < a ==> b in old(Taken())) &&
        Taken() == old(Taken()) + {a} && BitsOf(pool[..]) == old(BitsOf(pool[..])) + {Bit(a)}
    {
      hide Swap, BitsOf, Pow2, Host;
      BitsFit();
      SwapTwice(first);
      var ret, bit := TakeBit(pool, hosts);
      if ret == 0 {
        return None;
      }
      assert Bit(first + bit) == bit && first + bit !in old(Taken());
      var newAddr := Swap(hostmin) + bit;
      SwapTwice(newAddr);
      ip := Some(Swap(newAddr));
    }

    /** ippool_release_ip: the address is in use no more; anything else changes nothing.  `None` stands
        for a text that is not an address. */
    method ReleaseIp(ip: Option<Word>)
      requires Valid()
      modifies pool
      ensures Valid() && pool == old(pool)
      ensures ip == None || !Usable(Swap(ip.value)) ==> pool[..] == old(pool[..])
      ensures ip.Some? && Usable(Swap(ip.value)) ==>
        Taken() == old(Taken()) - {Swap(ip.value)} &&
        BitsOf(pool[..]) == old(BitsOf(pool[..])) - {Bit(Swap(ip.value))}
    {
      hide Swap, BitsOf, Pow2, Host;
      if ip == None {
        return;
      }
      BitsFit();
      SwapTwice(first);
      // an unsigned difference, read as int, passed on as a 64-bit size
      var diff: int := Sub(Swap(ip.value), Swap(hostmin));
      var bit: int := if diff < 0x8000_0000 then diff else diff - 0x1_0000_0000;
      var size := if bit >= 0 then bit else bit + 0x1_0000_0000_0000_0000;
      var ret := FreeBit(pool, hosts, size);
    }
  }

  lemma FourOrEights(k: nat)
    requires k >= 2
    ensures var p := Pow2(k); p >= 4 && p - 3 < 8 * ((p + 4) / 8)
  {
    hide Pow2;
    LowPowers();
    if k > 2 {
      Pow2Add(3, k - 3);
    }
  }

  lemma LowPowers()
    ensures Pow2(1) == 2 && Pow2(2) == 4 && Pow2(3) == 8
  {
  }

  lemma Pow31()
    ensures Pow2(31) == 0x8000_0000
  {
    hide Pow2;
    Pow32();
    LowPowers();
    Pow2Add(31, 1);
  }

  /** Releasing an address just obtained restores the pool. */
  method GetThenRelease(p: Pool) returns (ip: Option<Word>)
    requires p.Valid()
    modifies p.pool
    ensures p.Valid() && p.pool == old(p.pool) && BitsOf(p.pool[..]) == old(BitsOf(p.pool[..]))
  {
    hide Swap, BitsOf;
    ip := p.GetIp();
    if ip.Some? {
      p.ReleaseIp(ip);
    }
  }
}
