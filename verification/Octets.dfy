/** Octet strings as numbers: two's complement, and its minimal form (section 8.3 of ITU-T X.690). */
module Octets {
  import opened Powers

  type Byte = b: nat | b < 256

  /** Eight bits per octet. */
  function Base(n: nat): nat { Pow2(8 * n) }

  ghost function Unsigned(s: seq<Byte>): nat {
    if s == [] then 0 else s[0] * Base(|s| - 1) + Unsigned(s[1..])
  }

  /** The two's complement number of contents octets; no octets stand for 0. */
  ghost function Signed(s: seq<Byte>): int {
    if s != [] && s[0] >= 128 then Unsigned(s) - Base(|s|) else Unsigned(s)
  }

  /** The first octet only repeats the sign of the second. */
  predicate Superfluous(a: Byte, b: Byte) {
    (a == 0x00 && b < 128) || (a == 0xff && b >= 128)
  }

  /** The bits of the first octet and bit 8 of the second are neither all ones nor all zero. */
  predicate Minimal(s: seq<Byte>) {
    s != [] && (|s| > 1 ==> !Superfluous(s[0], s[1]))
  }

  function Stripped(s: seq<Byte>): seq<Byte> {
    if |s| > 1 && Superfluous(s[0], s[1]) then Stripped(s[1..]) else s
  }

  lemma BaseStep(n: nat)
    ensures Base(0) == 1 && Base(n + 1) == 256 * Base(n)
  {
    Pow8();
    Pow2Add(8, 8 * n);
  }

  lemma {:induction false} UnsignedBound(s: seq<Byte>)
    ensures Unsigned(s) < Base(|s|)
    ensures s != [] ==> s[0] * Base(|s| - 1) <= Unsigned(s) < (s[0] + 1) * Base(|s| - 1)
    decreases s
  {
    hide Base;
    BaseStep(0);
    if s != [] {
      BaseStep(|s| - 1);
      UnsignedBound(s[1..]);
      var p: int, a: int := Base(|s| - 1), s[0];
      assert (a + 1) * p == a * p + p;
      Below(a, 256, p);
    }
  }

  /** One octet more at the end. */
  lemma {:induction false} UnsignedAppend(s: seq<Byte>, b: Byte)
    ensures Unsigned(s + [b]) == 256 * Unsigned(s) + b
    decreases s
  {
    hide Base;
    BaseStep(0);
    if s == [] {
      assert (s + [b])[1..] == [];
    } else {
      assert (s + [b])[1..] == s[1..] + [b] && (s + [b])[0] == s[0];
      UnsignedAppend(s[1..], b);
      BaseStep(|s| - 1);
      var p: int, a: int := Base(|s| - 1), s[0];
      assert a * (256 * p) == 256 * (a * p);
    }
  }

  /** A superfluous first octet adds nothing. */
  lemma StripOne(s: seq<Byte>)
    requires |s| > 1 && Superfluous(s[0], s[1])
    ensures Signed(s[1..]) == Signed(s)
    ensures s[0] == 0 ==> Unsigned(s[1..]) == Unsigned(s)
  {
    hide Base;
    BaseStep(|s| - 1);
    if s[0] == 0xff {
      var p: int := Base(|s| - 1);
      assert 255 * p - 256 * p == -p;
    }
  }

  /** Stripping keeps the number and leaves the minimal form. */
  lemma {:induction false} StrippedIs(s: seq<Byte>)
    ensures Signed(Stripped(s)) == Signed(s) && |Stripped(s)| <= |s|
    ensures s != [] ==> Minimal(Stripped(s))
    ensures Stripped(s) == s[|s| - |Stripped(s)|..]
    decreases s
  {
    if |s| > 1 && Superfluous(s[0], s[1]) {
      StripOne(s);
      StrippedIs(s[1..]);
    }
  }

  /** The numbers that `n` octets can hold. */
  ghost predicate Fits(v: int, n: nat)
    requires n >= 1
  {
    -128 * Base(n - 1) <= v < 128 * Base(n - 1)
  }

  lemma SignedFits(s: seq<Byte>)
    requires s != []
    ensures Fits(Signed(s), |s|)
  {
    hide Base;
    UnsignedBound(s);
    BaseStep(|s| - 1);
    var p: int, a: int := Base(|s| - 1), s[0];
    if a >= 128 {
      Scaled(128, a, p);
      Scaled(a + 1, 256, p);
    } else {
      Scaled(a + 1, 128, p);
      Scaled(0, a, p);
    }
  }

  lemma Scaled(a: int, b: int, p: nat)
    requires a <= b
    ensures a * p <= b * p
  {
  }

  lemma FitsMore(v: int, m: nat, n: nat)
    requires 1 <= m <= n && Fits(v, m)
    ensures Fits(v, n)
  {
    hide Base;
    BaseMono(m - 1, n - 1);
  }

  lemma BaseMono(m: nat, n: nat)
    requires m <= n
    ensures Base(m) <= Base(n)
  {
    Pow2Mono(8 * m, 8 * n);
  }

  /** The minimal form needs all its octets. */
  lemma MinimalTight(s: seq<Byte>, n: nat)
    requires Minimal(s) && 1 <= n < |s|
    ensures !Fits(Signed(s), n)
  {
    hide Base;
    var t := s[1..];
    UnsignedBound(s);
    UnsignedBound(t);
    BaseStep(|t|);
    BaseStep(|t| - 1);
    BaseMono(n, |t|);
    BaseMono(n - 1, |t| - 1);
    var q: int, a: int, b: int := Base(|t| - 1), s[0], t[0];
    // Base(|t|) == 256 * q and Base(|s|) == 256 * Base(|t|)
    if a == 0 {
      Scaled(128, b, q);
    } else if a == 255 {
      Scaled(b + 1, 128, q);
    } else if a < 128 {
      Scaled(1, a, Base(|t|));
    } else {
      Scaled(a + 1, 255, Base(|t|));
    }
  }

  /** The minimal form is the shortest: no other octets of the same number are fewer. */
  lemma MinimalShortest(s: seq<Byte>, t: seq<Byte>)
    requires Minimal(s) && t != [] && Signed(s) == Signed(t)
    ensures |s| <= |t|
  {
    SignedFits(t);
    if |t| < |s| { MinimalTight(s, |t|); }
  }

  lemma {:induction false} UnsignedInjective(s: seq<Byte>, t: seq<Byte>)
    requires |s| == |t| && Unsigned(s) == Unsigned(t)
    ensures s == t
    decreases s
  {
    hide Base;
    if s != [] {
      UnsignedBound(s);
      UnsignedBound(t);
      var p := Base(|s| - 1);
      if s[0] < t[0] { Scaled(s[0] + 1, t[0], p); }
      if t[0] < s[0] { Scaled(t[0] + 1, s[0], p); }
      assert s[0] == t[0];
      UnsignedInjective(s[1..], t[1..]);
      assert s == [s[0]] + s[1..] && t == [t[0]] + t[1..];
    }
  }

  /** ... and it is unique. */
  lemma MinimalUnique(s: seq<Byte>, t: seq<Byte>)
    requires Minimal(s) && Minimal(t) && Signed(s) == Signed(t)
    ensures s == t
  {
    hide Base;
    MinimalShortest(s, t);
    MinimalShortest(t, s);
    UnsignedBound(s);
    UnsignedBound(t);
    UnsignedInjective(s, t);
  }
}
