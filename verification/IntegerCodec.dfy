/** The conversions of INTEGER.c and NativeInteger.c between contents octets and machine words of 64 bits. */
module IntegerCodec {
  import opened Powers
  import opened Octets

  datatype Errno = EINVAL | ERANGE
  datatype Result<T> = Ok(value: T) | Err(error: Errno)

  type Long = v: int | -0x8000_0000_0000_0000 <= v < 0x8000_0000_0000_0000
  type Ulong = v: nat | v < 0x1_0000_0000_0000_0000

  lemma Base8()
    ensures Base(7) * 128 == 0x8000_0000_0000_0000 && Base(8) == 0x1_0000_0000_0000_0000
  {
    hide Base;
    BaseStep(0);
    BaseStep(1);
    BaseStep(2);
    BaseStep(3);
    BaseStep(4);
    BaseStep(5);
    BaseStep(6);
    BaseStep(7);
  }

  // ---------- the octets of a word ----------

  /** The `n` low octets of a number, most significant first. */
  function Bytes(v: nat, n: nat): seq<Byte> {
    if n == 0 then [] else Bytes(v / 256, n - 1) + [v % 256]
  }

  lemma {:induction false} BytesAre(v: nat, n: nat)
    requires v < Base(n)
    ensures |Bytes(v, n)| == n && Unsigned(Bytes(v, n)) == v
    decreases n
  {
    hide Base;
    BaseStep(0);
    if n > 0 {
      BaseStep(n - 1);
      BytesAre(v / 256, n - 1);
      UnsignedAppend(Bytes(v / 256, n - 1), v % 256);
    }
  }

  /** A long read as an unsigned long. */
  function AsUlong(v: Long): Ulong {
    if v >= 0 then v else v + 0x1_0000_0000_0000_0000
  }

  lemma LongBytes(v: Long)
    ensures |Bytes(AsUlong(v), 8)| == 8 && Signed(Bytes(AsUlong(v), 8)) == v
  {
    hide Bytes;
    Base8();
    BytesAre(AsUlong(v), 8);
    var s := Bytes(AsUlong(v), 8);
    UnsignedBound(s);
    FirstByte(s, v);
  }

  lemma FirstByte(s: seq<Byte>, v: Long)
    requires |s| == 8 && Unsigned(s) == AsUlong(v)
    ensures s[0] >= 128 <==> v < 0
  {
    hide Base;
    Base8();
    UnsignedBound(s);
    var p: int, a: int := Base(7), s[0];
    if a >= 128 { Scaled(128, a, p); } else { Scaled(a + 1, 128, p); }
  }

  lemma StrippedFrom(s: seq<Byte>, b: nat)
    requires b < |s| && Stripped(s[b..]) == Stripped(s)
    ensures b + 1 < |s| && Superfluous(s[b], s[b + 1]) ==> Stripped(s[b + 1..]) == Stripped(s)
    ensures !(b + 1 < |s| && Superfluous(s[b], s[b + 1])) ==> Stripped(s) == s[b..]
  {
    assert s[b..][1..] == s[b + 1..];
  }

  class Integer {
    var buf: array?<Byte>
    var size: nat

    ghost predicate Valid()
      reads this
    {
      buf != null ==> size <= buf.Length
    }

    ghost function Contents(): seq<Byte>
      reads this, buf
      requires Valid() && buf != null
    {
      buf[..size]
    }

    constructor ()
      ensures buf == null && size == 0
    {
      buf, size := null, 0;
    }

    /** Drops leading octets, moving the rest to the front of the buffer. */
    method ShiftDown(shift: nat)
      requires Valid() && buf != null && shift <= size
      modifies `size, buf
      ensures Valid() && Contents() == old(Contents())[shift..]
    {
      ghost var s := buf[..size];
      size := size - shift;
      var nb, b := 0, shift;
      while nb < size
        invariant nb <= size && b == nb + shift && size + shift == |s| <= buf.Length
        invariant buf[..nb] == s[shift..b] && buf[b..|s|] == s[b..]
      {
        assert buf[b] == buf[b..|s|][0] == s[b];
        buf[nb] := buf[b];
        nb, b := nb + 1, b + 1;
      }
      assert s[shift..b] == s[shift..];
    }

    /** INTEGER_encode_der, up to the writing of the contents octets: they are made minimal in place. */
    method Canonicalize()
      requires Valid()
      modifies `size, buf
      ensures Valid() && (buf != null ==> Contents() == Stripped(old(Contents())))
    {
      if buf != null && size > 0 {
        ghost var s := buf[..size];
        var b := 0;
        assert s[0..] == s;
        while b < size - 1 && Superfluous(buf[b], buf[b + 1])
          invariant unchanged(this) && unchanged(buf) && b < size && Stripped(s[b..]) == Stripped(s)
        {
          StrippedFrom(s, b);
          b := b + 1;
        }
        StrippedFrom(s, b);
        var shift := b;
        if shift != 0 {
          ShiftDown(shift);
        }
      }
    }

    /** asn_INTEGER2long: the number, or a range error exactly when it does not fit a long. */
    method ToLong() returns (r: Result<Long>)
      requires Valid()
      ensures buf == null ==> r == Err(EINVAL)
      ensures buf != null && Fits(Signed(Contents()), 8) ==> r == Ok(Signed(Contents()))
      ensures buf != null && !Fits(Signed(Contents()), 8) ==> r == Err(ERANGE)
    {
      hide Base, Unsigned, Signed, Converted;
      if buf == null {
        return Err(EINVAL);
      }
      ghost var s := buf[..size];
      var b, n := 0, size;
      assert s[0..] == s;
      if n > 8 {
        while b < size - 1 && Superfluous(buf[b], buf[b + 1])
          invariant b < size && Signed(s[b..]) == Signed(s)
        {
          assert s[b..][1..] == s[b + 1..];
          StripOne(s[b..]);
          b := b + 1;
        }
        n := size - b;
        if n > 8 {
          MinimalTight(s[b..], 8);
          return Err(ERANGE);
        }
      }
      ghost var t := s[b..];
      Word8Fits(t);
      if size == b {
        NoOctets();
        return Ok(0);
      }
      var first := buf[b];
      var l: int := if first >= 128 then -1 else 0;
      ghost var k := 0;
      ConvertStart(t);
      while b < size
        invariant k <= |t| && b + |t| == size + k && s[b..] == t[k..]
        invariant l == Converted(t, k)
      {
        assert buf[b] == s[b..][0] == t[k];
        ConvertStep(t, k);
        l := l * 256 + buf[b];
        b, k := b + 1, k + 1;
      }
      ConvertEnd(t);
      r := Ok(l);
    }

    /** asn_INTEGER2ulong: the octets read as an unsigned number, or a range error exactly when that does
        not fit an unsigned long. */
    method ToUlong() returns (r: Result<Ulong>)
      requires Valid()
      ensures buf == null ==> r == Err(EINVAL)
      ensures buf != null && Unsigned(Contents()) < Base(8) ==> r == Ok(Unsigned(Contents()))
      ensures buf != null && Unsigned(Contents()) >= Base(8) ==> r == Err(ERANGE)
    {
      hide Base, Unsigned;
      if buf == null {
        return Err(EINVAL);
      }
      ghost var s := buf[..size];
      var b, n := 0, size;
      assert s[0..] == s;
      while n > 8
        invariant b <= size && n == size - b && Unsigned(s[b..]) == Unsigned(s)
      {
        if buf[b] != 0 {
          TooLarge(s[b..]);
          return Err(ERANGE);
        }
        assert s[b..][1..] == s[b + 1..];
        ZeroFirst(s[b..]);
        b, n := b + 1, n - 1;
      }
      ghost var t, k := s[b..], 0;
      Word8Bound(t);
      var l: int := 0;
      NoOctets();
      while b < size
        invariant k <= |t| && b + |t| == size + k && s[b..] == t[k..]
        invariant l == Unsigned(t[..k])
      {
        assert buf[b] == s[b..][0] == t[k];
        assert t[..k + 1] == t[..k] + [t[k]];
        UnsignedAppend(t[..k], t[k]);
        l := l * 256 + buf[b];
        b, k := b + 1, k + 1;
      }
      assert t[..k] == t;
      Base8();
      r := Ok(l);
    }

    /** asn_long2INTEGER: the shortest two's complement octets of a long. */
    method FromLong(value: Long)
      modifies this
      ensures Valid() && buf != null && fresh(buf)
      ensures Minimal(Contents()) && Signed(Contents()) == value
    {
      hide Bytes, Base, Signed, Stripped;
      // the bytes of the machine word, most significant first
      var bytes := Bytes(AsUlong(value), 8);
      LongBytes(value);
      StrippedIs(bytes);
      var newBuf := new Byte[8];
      var p := 0;
      assert bytes[0..] == bytes;
      while p != 7 && Superfluous(bytes[p], bytes[p + 1])
        invariant p <= 7 && Stripped(bytes[p..]) == Stripped(bytes)
      {
        StrippedFrom(bytes, p);
        p := p + 1;
      }
      StrippedFrom(bytes, p);
      ghost var start := p;
      var bp := 0;
      while p != 8
        invariant start <= p <= 8 && bp == p - start && newBuf[..bp] == bytes[start..p]
        decreases 8 - p
      {
        newBuf[bp] := bytes[p];
        bp, p := bp + 1, p + 1;
      }
      buf := newBuf;
      size := bp;
      assert bytes[start..8] == bytes[start..];
    }

    /** asn_ulong2INTEGER: the shortest two's complement octets of an unsigned long. */
    method FromUlong(value: Ulong)
      modifies this
      ensures Valid() && buf != null && fresh(buf)
      ensures Minimal(Contents()) && Signed(Contents()) == value && Unsigned(Contents()) == value
    {
      hide Bytes, Base;
      if value <= 0x7fff_ffff_ffff_ffff {
        FromLong(value);
        NotNegative(Contents());
        return;
      }
      Base8();
      BytesAre(value, 8);
      var bytes := Bytes(value, 8);
      var newBuf := new Byte[9](_ => 0);
      var b := 1;
      while b < 9
        invariant 1 <= b <= 9 && newBuf[0] == 0 && newBuf[1..b] == bytes[..b - 1]
      {
        newBuf[b] := bytes[b - 1];
        b := b + 1;
      }
      buf := newBuf;
      size := 9;
      ghost var s := buf[..size];
      assert s == [0] + bytes && s[1..] == bytes;
      FirstByte(bytes, value - 0x1_0000_0000_0000_0000);
      ZeroFirst(s);
    }
  }

  // ---------- native integers ----------

  /** The contents octets of a native integer: those of its word, made minimal. */
  function Encoded(native: Ulong): seq<Byte> {
    Stripped(Bytes(native, 8))
  }

  /** NativeInteger_encode_der, up to the writing of the contents octets. */
  method EncodeNative(value: Ulong) returns (contents: seq<Byte>)
    ensures contents == Encoded(value)
  {
    hide Stripped;
    var buf := new Byte[8];
    var native: nat, p: int := value, 7;
    while p >= 0
      invariant -1 <= p <= 7 && buf[p + 1..] + [] == buf[p + 1..]
      invariant Bytes(native, p + 1) + buf[p + 1..] == Bytes(value, 8)
    {
      buf[p] := native % 256;
      assert buf[p..] == [native % 256] + buf[p + 1..];
      p, native := p - 1, native / 256;
    }
    var tmp := new Integer();
    tmp.buf, tmp.size := buf, 8;
    assert tmp.Contents() == Bytes(value, 8);
    tmp.Canonicalize();
    contents := tmp.buf[..tmp.size];
  }

  /** The value part of NativeInteger_decode_ber; a failure is RC_FAIL. */
  method DecodeNative(contents: array<Byte>, fieldUnsigned: bool) returns (r: Result<int>)
    ensures fieldUnsigned ==> r == if Unsigned(contents[..]) < Base(8) then Ok(Unsigned(contents[..])) else Err(ERANGE)
    ensures !fieldUnsigned ==> r == if Fits(Signed(contents[..]), 8) then Ok(Signed(contents[..])) else Err(ERANGE)
  {
    hide Base, Unsigned, Signed;
    var tmp := new Integer();
    tmp.buf, tmp.size := contents, contents.Length;
    assert tmp.Contents() == contents[..];
    if fieldUnsigned {
      r := tmp.ToUlong();
    } else {
      r := tmp.ToLong();
    }
  }

  /** Every signed value comes back, from its shortest octets. */
  lemma NativeSigned(v: Long)
    ensures Minimal(Encoded(AsUlong(v))) && Fits(Signed(Encoded(AsUlong(v))), 8) && Signed(Encoded(AsUlong(v))) == v
  {
    hide Bytes, Stripped;
    LongBytes(v);
    StrippedIs(Bytes(AsUlong(v), 8));
    Word8Fits(Encoded(AsUlong(v)));
  }

  lemma {:induction false} ZerosStripped(s: seq<Byte>)
    requires s != [] && s[0] < 128
    ensures Unsigned(Stripped(s)) == Unsigned(s)
    decreases s
  {
    if |s| > 1 && Superfluous(s[0], s[1]) {
      StripOne(s);
      ZerosStripped(s[1..]);
    }
  }

  lemma TopNineBits(s: seq<Byte>)
    requires |s| == 8
    ensures s[0] == 0xff && s[1] >= 128 <==> Unsigned(s) >= 0xff80_0000_0000_0000
  {
    hide Base;
    Base8();
    BaseStep(6);
    UnsignedBound(s);
    UnsignedBound(s[1..]);
    var q: int, a: int, b: int := Base(6), s[0], s[1];
    if a < 255 {
      Scaled(a + 1, 255, 256 * q);
    } else if b < 128 {
      Scaled(b + 1, 128, q);
    } else {
      Scaled(128, b, q);
    }
  }

  /** An unsigned value comes back exactly when its top nine bits are not all ones. */
  lemma NativeUnsigned(v: Ulong)
    ensures Unsigned(Encoded(v)) < Base(8)
    ensures Unsigned(Encoded(v)) == v <==> v < 0xff80_0000_0000_0000
  {
    hide Bytes, Base;
    Base8();
    var s := Bytes(v, 8);
    BytesAre(v, 8);
    TopNineBits(s);
    StrippedIs(s);
    var t := Stripped(s);
    Word8Bound(t);
    if s[0] < 128 {
      ZerosStripped(s);
      Word8Bound(s);
      FirstByteBound(s);
    } else if s[0] == 0xff && s[1] >= 128 {
      StrippedIs(s[1..]);
      UnsignedBound(t);
      BaseMono(|t|, 7);
    }
  }

  lemma FirstByteBound(s: seq<Byte>)
    requires |s| == 8 && s[0] < 128
    ensures Unsigned(s) < 0x8000_0000_0000_0000
  {
    hide Base;
    Base8();
    UnsignedBound(s);
    var a: int := s[0];
    Scaled(a + 1, 128, Base(7));
  }

  lemma NoOctets()
    ensures Unsigned([]) == 0 && Signed([]) == 0
  {
  }

  lemma ZeroFirst(s: seq<Byte>)
    requires s != [] && s[0] == 0
    ensures Unsigned(s) == Unsigned(s[1..]) && Signed(s) == Unsigned(s)
  {
  }

  lemma NotNegative(s: seq<Byte>)
    requires Signed(s) >= 0
    ensures Unsigned(s) == Signed(s)
  {
    UnsignedBound(s);
  }

  lemma Word8Fits(t: seq<Byte>)
    requires |t| <= 8
    ensures Fits(Signed(t), 8) && -0x8000_0000_0000_0000 <= Signed(t) < 0x8000_0000_0000_0000
  {
    hide Base;
    Base8();
    if t != [] {
      SignedFits(t);
      FitsMore(Signed(t), |t|, 8);
    }
  }

  lemma Word8Bound(t: seq<Byte>)
    requires |t| <= 8
    ensures Unsigned(t) < Base(8)
  {
    hide Base;
    UnsignedBound(t);
    BaseMono(|t|, 8);
  }

  lemma TooLarge(t: seq<Byte>)
    requires |t| > 8 && t[0] != 0
    ensures Unsigned(t) >= Base(8)
  {
    hide Base;
    UnsignedBound(t);
    BaseMono(8, |t| - 1);
    var a: int := t[0];
    Scaled(1, a, Base(|t| - 1));
  }

  /** The long built so far from the first `k` octets: the sign above them. */
  ghost function Converted(t: seq<Byte>, k: nat): int
    requires k <= |t| && t != []
  {
    Unsigned(t[..k]) - if t[0] >= 128 then Base(k) else 0
  }

  lemma ConvertStart(t: seq<Byte>)
    requires t != []
    ensures Converted(t, 0) == if t[0] >= 128 then -1 else 0
  {
    BaseStep(0);
  }

  lemma ConvertStep(t: seq<Byte>, k: nat)
    requires k < |t|
    ensures Converted(t, k + 1) == Converted(t, k) * 256 + t[k]
  {
    hide Base;
    assert t[..k + 1] == t[..k] + [t[k]];
    UnsignedAppend(t[..k], t[k]);
    BaseStep(k);
  }

  lemma ConvertEnd(t: seq<Byte>)
    requires t != []
    ensures Converted(t, |t|) == Signed(t)
  {
    assert t[..|t|] == t;
  }
}
