/** OCTET STRING and BIT STRING in BER: the resumable primitive phase of the decoder, with its doubling
    buffer, and the contents octets of the encoder (sections 8.6 and 11.2 of ITU-T X.690). */
module OctetString {
  import opened Powers
  import opened Octets
  import opened Sequences

  /** More input is wanted; the string is complete; or decoding fails. */
  datatype Code = WMore | Ok | Fail

  /** The decoder between two calls: the octets kept, the unused bits, whether anything has been
      appended yet, and how many content octets are still to come. */
  datatype Os = Os(out: seq<Byte>, unused: Byte, started: bool, left: nat)

  datatype Fed = More(s: Os) | Finished(out: seq<Byte>, unused: Byte) | Failed

  /** The largest size the doubling buffer can serve. */
  const LIMIT: nat := 0x4000_0000

  /** b & (0xff << u) */
  function Cleared(b: Byte, u: nat): Byte {
    match u
    case 0 => b
    case 1 => b / 2 * 2
    case 2 => b / 4 * 4
    case 3 => b / 8 * 8
    case 4 => b / 16 * 16
    case 5 => b / 32 * 32
    case 6 => b / 64 * 64
    case 7 => b / 128 * 128
    case _ => 0
  }

  /** The last octet without its unused bits. */
  function Trimmed(s: seq<Byte>, u: nat): seq<Byte> {
    if s == [] then s else s[..|s| - 1] + [Cleared(s[|s| - 1], u)]
  }

  // ---------- one call of the primitive phase, on values ----------

  /** The octet of unused bits comes first in a BIT STRING. */
  function TakeUnused(bit: bool, s: Os, input: seq<Byte>): (r: (Os, seq<Byte>)) {
    if bit && !s.started && s.left > 0 && input != [] then
      (s.(unused := input[0], left := s.left - 1), input[1..])
    else (s, input)
  }

  /** The appending part of a call, and the clearing of unused bits at the end. */
  function FeedBody(bit: bool, s: Os, input: seq<Byte>): Fed {
    if |input| < s.left then
      if |s.out| + |input| >= LIMIT then Failed
      else More(s.(out := s.out + input, started := true, left := s.left - |input|))
    else if |s.out| + s.left >= LIMIT then Failed
    else
      var out := s.out + input[..s.left];
      Finished(if bit then Trimmed(out, s.unused) else out, s.unused)
  }

  function Feed(bit: bool, s: Os, input: seq<Byte>): Fed {
    if input == [] && s.left > 0 then More(s)
    else
      var (t, rest) := TakeUnused(bit, s, input);
      FeedBody(bit, t, rest)
  }

  lemma BodyCompose(bit: bool, s: Os, a: seq<Byte>, b: seq<Byte>)
    ensures match FeedBody(bit, s, a)
      case More(t) => FeedBody(bit, t, b) == FeedBody(bit, s, a + b)
      case done => FeedBody(bit, s, a + b) == done
  {
    hide Trimmed;
    if |a| < s.left {
      assert |a + b| < s.left ==> s.out + (a + b) == (s.out + a) + b;
      assert |a + b| >= s.left ==> s.out + (a + b)[..s.left] == (s.out + a) + b[..s.left - |a|];
    } else {
      assert (a + b)[..s.left] == a[..s.left];
    }
  }

  /** Feeding the input in two pieces is feeding it in one. */
  lemma Compose(bit: bool, s: Os, a: seq<Byte>, b: seq<Byte>)
    ensures match Feed(bit, s, a)
      case More(t) => Feed(bit, t, b) == Feed(bit, s, a + b)
      case done => Feed(bit, s, a + b) == done
  {
    hide FeedBody;
    if a == [] {
      assert a + b == b;
      if s.left == 0 {
        BodyCompose(bit, s, a, b);
        BodyEnds(bit, s, a);
      }
    } else {
      var (t, rest) := TakeUnused(bit, s, a);
      assert (a + b)[0] == a[0] && (a + b)[1..] == a[1..] + b;
      assert TakeUnused(bit, s, a + b) == (t, rest + b);
      BodyCompose(bit, t, rest, b);
      BodyStarts(bit, t, rest);
      if b == [] { assert a + b == a; }
    }
  }

  lemma BodyStarts(bit: bool, s: Os, a: seq<Byte>)
    ensures FeedBody(bit, s, a).More? ==> FeedBody(bit, s, a).s.started && FeedBody(bit, s, a).s.left > 0
  {
  }

  lemma BodyEnds(bit: bool, s: Os, a: seq<Byte>)
    requires s.left == 0
    ensures !FeedBody(bit, s, a).More?
  {
  }

  /** Calls one after the other, until the string is complete or fails. */
  ghost function FeedAll(bit: bool, s: Os, chunks: seq<seq<Byte>>): Fed
    decreases |chunks|
  {
    if chunks == [] then More(s)
    else
      match Feed(bit, s, chunks[0])
      case More(t) => FeedAll(bit, t, chunks[1..])
      case done => done
  }

  /** Split invariance: for every way of cutting the input, the calls end as one call would. */
  lemma {:induction false} SplitInvariant(bit: bool, s: Os, chunks: seq<seq<Byte>>)
    requires chunks != []
    ensures FeedAll(bit, s, chunks) == Feed(bit, s, Flat(chunks))
    decreases chunks
  {
    hide Feed;
    Compose(bit, s, chunks[0], Flat(chunks[1..]));
    if |chunks| == 1 {
      assert chunks[0] + [] == chunks[0];
    } else if Feed(bit, s, chunks[0]).More? {
      SplitInvariant(bit, Feed(bit, s, chunks[0]).s, chunks[1..]);
    }
  }

  // ---------- the encoder ----------

  /** BIT_STRING_constraint on a value that is given. */
  predicate Constraint(s: seq<Byte>, unused: int) {
    !(s == [] && unused != 0) && 0 <= unused <= 7
  }

  lemma ConstraintIs(s: seq<Byte>, unused: int)
    ensures Constraint(s, unused) <==> if s == [] then unused == 0 else unused in {0, 1, 2, 3, 4, 5, 6, 7}
  {
  }

  /** The contents octets of an encoding. */
  function Contents(bit: bool, s: seq<Byte>, unused: Byte): seq<Byte> {
    if bit then [unused % 8] + (if unused % 8 != 0 then Trimmed(s, unused) else s) else s
  }

  lemma ClearedTwice(b: Byte, u: nat)
    ensures Cleared(Cleared(b, u), u) == Cleared(b, u) && Cleared(b, 0) == b
  {
    match u
    case 1 => assert b / 2 * 2 / 2 == b / 2;
    case 2 => assert b / 4 * 4 / 4 == b / 4;
    case 3 => assert b / 8 * 8 / 8 == b / 8;
    case 4 => assert b / 16 * 16 / 16 == b / 16;
    case 5 => assert b / 32 * 32 / 32 == b / 32;
    case 6 => assert b / 64 * 64 / 64 == b / 64;
    case 7 => assert b / 128 * 128 / 128 == b / 128;
    case _ =>
  }

  lemma TrimmedTwice(s: seq<Byte>, u: nat)
    ensures Trimmed(Trimmed(s, u), u) == Trimmed(s, u) && |Trimmed(s, u)| == |s| && Trimmed(s, 0) == s
  {
    hide Cleared;
    if s != [] { ClearedTwice(s[|s| - 1], u); }
    if s != [] { ClearedTwice(s[|s| - 1], 0); }
  }

  /** Encoding and decoding: a BIT STRING that satisfies its constraint comes back with its unused bits
      zero, and those are zero in the encoding too; an OCTET STRING comes back as it is. */
  lemma RoundTrip(bit: bool, s: seq<Byte>, unused: Byte)
    requires bit ==> Constraint(s, unused)
    requires |s| < LIMIT
    ensures var c := Contents(bit, s, unused);
      Feed(bit, Os([], 0, false, |c|), c) ==
        Finished(if bit then Trimmed(s, unused) else s, if bit then unused else 0) &&
      (bit ==> c == [unused] + Trimmed(s, unused))
  {
    hide Trimmed;
    TrimmedTwice(s, unused);
    var c := Contents(bit, s, unused);
    if bit {
      assert c[1..] == Trimmed(s, unused) && c[1..][..|s|] == c[1..];
      assert [] + c[1..] == c[1..];
    } else {
      assert c[..|s|] == s && [] + s == s;
    }
  }

  /** With more than seven unused bits their number does not come back. */
  lemma UnusedNotBack(s: seq<Byte>, unused: Byte)
    requires unused > 7 && |s| < LIMIT
    ensures var c := Contents(true, s, unused);
      var fed := Feed(true, Os([], 0, false, |c|), c); fed.Finished? && fed.unused == unused % 8 != unused
  {
    hide Trimmed;
    TrimmedTwice(s, unused);
    var c := Contents(true, s, unused);
    FeedsWhole(true, Os([], c[0], false, |c| - 1), c[1..]);
  }

  /** The last octet without its `u` unused bits: these are zero, the others as they were. */
  ghost predicate WithoutUnused(was: Byte, u: nat, now: Byte) {
    now % Pow2(u) == 0 && now / Pow2(u) == was / Pow2(u)
  }

  lemma ClearedBits(b: Byte, u: nat)
    ensures WithoutUnused(b, u, Cleared(b, u))
  {
    hide Pow2;
    if u < 8 {
      SmallPowers();
      var p := Pow2(u);
      ClearedIs(b, u);
      Divides(b / p * p, p, b / p, 0);
    } else {
      Pow8();
      Pow2Mono(8, u);
      Divides(b, Pow2(u), 0, b);
      Divides(0, Pow2(u), 0, 0);
    }
  }

  lemma SmallPowers()
    ensures Pow2(0) == 1 && Pow2(1) == 2 && Pow2(2) == 4 && Pow2(3) == 8
    ensures Pow2(4) == 16 && Pow2(5) == 32 && Pow2(6) == 64 && Pow2(7) == 128
  {
    assert Pow2(2) == 4;
    assert Pow2(4) == 16;
    assert Pow2(6) == 64;
  }

  lemma ClearedIs(b: Byte, u: nat)
    requires u < 8
    ensures Cleared(b, u) == b / Pow2(u) * Pow2(u)
  {
    hide Pow2;
    SmallPowers();
  }

  /** What is decoded from any contents octets: of an OCTET STRING all of them; of a BIT STRING all but
      the first, which counts the unused bits of the last, and these come out zero. */
  lemma DecodesTo(bit: bool, c: seq<Byte>)
    requires |c| < LIMIT || (bit && |c| == LIMIT)
    ensures var fed := Feed(bit, Os([], 0, false, |c|), c);
      fed.Finished? &&
      if !bit || c == [] then fed.out == c && fed.unused == 0
      else
        fed.unused == c[0] && |fed.out| == |c| - 1 &&
        (forall i :: 0 <= i < |c| - 2 ==> fed.out[i] == c[i + 1]) &&
        (|c| > 1 ==> WithoutUnused(c[|c| - 1], c[0], fed.out[|c| - 2]))
  {
    hide WithoutUnused, Trimmed;
    if bit && c != [] {
      var rest := c[1..];
      FeedsWhole(bit, Os([], c[0], false, |c| - 1), rest);
      TrimmedBits(rest, c[0]);
    } else {
      FeedsWhole(bit, Os([], 0, false, |c|), c);
      TrimmedTwice(c, 0);
    }
  }

  lemma FeedsWhole(bit: bool, s: Os, c: seq<Byte>)
    requires s.out == [] && s.left == |c| < LIMIT
    ensures FeedBody(bit, s, c) == Finished(if bit then Trimmed(c, s.unused) else c, s.unused)
  {
    assert c[..|c|] == c && [] + c == c;
  }

  lemma TrimmedBits(s: seq<Byte>, u: nat)
    ensures |Trimmed(s, u)| == |s| && forall i :: 0 <= i < |s| - 1 ==> Trimmed(s, u)[i] == s[i]
    ensures s != [] ==> WithoutUnused(s[|s| - 1], u, Trimmed(s, u)[|s| - 1])
  {
    hide Cleared, WithoutUnused;
    if s != [] { ClearedBits(s[|s| - 1], u); }
  }

  /** For a string of 2^30 octets and more it fails. */
  lemma DecodesNoMore(bit: bool, c: seq<Byte>)
    requires |c| > LIMIT || (!bit && |c| == LIMIT)
    ensures Feed(bit, Os([], 0, false, |c|), c) == Failed
  {
  }

  // ---------- the decoder as code ----------

  /** A size converted to int. */
  function AsInt(n: nat): int {
    var low := n % 0x1_0000_0000;
    if low < 0x8000_0000 then low else low - 0x1_0000_0000
  }

  /** A size the doubling reaches: 16 times a power of two. */
  ghost predicate Doubled(n: nat) {
    exists k: nat :: n == Pow2(k)
  }

  lemma DoubledMore(n: nat)
    requires Doubled(n)
    ensures Doubled(2 * n)
  {
    var k: nat :| n == Pow2(k);
    assert 2 * n == Pow2(k + 1);
  }

  lemma SixteenDoubled()
    ensures Doubled(16)
  {
    assert Pow2(2) == 4;
    assert Pow2(4) == 16;
  }

  /** Between 2^30 and 2^32 there is only 2^31, which is negative as an int. */
  lemma DoubledSign(n: nat)
    requires Doubled(n) && LIMIT < n < 0x1_0000_0000
    ensures n == 0x8000_0000 && AsInt(n) < 0
  {
    hide Pow2;
    var k: nat :| n == Pow2(k);
    Pow32();
    Pow2Add(31, 1);
    Pow2Add(30, 1);
    One();
    if k <= 30 {
      Pow2Mono(k, 30);
    } else if k >= 32 {
      Pow2Mono(32, k);
    }
  }

  lemma One()
    ensures Pow2(1) == 2
  {
  }

  class Decoder {
    var buf: array?<Byte>
    var size: nat
    var context: nat
    var left: nat
    var bitsUnused: Byte

    /** The buffer holds one octet more than the string, a terminating 0. */
    ghost predicate Valid()
      reads this, buf
    {
      if context == 0 then size == 0
      else
        buf != null && buf.Length == context && size < context <= LIMIT && Doubled(context) && buf[size] == 0
    }

    ghost function View(): Os
      reads this, buf
      requires Valid()
    {
      Os(if context == 0 then [] else buf[..size], bitsUnused, context > 0, left)
    }

    /** Contents octets of this length are to come. */
    constructor (left: nat)
      ensures Valid() && View() == Os([], 0, false, left) && buf == null
    {
      buf, size, context, this.left, bitsUnused := null, 0, 0, left, 0;
    }

    /** The growing part of APPEND. */
    method Grow(es: nat) returns (ok: bool)
      requires Valid() && size <= es < 0x8000_0000
      modifies `buf, `context
      ensures ok <==> es < LIMIT
      ensures ok ==> Valid() && View() == old(View()).(started := true) && es < context
      ensures ok ==> buf != null && (buf == old(buf) || fresh(buf))
    {
      var ns := context;
      if ns > es {
        return true;
      }
      SixteenDoubled();
      if ns != 0 { DoubledMore(ns); }
      ns := if ns != 0 then 2 * ns else 16;
      while ns <= es
        invariant Doubled(ns) && context < ns && (ns <= 16 || ns <= 2 * es)
        invariant unchanged(this) && Valid() && View() == old(View())
      {
        DoubledMore(ns);
        ns := 2 * ns;
      }
      if ns > LIMIT { DoubledSign(ns); }
      if AsInt(ns) < 0 {
        return false;
      }
      var ptr := new Byte[ns];
      if context > 0 {
        forall i | 0 <= i < context {
          ptr[i] := buf[i];
        }
      } else {
        ptr[0] := 0;
      }
      assert context > 0 ==> ptr[..size] == buf[..size];
      buf, context := ptr, ns;
      ok := true;
    }

    /** APPEND: fails exactly when the string would reach 2^30 octets. */
    method Append(data: seq<Byte>) returns (ok: bool)
      requires Valid() && size + |data| < 0x1_0000_0000
      modifies `buf, `context, `size, buf
      ensures ok <==> old(size) + |data| < LIMIT
      ensures ok ==> Valid() && View() == old(View()).(out := old(View()).out + data, started := true)
      ensures ok ==> buf != null && (buf == old(buf) || fresh(buf))
    {
      var es := size + |data|;
      if AsInt(es) < 0 {
        return false;
      }
      ghost var out := View().out;
      ok := Grow(es);
      if !ok {
        return;
      }
      forall i | 0 <= i < |data| {
        buf[size + i] := data[i];
      }
      buf[es] := 0;
      assert buf[..es] == out + data;
      size := es;
    }

    /** Takes the octet of unused bits when it is due. */
    method PutAway(bit: bool, input: seq<Byte>) returns (rest: seq<Byte>)
      requires Valid()
      modifies `bitsUnused, `left
      ensures Valid() && (View(), rest) == TakeUnused(bit, old(View()), input)
    {
      rest := input;
      if bit && context == 0 && left > 0 && |input| > 0 {
        bitsUnused, left := input[0], left - 1;
        rest := input[1..];
      }
    }

    /** The rest of a call: appending, and the end of the decoding. */
    method Body(bit: bool, input: seq<Byte>) returns (code: Code)
      requires Valid() && size + left < 0x1_0000_0000
      modifies this, buf
      ensures
        match FeedBody(bit, old(View()), input)
        case More(s) => code == WMore && Valid() && View() == s
        case Finished(out, unused) => code == Ok && Valid() && View() == Os(out, unused, true, 0)
        case Failed => code == Fail
    {
      hide Trimmed, Doubled;
      if |input| < left {
        var ok := Append(input);
        if !ok {
          return Fail;
        }
        left := left - |input|;
        return WMore;
      }
      var ok := Append(input[..left]);
      if !ok {
        return Fail;
      }
      left := 0;
      if bit {
        Trim();
      }
      code := Ok;
    }

    /** The primitive phase of OCTET_STRING_decode_ber on one piece of input: the code and, unless it
        fails, how many octets are consumed. */
    method Decode(bit: bool, input: seq<Byte>) returns (code: Code, consumed: nat)
      requires Valid() && size + left < 0x1_0000_0000
      modifies this, buf
      ensures
        match Feed(bit, old(View()), input)
        case More(s) => code == WMore && consumed == |input| && Valid() && View() == s
        case Finished(out, unused) =>
          code == Ok && consumed == old(left) && Valid() && View() == Os(out, unused, true, 0)
        case Failed => code == Fail
    {
      hide FeedBody, Doubled;
      if |input| == 0 && left > 0 {
        return WMore, 0;
      }
      consumed := if |input| < left then |input| else left;
      var rest := PutAway(bit, input);
      BodyOutcome(bit, View(), rest);
      code := Body(bit, rest);
    }

    /** Zeroes the unused bits. */
    method Trim()
      requires Valid()
      modifies buf
      ensures Valid() && View() == old(View()).(out := Trimmed(old(View()).out, bitsUnused))
    {
      if size > 0 {
        buf[size - 1] := Cleared(buf[size - 1], bitsUnused);
      }
    }
  }

  lemma BodyOutcome(bit: bool, s: Os, input: seq<Byte>)
    ensures FeedBody(bit, s, input).More? ==> |input| < s.left
    ensures FeedBody(bit, s, input).Finished? ==> |input| >= s.left
  {
  }

  /** OCTET_STRING_encode_der without the tags: the pieces handed to the callback, put together. */
  method EncodeDer(bit: bool, buf: array<Byte>, size: nat, bitsUnused: Byte) returns (out: seq<Byte>)
    requires size <= buf.Length
    ensures out == Contents(bit, buf[..size], bitsUnused)
  {
    hide Cleared;
    var fixLastByte := 0;
    out := [];
    if bit {
      var b := bitsUnused % 8;
      if b != 0 && size > 0 { fixLastByte := 1; }
      out := out + [b];
    }
    out := out + buf[..size - fixLastByte];
    if fixLastByte == 1 {
      var b := Cleared(buf[size - 1], bitsUnused);
      out := out + [b];
      assert buf[..size][..size - 1] == buf[..size - 1];
    }
  }
}
