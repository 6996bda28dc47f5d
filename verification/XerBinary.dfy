/** BIT STRING as text of zeros and ones: the printer and the resumable converter. */
module XerBinary {
  import opened Octets
  import opened Powers
  import opened OctetString
  import opened XerHex
  import opened XerBuffer

  type Bit = b: nat | b < 2

  /** 1 << i */
  function Weight(i: nat): (w: nat)
    requires i < 8
    ensures w > 0
  {
    match i
    case 0 => 1
    case 1 => 2
    case 2 => 4
    case 3 => 8
    case 4 => 16
    case 5 => 32
    case 6 => 64
    case 7 => 128
  }

  /** Octets being filled bit by bit, and how many bits of the last are unused. */
  datatype Packed = Packed(out: seq<Byte>, unused: nat)

  predicate Begun(p: Packed) {
    p.unused < 8 && (p.unused > 0 ==> p.out != [])
  }

  /** The unused bits are zero. */
  predicate Tidy(p: Packed) {
    Begun(p) && (p.unused > 0 ==> p.out[|p.out| - 1] % Weight(p.unused) == 0)
  }

  /** b | (bit << i) */
  function Put(b: Byte, bit: Bit, i: nat): Byte
    requires i < 8
  {
    if bit == 1 && b / Weight(i) % 2 == 0 then Added(b, i) else b
  }

  function Added(b: Byte, i: nat): Byte
    requires i < 8 && b / Weight(i) % 2 == 0
  {
    b + Weight(i)
  }

  function Push(p: Packed, bit: Bit): (q: Packed)
    requires Begun(p)
    ensures Begun(q) && 8 * |q.out| - q.unused == 8 * |p.out| - p.unused + 1
  {
    if p.unused == 0 then Packed(p.out + [Put(0, bit, 7)], 7)
    else
      var last := p.out[|p.out| - 1];
      Packed(p.out[..|p.out| - 1] + [Put(last, bit, p.unused - 1)], p.unused - 1)
  }

  lemma WeightStep(i: nat)
    requires i < 7
    ensures Weight(i + 1) == 2 * Weight(i) && 256 % Weight(i + 1) == 0
  {
  }

  /** Where the bits of an octet are zero up to a weight, the bit of that weight can be added. */
  lemma Free(b: Byte, w: nat, d: nat)
    requires w > 0 && d == 2 * w && 256 % d == 0 && b % d == 0
    ensures b / w % 2 == 0 && b % w == 0 && (b + w) % w == 0 && b + w < 256
  {
    var q := b / d;
    NextMultiple(b, d, 256);
    assert b == q * d;
    Double(q, w);
    Divides(b, w, 2 * q, 0);
    Divides(b + w, w, 2 * q + 1, 0);
  }

  lemma Double(q: nat, w: nat)
    ensures q * (2 * w) == 2 * q * w && (2 * q + 1) * w == 2 * q * w + w
  {
    MulAssoc(q, 2, w);
  }

  lemma PutTidy(b: Byte, bit: Bit, i: nat)
    requires i < 8 && (i < 7 ==> b % Weight(i + 1) == 0) && (i == 7 ==> b == 0)
    ensures Put(b, bit, i) == b + bit * Weight(i) && Put(b, bit, i) % Weight(i) == 0
  {
    if i < 7 {
      hide Weight;
      WeightStep(i);
      Free(b, Weight(i), Weight(i + 1));
    }
  }

  lemma PushTidy(p: Packed, bit: Bit)
    requires Tidy(p)
    ensures Tidy(Push(p, bit))
  {
    if p.unused == 0 {
      PutTidy(0, bit, 7);
    } else {
      PutTidy(p.out[|p.out| - 1], bit, p.unused - 1);
    }
    hide Weight, Put;
  }

  // ---------- text ----------

  predicate BinLegal(text: string) {
    forall i :: 0 <= i < |text| ==> IsBlank(text[i]) || text[i] == '0' || text[i] == '1'
  }

  function BitOfChar(c: char): Bit { if c == '1' then 1 else 0 }

  /** The bits of a text appended, white space left out. */
  ghost function Read(p: Packed, text: string): (q: Packed)
    requires Begun(p) && BinLegal(text)
    ensures Begun(q)
  {
    if text == "" then p
    else
      var q, c := Read(p, text[..|text| - 1]), text[|text| - 1];
      if IsBlank(c) then q else Push(q, BitOfChar(c))
  }

  lemma ReadStep(p: Packed, text: string, c: char)
    requires Begun(p) && BinLegal(text + [c])
    ensures BinLegal(text) && (IsBlank(c) || c == '0' || c == '1')
    ensures Read(p, text + [c]) == if IsBlank(c) then Read(p, text) else Push(Read(p, text), BitOfChar(c))
  {
    var s := text + [c];
    assert s[..|text|] == text && s[|text|] == c;
    assert forall i :: 0 <= i < |text| ==> text[i] == s[i];
  }

  /** Unused bits that are zero stay zero. */
  lemma {:induction false} ReadTidy(p: Packed, text: string)
    requires Tidy(p) && BinLegal(text)
    ensures Tidy(Read(p, text))
    decreases text
  {
    hide Push, IsBlank, Weight;
    if text != "" {
      ReadTidy(p, text[..|text| - 1]);
      PushTidy(Read(p, text[..|text| - 1]), BitOfChar(text[|text| - 1]));
    } else {
      ReadEmpty(p);
    }
  }

  lemma BinLegalMore(text: string, c: char)
    requires BinLegal(text) && (IsBlank(c) || c == '0' || c == '1')
    ensures BinLegal(text + [c])
  {
  }

  /** Converting one text and then another is converting both together. */
  lemma {:induction false} ReadConcat(p: Packed, a: string, b: string)
    requires Begun(p) && BinLegal(a) && BinLegal(b)
    ensures BinLegal(a + b) && Read(p, a + b) == Read(Read(p, a), b)
    decreases b
  {
    hide Read, IsBlank, Push;
    if b == "" {
      assert a + b == a;
      ReadEmpty(Read(p, a));
    } else {
      var init, c := b[..|b| - 1], b[|b| - 1];
      assert b == init + [c];
      ReadStep(Read(p, a), init, c);
      ReadConcat(p, a, init);
      assert a + b == (a + init) + [c];
      BinLegalMore(a + init, c);
      ReadStep(p, a + init, c);
    }
  }

  lemma ReadEmpty(p: Packed)
    requires Begun(p)
    ensures Read(p, "") == p
  {
  }

  /** Every character is at most one bit. */
  lemma {:induction false} ReadLength(p: Packed, text: string)
    requires Begun(p) && BinLegal(text)
    ensures 8 * |Read(p, text).out| - Read(p, text).unused <= 8 * |p.out| - p.unused + |text|
    decreases text
  {
    hide Push, IsBlank;
    if text != "" {
      ReadLength(p, text[..|text| - 1]);
    }
  }

  // ---------- the printer ----------

  function BitChar(bit: Bit): char { if bit == 1 then '1' else '0' }

  /** The bits of an octet from the highest down to bit `u`; above bit 7 there is none. */
  function BitChars(b: Byte, u: nat): string
    decreases 8 - u
  {
    if u >= 8 then "" else BitChars(b, u + 1) + [BitChar(b / Weight(u) % 2)]
  }

  /** One more bit of an octet. */
  lemma Digit(b: Byte, w: nat, q: nat, r: nat)
    requires w > 0 && b == q * (2 * w) + r && r < 2 * w
    ensures q * (2 * w) + b / w % 2 * w == b / w * w
  {
    Double(q, w);
    if r < w {
      Divides(b, w, 2 * q, r);
      assert b / w % 2 == 0;
    } else {
      Divides(b, w, 2 * q + 1, r - w);
      assert b / w % 2 == 1;
    }
  }

  lemma ClearedWeight(b: Byte, u: nat)
    requires u <= 7
    ensures Cleared(b, u) == b / Weight(u) * Weight(u)
  {
  }

  lemma ClearedStep(b: Byte, u: nat)
    requires u < 7
    ensures Cleared(b, u + 1) % Weight(u + 1) == 0
    ensures Cleared(b, u) == Cleared(b, u + 1) + b / Weight(u) % 2 * Weight(u)
  {
    hide Cleared, Weight;
    ClearedWeight(b, u);
    ClearedWeight(b, u + 1);
    WeightStep(u);
    var w, d := Weight(u), Weight(u + 1);
    Digit(b, w, b / d, b % d);
    Divides(b / d * d, d, b / d, 0);
  }

  lemma ClearedTop(b: Byte)
    ensures Cleared(b, 7) == b / 128 % 2 * 128
  {
  }

  /** The bits of an octet make an octet with the rest cleared. */
  lemma {:induction false} ReadOctet(p: Packed, b: Byte, u: nat)
    requires Begun(p) && p.unused == 0 && u <= 7
    ensures BinLegal(BitChars(b, u)) && Read(p, BitChars(b, u)) == Packed(p.out + [Cleared(b, u)], u)
    decreases 7 - u
  {
    hide Read, Weight, Cleared;
    var text, bit := BitChars(b, u + 1), b / Weight(u) % 2;
    BitCharBack(bit);
    if u == 7 {
      ReadEmpty(p);
      BinLegalMore("", BitChar(bit));
      ReadStep(p, "", BitChar(bit));
      assert text == "";
      PutTidy(0, bit, 7);
      ClearedTop(b);
      TopWeight();
    } else {
      ReadOctet(p, b, u + 1);
      BinLegalMore(text, BitChar(bit));
      ReadStep(p, text, BitChar(bit));
      ClearedStep(b, u);
      PutTidy(Cleared(b, u + 1), bit, u);
    }
  }

  lemma TopWeight()
    ensures Weight(7) == 128
  {
  }

  lemma BitCharBack(bit: Bit)
    ensures BitOfChar(BitChar(bit)) == bit && !IsBlank(BitChar(bit)) && (BitChar(bit) == '0' || BitChar(bit) == '1')
  {
  }

  /** The first `k` octets in full. */
  function AllBits(s: seq<Byte>, k: nat): string
    requires k <= |s|
  {
    if k == 0 then "" else AllBits(s, k - 1) + BitChars(s[k - 1], 0)
  }

  /** The octets of the row that is not written yet, after `k` octets in rows of eight. */
  function Row(s: seq<Byte>, k: nat): string
    requires k <= |s|
  {
    if k == 0 then ""
    else (if (k - 1) % 8 == 0 then "" else Row(s, k - 1)) + BitChars(s[k - 1], 0)
  }

  /** The rows already written, with the line break before the present one. */
  function Front(s: seq<Byte>, k: nat, level: int): string
    requires k <= |s|
  {
    if k == 0 then ""
    else if (k - 1) % 8 == 0 then Front(s, k - 1, level) + Row(s, k - 1) + Indent(level)
    else Front(s, k - 1, level)
  }

  function Line(i: nat, level: int): string {
    if i % 8 == 0 then Indent(level) else ""
  }

  /** The text printed for a bit string: the last octet without its unused bits.  A line break before the
      last octet is written ahead of the row still in hand. */
  function PrintedBits(s: seq<Byte>, unused: nat, level: int, canonical: bool): string {
    var k := if s == [] then 0 else |s| - 1;
    var last := if s == [] then "" else BitChars(s[k], unused);
    if canonical then AllBits(s, k) + last
    else Front(s, k, level) + Line(k, level) + Row(s, k) + last + Indent(level - 1)
  }

  /** The layout with the line break before the last octet where its row begins. */
  function Laid(s: seq<Byte>, unused: nat, level: int): string {
    var k := if s == [] then 0 else |s| - 1;
    var last := if s == [] then "" else BitChars(s[k], unused);
    Front(s, k, level) + Row(s, k) + Line(k, level) + last + Indent(level - 1)
  }

  /** The printer gives this layout exactly when the last octet does not begin a row, or is the first. */
  lemma LaidExactly(s: seq<Byte>, unused: nat, level: int)
    ensures PrintedBits(s, unused, level, false) == Laid(s, unused, level) <==> |s| <= 1 || (|s| - 1) % 8 != 0
  {
    hide BitChars, Indent, Front, Row;
    var k := if s == [] then 0 else |s| - 1;
    var front, row, line := Front(s, k, level), Row(s, k), Line(k, level);
    RowLength(s, k);
    if k == 0 || line == "" {
      assert line + row == row + line;
      assert front + line + row == front + (line + row) && front + row + line == front + (row + line);
    }
    if k > 0 && k % 8 == 0 {
      RowBegins(s, k);
      IndentBegins(level);
      assert PrintedBits(s, unused, level, false)[|front|] == '\n';
      assert Laid(s, unused, level)[|front|] == row[0];
    }
  }

  /** Nine octets are laid out otherwise. */
  lemma NineOctets(unused: nat, level: int)
    ensures var s := seq(9, _ => 0xff); PrintedBits(s, unused, level, false) != Laid(s, unused, level)
  {
    LaidExactly(seq(9, _ => 0xff), unused, level);
  }

  lemma IndentBegins(level: int)
    ensures Indent(level) != "" && Indent(level)[0] == '\n'
  {
  }

  lemma {:induction false} RowBegins(s: seq<Byte>, k: nat)
    requires 0 < k <= |s|
    ensures Row(s, k) != "" && Row(s, k)[0] != '\n'
    decreases k
  {
    hide BitChars;
    BitCharsAll(s[k - 1]);
    if (k - 1) % 8 != 0 { RowBegins(s, k - 1); }
  }

  lemma ReadBlank(p: Packed, text: string, blanks: string)
    requires Begun(p) && BinLegal(text) && forall i :: 0 <= i < |blanks| ==> IsBlank(blanks[i])
    ensures BinLegal(text + blanks) && Read(p, text + blanks) == Read(p, text)
    decreases blanks
  {
    hide Read, IsBlank;
    if blanks == "" {
      assert text + blanks == text;
    } else {
      var init, c := blanks[..|blanks| - 1], blanks[|blanks| - 1];
      ReadBlank(p, text, init);
      assert text + blanks == (text + init) + [c];
      BinLegalMore(text + init, c);
      ReadStep(p, text + init, c);
    }
  }

  lemma LineBlank(i: nat, level: int)
    ensures forall j :: 0 <= j < |Line(i, level)| ==> IsBlank(Line(i, level)[j])
  {
    IndentBlank(level);
  }

  const NOTHING := Packed([], 0)

  /** An octet printed after some text. */
  lemma ReadMoreOctet(text: string, b: Byte, u: nat)
    requires BinLegal(text) && Read(NOTHING, text).unused == 0 && u <= 7
    ensures BinLegal(text + BitChars(b, u))
    ensures Read(NOTHING, text + BitChars(b, u)) == Packed(Read(NOTHING, text).out + [Cleared(b, u)], u)
  {
    hide Read, BitChars, IsBlank, Cleared;
    ReadOctet(Read(NOTHING, text), b, u);
    ReadConcat(NOTHING, text, BitChars(b, u));
  }

  lemma {:induction false} AllBitsRead(s: seq<Byte>, k: nat)
    requires k <= |s|
    ensures BinLegal(AllBits(s, k)) && Read(NOTHING, AllBits(s, k)) == Packed(s[..k], 0)
    decreases k
  {
    hide Read, BitChars, IsBlank, Cleared;
    ReadEmpty(NOTHING);
    if k > 0 {
      AllBitsRead(s, k - 1);
      ReadMoreOctet(AllBits(s, k - 1), s[k - 1], 0);
      ClearedNone(s[k - 1]);
      assert s[..k] == s[..k - 1] + [s[k - 1]];
    }
  }

  lemma ClearedNone(b: Byte)
    ensures Cleared(b, 0) == b
  {
  }

  lemma {:induction false} RowLegal(s: seq<Byte>, k: nat)
    requires k <= |s|
    ensures BinLegal(Row(s, k))
    decreases k
  {
    hide BitChars, Read, IsBlank;
    if k > 0 {
      RowLegal(s, k - 1);
      ReadOctet(NOTHING, s[k - 1], 0);
    }
  }

  /** The rows written and the one in hand are all the octets. */
  lemma {:induction false} RowsRead(s: seq<Byte>, k: nat, level: int)
    requires k <= |s|
    ensures BinLegal(Front(s, k, level)) && BinLegal(Row(s, k))
    ensures BinLegal(Front(s, k, level) + Row(s, k))
    ensures Read(NOTHING, Front(s, k, level) + Row(s, k)) == Packed(s[..k], 0)
    decreases k
  {
    hide Read, BitChars, IsBlank, Indent, Cleared;
    ReadEmpty(NOTHING);
    RowLegal(s, k);
    if k > 0 {
      RowsRead(s, k - 1, level);
      var before, chars := Front(s, k - 1, level) + Row(s, k - 1), BitChars(s[k - 1], 0);
      ClearedNone(s[k - 1]);
      assert s[..k] == s[..k - 1] + [s[k - 1]];
      if (k - 1) % 8 == 0 {
        IndentBlank(level);
        ReadBlank(NOTHING, before, Indent(level));
        ReadMoreOctet(before + Indent(level), s[k - 1], 0);
        assert Front(s, k, level) + Row(s, k) == before + Indent(level) + chars;
      } else {
        ReadMoreOctet(before, s[k - 1], 0);
        assert Front(s, k, level) + Row(s, k) == before + chars;
      }
    } else {
      assert Front(s, k, level) + Row(s, k) == "";
      assert s[..0] == [];
    }
  }

  /** Printing and reading back: every bit string that satisfies its constraint comes back, its unused
      bits zero. */
  lemma PrintedBitsRead(s: seq<Byte>, unused: nat, level: int, canonical: bool)
    requires Constraint(s, unused)
    ensures BinLegal(PrintedBits(s, unused, level, canonical))
    ensures Read(NOTHING, PrintedBits(s, unused, level, canonical)) == Packed(Trimmed(s, unused), unused)
  {
    hide Read, BitChars, IsBlank, Cleared, Line, Indent, Front, Row, AllBits;
    var k := if s == [] then 0 else |s| - 1;
    var text;
    if canonical {
      AllBitsRead(s, k);
      text := AllBits(s, k);
    } else {
      RowsRead(s, k, level);
      LineBlank(k, level);
      var front, row := Front(s, k, level), Row(s, k);
      ReadBlank(NOTHING, front, Line(k, level));
      ReadConcat(NOTHING, front, row);
      ReadConcat(NOTHING, front + Line(k, level), row);
      text := front + Line(k, level) + row;
    }
    assert Read(NOTHING, text) == Packed(s[..k], 0);
    if s != [] {
      ReadMoreOctet(text, s[k], unused);
      text := text + BitChars(s[k], unused);
    } else {
      assert text + "" == text;
    }
    if !canonical {
      IndentBlank(level - 1);
      ReadBlank(NOTHING, text, Indent(level - 1));
    }
  }

  /** _bit_pattern */
  function Pattern(n: nat): string
    requires n < 16
  {
    [BitChar(n / 8 % 2), BitChar(n / 4 % 2), BitChar(n / 2 % 2), BitChar(n % 2)]
  }

  lemma Patterns(v: Byte)
    ensures Pattern(v / 16) + Pattern(v % 16) == BitChars(v, 0)
  {
    hide BitChars;
    BitCharsAll(v);
    HighNibble(v);
    LowNibbleBits(v);
  }

  lemma HighNibble(v: Byte)
    ensures v / 16 / 8 == v / 128 && v / 16 / 4 == v / 64 && v / 16 / 2 == v / 32
  {
  }

  lemma LowNibbleBits(v: Byte)
    ensures v % 16 / 8 % 2 == v / 8 % 2 && v % 16 / 4 % 2 == v / 4 % 2
    ensures v % 16 / 2 % 2 == v / 2 % 2 && v % 16 % 2 == v % 2
  {
    var h, n := v / 16, v % 16;
    Divides(v, 8, 2 * h + n / 8, n % 8);
    Divides(v, 4, 4 * h + n / 4, n % 4);
    Divides(v, 2, 8 * h + n / 2, n % 2);
    Parity(h, n / 8);
    Parity(2 * h, n / 4);
    Parity(4 * h, n / 2);
  }

  lemma Parity(a: nat, b: nat)
    ensures (2 * a + b) % 2 == b % 2
  {
  }

  lemma BitCharsAll(v: Byte)
    ensures BitChars(v, 0) ==
      [BitChar(v / 128 % 2), BitChar(v / 64 % 2), BitChar(v / 32 % 2), BitChar(v / 16 % 2),
       BitChar(v / 8 % 2), BitChar(v / 4 % 2), BitChar(v / 2 % 2), BitChar(v % 2)]
  {
    hide BitChars, BitChar;
    NoBits(v, 8);
    BitsMore(v, 7);
    BitsMore(v, 6);
    BitsMore(v, 5);
    BitsMore(v, 4);
    BitsMore(v, 3);
    BitsMore(v, 2);
    BitsMore(v, 1);
    BitsMore(v, 0);
  }

  lemma PatternLength(v: Byte)
    ensures |Pattern(v / 16) + Pattern(v % 16)| == 8
  {
  }

  /** The loop of BIT_STRING_encode_xer over all octets but the last. */
  method EncodeFull(buf: array<Byte>, end: nat, ilevel: int, canonical: bool) returns (text: string, scratch: string)
    requires end <= buf.Length
    ensures canonical ==> text + scratch == AllBits(buf[..end], end)
    ensures !canonical ==> text == Front(buf[..end], end, ilevel) && scratch == Row(buf[..end], end)
  {
    hide BitChars, Indent, Pattern;
    text, scratch := "", "";
    ghost var s := buf[..end];
    var i := 0;
    while i < end
      invariant i <= end && |scratch| <= 120 && |scratch| % 8 == 0
      invariant canonical ==> text + scratch == AllBits(s, i)
      invariant !canonical ==> text == Front(s, i, ilevel) && scratch == Row(s, i)
    {
      RowLength(s, i);
      var v := buf[i];
      var nline := !canonical && i % 8 == 0;
      if |scratch| >= 128 - 10 || nline {
        text, scratch := text + scratch, "";
        if nline {
          text := text + Indent(ilevel);
        }
      }
      Patterns(v);
      PatternLength(v);
      scratch := scratch + (Pattern(v / 16) + Pattern(v % 16));
      assert |scratch| <= 128;
      i := i + 1;
    }
  }

  /** BIT_STRING_encode_xer: the pieces handed to the callback, put together. */
  method EncodeBits(buf: array<Byte>, size: nat, bitsUnused: nat, ilevel: int, canonical: bool) returns (text: string)
    requires size <= buf.Length
    ensures text == PrintedBits(buf[..size], bitsUnused, ilevel, canonical)
  {
    hide BitChars, Indent, AllBits, Front, Row;
    var end := if size > 0 then size - 1 else 0;
    ghost var s := buf[..size];
    var scratch;
    text, scratch := EncodeFull(buf, end, ilevel, canonical);
    Prefixes(s, end, ilevel);
    assert s[..end] == buf[..end];
    if !canonical && end % 8 == 0 {
      text := text + Indent(ilevel);
    }
    text := text + scratch;
    if size > 0 {
      var v, i := buf[end], 7;
      scratch := "";
      NoBits(v, 8);
      if bitsUnused > 8 { NoBits(v, bitsUnused); }
      while i >= bitsUnused
        invariant -1 <= i <= 7 && (bitsUnused - 1 <= i || i == 7) && scratch == BitChars(v, i + 1)
      {
        BitsMore(v, i);
        scratch := scratch + [BitChar(v / Weight(i) % 2)];
        i := i - 1;
      }
      text := text + scratch;
    }
    if !canonical {
      text := text + Indent(ilevel - 1);
    }
  }

  /** A row of eight octets fits the scratch buffer. */
  lemma {:induction false} RowLength(s: seq<Byte>, k: nat)
    requires k <= |s|
    ensures |Row(s, k)| == if k == 0 then 0 else 8 * ((k - 1) % 8 + 1)
    decreases k
  {
    hide BitChars;
    if k > 0 {
      BitCharsLength(s[k - 1], 0);
      RowLength(s, k - 1);
      NextInRow(k);
    }
  }

  lemma NextInRow(k: nat)
    requires k > 0
    ensures (k - 1) % 8 != 0 ==> k > 1 && (k - 1) % 8 == (k - 2) % 8 + 1
  {
  }

  lemma {:induction false} BitCharsLength(v: Byte, u: nat)
    requires u <= 8
    ensures |BitChars(v, u)| == 8 - u
    decreases 8 - u
  {
    if u < 8 { BitCharsLength(v, u + 1); }
  }

  lemma NoBits(v: Byte, u: nat)
    requires u >= 8
    ensures BitChars(v, u) == ""
  {
  }

  lemma BitsMore(v: Byte, u: nat)
    requires u < 8
    ensures BitChars(v, u) == BitChars(v, u + 1) + [BitChar(v / Weight(u) % 2)]
  {
  }

  /** Only the octets printed matter. */
  lemma {:induction false} Prefixes(s: seq<Byte>, k: nat, level: int)
    requires k <= |s|
    ensures AllBits(s[..k], k) == AllBits(s, k) && Row(s[..k], k) == Row(s, k)
    ensures Front(s[..k], k, level) == Front(s, k, level)
  {
    PrefixesOf(s[..k], s, k, level);
  }

  lemma {:induction false} PrefixesOf(a: seq<Byte>, b: seq<Byte>, k: nat, level: int)
    requires k <= |a| && a <= b
    ensures AllBits(a, k) == AllBits(b, k) && Row(a, k) == Row(b, k) && Front(a, k, level) == Front(b, k, level)
    decreases k
  {
    hide BitChars, Indent;
    if k > 0 {
      assert a[k - 1] == b[k - 1];
      PrefixesOf(a, b, k - 1, level);
    }
  }

  // ---------- the converter ----------

  /** The bits `q` in memory, the cell at `b` being filled: 8 unused bits stand for a cell not begun. */
  ghost predicate InMemory(buf: array<Byte>, b: nat, bitsUnused: int, q: Packed)
    reads buf
  {
    b < buf.Length &&
    if bitsUnused == 8 then q.unused == 0 && buf[..b] == q.out && buf[b] == 0
    else bitsUnused == q.unused && buf[..b + 1] == q.out
  }

  /** One bit of the loop. */
  method PutBit(buf: array<Byte>, b: nat, bitsUnused: int, bit: Bit, ghost q: Packed) returns (b': nat, unused': int)
    requires Begun(q) && InMemory(buf, b, bitsUnused, q)
    requires |q.out| + (if q.unused == 0 then 1 else 0) <= buf.Length
    modifies buf
    ensures InMemory(buf, b', unused', Push(q, bit)) && unused' < 8
  {
    hide Put, Weight;
    b', unused' := b, bitsUnused - 1;
    if bitsUnused <= 0 {
      b' := b' + 1;
      buf[b'] := 0;
      unused' := 7;
    }
    ghost var before := buf[..b'];
    buf[b'] := Put(buf[b'], bit, unused');
    assert buf[..b' + 1] == before + [buf[b']];
  }

  /** OCTET_STRING__convert_binary: the bits of the text are appended, continuing a last octet that is
      not full; an empty string has no unused bits. */
  method ConvertBinary(st: Buffer, chunk: string) returns (n: int)
    requires st.Valid() && (st.size == 0 ==> st.bitsUnused % 8 == 0)
    modifies st
    ensures n == -1 <==> !BinLegal(chunk)
    ensures n == -1 ==> st.size == old(st.size)
    ensures BinLegal(chunk) ==> n == |chunk| && st.Valid()
    ensures BinLegal(chunk) ==>
      Packed(st.Contents(), st.bitsUnused) == Read(old(Packed(st.Contents(), st.bitsUnused % 8)), chunk)
  {
    hide Read, Push, Weight, IsBlank, BinLegal;
    ghost var was := Packed(st.Contents(), st.bitsUnused % 8);
    var bitsUnused: int := st.bitsUnused % 8;
    var ns := st.size + (|chunk| + 7) / 8;
    st.Reserve(ns);
    var buf, b, p := st.buf, st.size, 0;
    if bitsUnused == 0 {
      bitsUnused := 8;
    } else if st.size > 0 {
      b := b - 1;
    }
    ghost var q := was;
    ReadEmpty(was);
    assert chunk[..0] == "";
    LegalNothing();
    while p < |chunk|
      invariant st.buf == buf && st.size == old(st.size) && buf.Length == ns + 1 && p <= |chunk|
      invariant ns == |was.out| + (|chunk| + 7) / 8
      invariant BinLegal(chunk[..p]) && Begun(q) && q == Read(was, chunk[..p]) && InMemory(buf, b, bitsUnused, q)
    {
      var ch := chunk[p];
      assert chunk[..p + 1] == chunk[..p] + [ch];
      if !IsBlank(ch) {
        if ch != '0' && ch != '1' {
          IllegalAt(chunk, p);
          st.bitsUnused := bitsUnused;
          return -1;
        }
        ReadLength(was, chunk[..p]);
        b, bitsUnused := PutBit(buf, b, bitsUnused, BitOfChar(ch), q);
        BinLegalMore(chunk[..p], ch);
        ReadStep(was, chunk[..p], ch);
        q := Push(q, BitOfChar(ch));
      } else {
        BinLegalMore(chunk[..p], ch);
        ReadStep(was, chunk[..p], ch);
      }
      p := p + 1;
    }
    assert chunk[..p] == chunk;
    ReadLength(was, chunk);
    if bitsUnused == 8 {
      st.size, st.bitsUnused := b, 0;
    } else {
      st.size, st.bitsUnused := b + 1, bitsUnused;
    }
    assert st.size <= ns;
    assert buf[..st.size] == q.out;
    buf[st.size] := 0;
    n := |chunk|;
  }

  lemma LegalNothing()
    ensures BinLegal("")
  {
  }

  lemma IllegalAt(chunk: string, p: nat)
    requires p < |chunk| && !IsBlank(chunk[p]) && chunk[p] != '0' && chunk[p] != '1'
    ensures !BinLegal(chunk)
  {
  }

  // ---------- where the bits are printed ----------

  /** From the highest bit down, '1' for a bit that is set and '0' for one that is not. */
  lemma {:induction false} BitCharsAt(b: Byte, u: nat, i: nat)
    requires i < 8 - u
    ensures |BitChars(b, u)| == 8 - u && BitChars(b, u)[i] == if b / Pow2(7 - i) % 2 == 1 then '1' else '0'
    decreases 8 - u
  {
    hide Weight;
    WeightIs(u);
    BitCharsLength(b, u);
    if i < 8 - (u + 1) { BitCharsAt(b, u + 1, i); } else { BitCharsLength(b, u + 1); }
  }

  lemma WeightIs(i: nat)
    requires i < 8
    ensures Weight(i) == Pow2(i)
  {
    SmallPowers();
    hide Pow2;
  }

  lemma {:induction false} AllBitsAt(s: seq<Byte>, n: nat, k: nat)
    requires k < n <= |s|
    ensures |AllBits(s, n)| == 8 * n && AllBits(s, n)[8 * k..8 * k + 8] == BitChars(s[k], 0)
    decreases n
  {
    hide BitChars;
    BitCharsLength(s[n - 1], 0);
    if n > 1 { AllBitsAt(s, n - 1, if k < n - 1 then k else 0); }
    if k < n - 1 { assert AllBits(s, n)[8 * k..8 * k + 8] == AllBits(s, n - 1)[8 * k..8 * k + 8]; }
  }

  /** In the canonical form there are the bits alone. */
  lemma CanonicalBitsAt(s: seq<Byte>, unused: nat, level: int, k: nat)
    requires k < |s| && unused < 8
    ensures var text := PrintedBits(s, unused, level, true);
      |text| == 8 * |s| - unused && text[8 * k..if k + 1 < |s| then 8 * k + 8 else |text|] ==
        BitChars(s[k], if k + 1 < |s| then 0 else unused)
  {
    hide BitChars;
    BitCharsLength(s[|s| - 1], unused);
    if |s| > 1 { AllBitsAt(s, |s| - 1, if k + 1 < |s| then k else 0); }
    if k + 1 < |s| {
      assert PrintedBits(s, unused, level, true)[8 * k..8 * k + 8] == AllBits(s, |s| - 1)[8 * k..8 * k + 8];
    }
  }

  /** The first `k` octets in rows. */
  function InRows(s: seq<Byte>, k: nat, level: int): string
    requires k <= |s|
  {
    Front(s, k, level) + Row(s, k)
  }

  /** Where octet `k` is printed: after the line break of its row. */
  function BitPlace(k: nat, level: int): nat {
    8 * k + (k / 8 + 1) * |Indent(level)|
  }

  lemma InRowsStep(s: seq<Byte>, k: nat, level: int)
    requires k < |s|
    ensures InRows(s, k + 1, level) == InRows(s, k, level) + (Line(k, level) + BitChars(s[k], 0))
  {
    hide BitChars, Indent;
  }

  lemma {:induction false} InRowsLength(s: seq<Byte>, k: nat, level: int)
    requires k <= |s|
    ensures |InRows(s, k, level)| + |Line(k, level)| == BitPlace(k, level)
    decreases k
  {
    hide BitChars, Indent, InRows;
    if k > 0 {
      InRowsLength(s, k - 1, level);
      InRowsStep(s, k - 1, level);
      BitCharsLength(s[k - 1], 0);
      RowOf(k);
    } else {
      NoRows(s, level);
    }
  }

  lemma NoRows(s: seq<Byte>, level: int)
    ensures InRows(s, 0, level) == ""
  {
  }

  lemma RowOf(k: nat)
    requires k > 0
    ensures k / 8 == (k - 1) / 8 + if k % 8 == 0 then 1 else 0
  {
  }

  lemma {:induction false} InRowsGrow(s: seq<Byte>, j: nat, k: nat, level: int)
    requires j <= k <= |s|
    ensures InRows(s, j, level) <= InRows(s, k, level)
    decreases k
  {
    hide BitChars, Indent, InRows;
    if j < k {
      InRowsStep(s, k - 1, level);
      InRowsGrow(s, j, k - 1, level);
    }
  }

  /** In the layout with rows of eight octets each octet has its place, a line break before its row. */
  lemma LaidAt(s: seq<Byte>, unused: nat, level: int, k: nat)
    requires k < |s| && unused < 8
    ensures var text, p, l := Laid(s, unused, level), BitPlace(k, level), |Indent(level)|;
      var bits := BitChars(s[k], if k + 1 < |s| then 0 else unused);
      p + |bits| <= |text| && text[p..p + |bits|] == bits &&
      (k % 8 == 0 ==> l <= p && text[p - l..p] == Indent(level)) &&
      (k + 1 == |s| ==> text[p + |bits|..] == Indent(level - 1))
  {
    hide BitChars, Indent, InRows, BitPlace, Line, Laid;
    var n := |s| - 1;
    InRowsLength(s, k, level);
    LaidIs(s, unused, level);
    LineIs(k, level);
    if k < n {
      InRowsStep(s, k, level);
      InRowsGrow(s, k + 1, n, level);
      var done, all := InRows(s, k + 1, level), InRows(s, n, level);
      Rest(all, done, Line(n, level), BitChars(s[n], unused), Indent(level - 1));
      PlacedIn(Laid(s, unused, level), InRows(s, k, level), Line(k, level), BitChars(s[k], 0),
               all[|done|..] + Line(n, level) + BitChars(s[n], unused) + Indent(level - 1));
    } else {
      PlacedIn(Laid(s, unused, level), InRows(s, n, level), Line(n, level), BitChars(s[n], unused), Indent(level - 1));
    }
  }

  lemma LineIs(k: nat, level: int)
    ensures k % 8 == 0 ==> Line(k, level) == Indent(level)
  {
  }

  lemma Rest(all: string, done: string, a: string, b: string, c: string)
    requires done <= all
    ensures all + a + b + c == done + (all[|done|..] + a + b + c)
  {
  }

  lemma LaidIs(s: seq<Byte>, unused: nat, level: int)
    requires s != []
    ensures var n := |s| - 1;
      Laid(s, unused, level) ==
        InRows(s, n, level) + Line(n, level) + BitChars(s[n], unused) + Indent(level - 1)
  {
    hide BitChars, Indent, Front, Row;
  }

  lemma PlacedIn(text: string, a: string, b: string, c: string, d: string)
    requires text == a + b + c + d || text == a + (b + c) + d
    ensures var p := |a| + |b|; p + |c| <= |text| && text[p..p + |c|] == c && text[|a|..p] == b && text[p + |c|..] == d
  {
  }

  /** Where the printer does not give this layout, the last full row and the line break after it have
      changed places. */
  lemma Misplaced(s: seq<Byte>, unused: nat, level: int)
    requires |s| > 1 && (|s| - 1) % 8 == 0
    ensures var n := |s| - 1;
      var front, row, end := Front(s, n, level), Row(s, n), BitChars(s[n], unused) + Indent(level - 1);
      |row| == 64 && Laid(s, unused, level) == front + row + Indent(level) + end &&
      PrintedBits(s, unused, level, false) == front + Indent(level) + row + end
  {
    hide BitChars, Indent, Front, Row;
    RowLength(s, |s| - 1);
  }

  // ---------- what is read is what is written ----------

  lemma {:induction false} HighSame(b: Byte, c: Byte, u: nat)
    requires forall j :: u <= j < 8 ==> b / Weight(j) == c / Weight(j)
    ensures BitChars(b, u) == BitChars(c, u)
    decreases 8 - u
  {
    hide Weight;
    if u < 8 { HighSame(b, c, u + 1); }
  }

  lemma {:induction false} WeightOver(i: nat, j: nat)
    requires i < j < 8
    ensures Weight(j) % (2 * Weight(i)) == 0 && Weight(j) > 0
    decreases j
  {
    hide Weight;
    var v := 2 * Weight(i);
    WeightStep(j - 1);
    if i < j - 1 {
      WeightOver(i, j - 1);
      var k := Weight(j - 1) / v;
      assert Weight(j - 1) == k * v;
      Divides(Weight(j), v, 2 * k, 0);
    } else {
      Divides(Weight(j), v, 1, 0);
    }
  }

  /** The bit put in is the lowest one printed; those above stay. */
  lemma PutPrints(b: Byte, bit: Bit, i: nat)
    requires i < 8 && (i < 7 ==> b % Weight(i + 1) == 0) && (i == 7 ==> b == 0)
    ensures BitChars(Put(b, bit, i), i) == BitChars(b, i + 1) + [BitChar(bit)]
  {
    hide Weight, Put, BitChars;
    var c := Put(b, bit, i);
    PutTidy(b, bit, i);
    BitsMore(c, i);
    LowBit(b, bit, i);
    forall j | i + 1 <= j < 8
      ensures c / Weight(j) == b / Weight(j)
    {
      WeightStep(i);
      WeightOver(i, j);
      if bit == 1 { AddHalf(b, Weight(i), Weight(j)); }
    }
    HighSame(c, b, i + 1);
  }

  lemma LowBit(b: Byte, bit: Bit, i: nat)
    requires i < 8 && (i < 7 ==> b % Weight(i + 1) == 0) && (i == 7 ==> b == 0)
    ensures (b + bit * Weight(i)) / Weight(i) % 2 == bit
  {
    hide Weight;
    var w := Weight(i);
    if i == 7 {
      Divides(bit * w, w, bit, 0);
    } else {
      WeightStep(i);
      var q := b / (2 * w);
      assert b == q * (2 * w);
      Double(q, w);
      if bit == 0 { Divides(b, w, 2 * q, 0); } else { Divides(b + w, w, 2 * q + 1, 0); }
    }
  }

  /** The canonical text of the bits. */
  function Text(p: Packed): string { PrintedBits(p.out, p.unused, 0, true) }

  lemma TextIs(p: Packed)
    requires p.out != []
    ensures var n := |p.out| - 1; Text(p) == AllBits(p.out[..n], n) + BitChars(p.out[n], p.unused)
  {
    hide BitChars;
    Prefixes(p.out, |p.out| - 1, 0);
  }

  lemma TextFull(p: Packed)
    requires p.unused == 0
    ensures Text(p) == AllBits(p.out, |p.out|)
  {
    hide BitChars;
  }

  lemma PushPrints(p: Packed, bit: Bit)
    requires Tidy(p)
    ensures Text(Push(p, bit)) == Text(p) + [BitChar(bit)]
  {
    hide Weight, Put, BitChars, BitChar, AllBits, Text;
    var q := Push(p, bit);
    TextIs(q);
    if p.unused == 0 {
      assert q.out[..|p.out|] == p.out;
      TextFull(p);
      PutPrints(0, bit, 7);
      NoBits(0, 8);
    } else {
      var n := |p.out| - 1;
      assert q.out[..n] == p.out[..n];
      TextIs(p);
      PutPrints(p.out[n], bit, p.unused - 1);
    }
  }

  /** The bits read from a text are written as the text without its white space. */
  lemma {:induction false} ReadPrints(text: string)
    requires BinLegal(text)
    ensures Text(Read(NOTHING, text)) == Squeezed(text)
    decreases text
  {
    hide Push, Text, IsBlank, Tidy;
    if text == "" {
      EmptyText();
    } else {
      var init, c := text[..|text| - 1], text[|text| - 1];
      ReadPrints(init);
      StartTidy();
      ReadTidy(NOTHING, init);
      CharIs(c);
      if !IsBlank(c) { PushPrints(Read(NOTHING, init), BitOfChar(c)); }
      assert Squeezed(init) + "" == Squeezed(init);
    }
  }

  lemma StartTidy()
    ensures Tidy(NOTHING)
  {
  }

  lemma EmptyText()
    ensures Text(NOTHING) == ""
  {
  }

  /** White space, '0' and '1', and nothing else, are legal. */
  lemma BinLegalIs(text: string)
    ensures BinLegal(text) <==> forall i :: 0 <= i < |text| ==> text[i] in BLANKS || text[i] in "01"
  {
    forall i | 0 <= i < |text| { CharIs(text[i]); }
    hide IsBlank;
  }
}
