/** OCTET STRING as hexadecimal text: the printer, plain or indented, and the resumable converter. */
module XerHex {
  import opened Wrappers
  import opened Octets
  import opened Strtol
  import opened IntegerParser
  import opened IntegerText
  import opened XerBuffer

  // ---------- text as nibbles ----------

  predicate IsBlank(c: char) { c == '\t' || c == '\n' || c == (12 as char) || c == '\r' || c == ' ' }

  predicate IsNibble(c: char) { IsDigit(c) || IsHexLetter(c) }

  predicate Legal(text: string) { forall i :: 0 <= i < |text| ==> IsBlank(text[i]) || IsNibble(text[i]) }

  /** The values of the digits, white space left out. */
  ghost function Nibbles(text: string): seq<nat>
    requires Legal(text)
    ensures forall i :: 0 <= i < |Nibbles(text)| ==> Nibbles(text)[i] < 16
  {
    if text == [] then []
    else
      var c := text[|text| - 1];
      Nibbles(text[..|text| - 1]) + if IsBlank(c) then [] else [HexValue(c)]
  }

  /** Octets put together from digits, and the digit left over. */
  datatype Gathered = Gathered(out: seq<Byte>, half: Option<nat>)

  function Take(g: Gathered, v: nat): Gathered
    requires v < 16 && (g.half.Some? ==> g.half.value < 16)
  {
    if g.half.Some? then Gathered(g.out + [g.half.value * 16 + v], None) else Gathered(g.out, Some(v))
  }

  ghost function Gather(n: seq<nat>): (g: Gathered)
    requires forall i :: 0 <= i < |n| ==> n[i] < 16
    ensures g.half.Some? ==> g.half.value < 16
    ensures 2 * |g.out| + (if g.half.Some? then 1 else 0) == |n|
  {
    if n == [] then Gathered([], None) else Take(Gather(n[..|n| - 1]), n[|n| - 1])
  }

  /** What a text stands for. */
  ghost function Meaning(text: string): Gathered
    requires Legal(text)
  {
    Gather(Nibbles(text))
  }

  lemma MeaningStep(text: string, c: char)
    requires Legal(text + [c])
    ensures Legal(text) && (IsBlank(c) || IsNibble(c))
    ensures Meaning(text + [c]) == if IsBlank(c) then Meaning(text) else Take(Meaning(text), HexValue(c))
  {
    assert (text + [c])[..|text|] == text && (text + [c])[|text|] == c;
    assert forall i :: 0 <= i < |text| ==> text[i] == (text + [c])[i];
    if !IsBlank(c) {
      var n := Nibbles(text);
      assert (n + [HexValue(c)])[..|n|] == n;
    } else {
      assert Nibbles(text) + [] == Nibbles(text);
    }
  }

  lemma MeaningLength(text: string)
    requires Legal(text)
    ensures 2 * |Meaning(text).out| + (if Meaning(text).half.Some? then 1 else 0) <= |text|
  {
    NibblesLength(text);
  }

  lemma {:induction false} NibblesLength(text: string)
    requires Legal(text)
    ensures |Nibbles(text)| <= |text|
    decreases text
  {
    if text != [] { NibblesLength(text[..|text| - 1]); }
  }

  // ---------- what a text stands for, by the alphabet ----------

  const BLANKS: string := ['\t', '\n', 12 as char, '\r', ' ']

  /** The text without its white space. */
  ghost function Squeezed(text: string): string {
    if text == "" then ""
    else Squeezed(text[..|text| - 1]) + if text[|text| - 1] in BLANKS then "" else [text[|text| - 1]]
  }

  /** White space and hexadecimal digits of either case, and nothing else, are legal. */
  lemma LegalIs(text: string)
    ensures Legal(text) <==> forall i :: 0 <= i < |text| ==> text[i] in BLANKS || text[i] in UPPER || text[i] in LOWER
  {
    forall i | 0 <= i < |text| { CharIs(text[i]); }
    hide IsBlank;
  }

  lemma CharIs(c: char)
    ensures IsBlank(c) <==> c in BLANKS
    ensures IsNibble(c) <==> c in UPPER || c in LOWER
  {
    if IsNibble(c) { OnlyDigits(c); }
  }

  lemma {:induction false} NibblesAre(text: string)
    requires Legal(text)
    ensures |Nibbles(text)| == |Squeezed(text)|
    ensures forall i :: 0 <= i < |Squeezed(text)| ==> DigitIs(Squeezed(text)[i], Nibbles(text)[i])
    decreases text
  {
    hide DigitIs, HexValue, IsBlank;
    if text != "" {
      var c := text[|text| - 1];
      NibblesAre(text[..|text| - 1]);
      CharIs(c);
      if !IsBlank(c) { OnlyDigits(c); }
    }
  }

  lemma {:induction false} GatherIs(n: seq<nat>)
    requires forall i :: 0 <= i < |n| ==> n[i] < 16
    ensures forall k :: 0 <= k < |Gather(n).out| ==>
      Gather(n).out[k] / 16 == n[2 * k] && Gather(n).out[k] % 16 == n[2 * k + 1]
    ensures Gather(n).half == if |n| % 2 == 0 then None else Some(n[|n| - 1])
    decreases n
  {
    if n != [] {
      var init, v := n[..|n| - 1], n[|n| - 1];
      GatherIs(init);
      if |init| % 2 == 1 { assert (init[|init| - 1] * 16 + v) / 16 == init[|init| - 1]; }
    }
  }

  /** A text stands for the octets whose digits it has, two by two, in either case and whatever white
      space there is, and for a digit left over when their number is odd. */
  lemma MeaningIs(text: string)
    requires Legal(text)
    ensures var t, g := Squeezed(text), Meaning(text);
      |g.out| == |t| / 2 && (g.half.Some? <==> |t| % 2 == 1) &&
      (forall k :: 0 <= k < |g.out| ==> DigitIs(t[2 * k], g.out[k] / 16) && DigitIs(t[2 * k + 1], g.out[k] % 16)) &&
      (g.half.Some? ==> g.half.value < 16 && DigitIs(t[|t| - 1], g.half.value))
  {
    hide DigitIs, Squeezed, Nibbles, Gather;
    NibblesAre(text);
    GatherIs(Nibbles(text));
  }

  // ---------- the printer ----------

  /** Two digits for every octet. */
  function HexDigits(s: seq<Byte>): string {
    if s == [] then "" else HexDigits(s[..|s| - 1]) + HexPair(s[|s| - 1])
  }

  function Spaces(n: nat): string {
    if n == 0 then "" else Spaces(n - 1) + "    "
  }

  /** A new line, indented. */
  function Indent(level: int): string {
    "\n" + Spaces(if level < 0 then 0 else level)
  }

  /** The first `k` octets of `s` in rows of 16, each octet followed by a space. */
  function Rows(s: seq<Byte>, k: nat, level: int): string
    requires k <= |s|
  {
    if k == 0 then ""
    else
      Rows(s, k - 1, level) +
      (if (k - 1) % 16 == 0 && (k - 1 != 0 || |s| > 16) then Indent(level) else "") +
      (HexPair(s[k - 1]) + " ")
  }

  /** The text printed for an octet string. */
  function Printed(s: seq<Byte>, level: int, canonical: bool): string {
    if canonical then HexDigits(s)
    else if s == [] then ""
    else
      RowsEnd(s, |s|, level);
      var rows := Rows(s, |s|, level);
      rows[..|rows| - 1] + if |s| > 16 then Indent(level - 1) else ""
  }

  lemma RowsEnd(s: seq<Byte>, k: nat, level: int)
    requires 0 < k <= |s|
    ensures var rows := Rows(s, k, level); rows != "" && rows[|rows| - 1] == ' '
  {
  }

  lemma PairMeaning(text: string, b: Byte)
    requires Legal(text) && Meaning(text).half == None
    ensures Legal(text + HexPair(b))
    ensures Meaning(text + HexPair(b)) == Gathered(Meaning(text).out + [b], None)
  {
    hide Meaning, HexPair, HexValue;
    PairChars(b);
    var p := HexPair(b);
    assert text + p == (text + [p[0]]) + [p[1]];
    LegalMore(text, p[0]);
    LegalMore(text + [p[0]], p[1]);
    NotBlank(p[0]);
    NotBlank(p[1]);
    MeaningStep(text, p[0]);
    MeaningStep(text + [p[0]], p[1]);
  }

  lemma NotBlank(c: char)
    requires IsNibble(c)
    ensures !IsBlank(c)
  {
  }

  lemma LegalMore(text: string, c: char)
    requires Legal(text) && (IsBlank(c) || IsNibble(c))
    ensures Legal(text + [c])
  {
  }

  lemma {:induction false} BlankMeaning(text: string, blanks: string)
    requires Legal(text) && forall i :: 0 <= i < |blanks| ==> IsBlank(blanks[i])
    ensures Legal(text + blanks) && Meaning(text + blanks) == Meaning(text)
    decreases blanks
  {
    hide Meaning;
    if blanks == [] {
      assert text + blanks == text;
    } else {
      var init, c := blanks[..|blanks| - 1], blanks[|blanks| - 1];
      BlankMeaning(text, init);
      assert text + blanks == (text + init) + [c];
      LegalMore(text + init, c);
      MeaningStep(text + init, c);
    }
  }

  lemma {:induction false} IndentBlank(level: int)
    ensures forall i :: 0 <= i < |Indent(level)| ==> IsBlank(Indent(level)[i])
  {
    SpacesBlank(if level < 0 then 0 else level);
  }

  lemma {:induction false} SpacesBlank(n: nat)
    ensures forall i :: 0 <= i < |Spaces(n)| ==> IsBlank(Spaces(n)[i])
  {
    if n > 0 { SpacesBlank(n - 1); }
  }

  lemma {:induction false} DigitsMeaning(s: seq<Byte>)
    ensures Legal(HexDigits(s)) && Meaning(HexDigits(s)) == Gathered(s, None)
    decreases s
  {
    if s != [] {
      DigitsMeaning(s[..|s| - 1]);
      PairMeaning(HexDigits(s[..|s| - 1]), s[|s| - 1]);
      assert s == s[..|s| - 1] + [s[|s| - 1]];
    }
  }

  lemma {:induction false} RowsMeaning(s: seq<Byte>, k: nat, level: int)
    requires k <= |s|
    ensures Legal(Rows(s, k, level)) && Meaning(Rows(s, k, level)) == Gathered(s[..k], None)
    decreases k
  {
    hide Meaning, Legal, HexPair, Indent, IsBlank;
    if k == 0 {
      NoMeaning();
    } else {
      RowsMeaning(s, k - 1, level);
      var before := Rows(s, k - 1, level);
      var lead := if (k - 1) % 16 == 0 && (k - 1 != 0 || |s| > 16) then Indent(level) else "";
      IndentBlank(level);
      BlankMeaning(before, lead);
      PairMeaning(before + lead, s[k - 1]);
      SpaceBlank();
      BlankMeaning(before + lead + HexPair(s[k - 1]), " ");
      assert Rows(s, k, level) == before + lead + HexPair(s[k - 1]) + " ";
      assert s[..k] == s[..k - 1] + [s[k - 1]];
    }
  }

  lemma SpaceBlank()
    ensures IsBlank(' ')
  {
  }

  /** Printing and converting back: every octet string comes back, plain or indented. */
  lemma PrintedMeaning(s: seq<Byte>, level: int, canonical: bool)
    ensures Legal(Printed(s, level, canonical)) && Meaning(Printed(s, level, canonical)) == Gathered(s, None)
  {
    if canonical {
      DigitsMeaning(s);
    } else if s != [] {
      RowsMeaning(s, |s|, level);
      RowsEnd(s, |s|, level);
      hide Meaning, Indent;
      assert s[..|s|] == s;
      var rows := Rows(s, |s|, level);
      var init := rows[..|rows| - 1];
      assert rows == init + " ";
      MeaningStep(init, ' ');
      var tail := if |s| > 16 then Indent(level - 1) else "";
      IndentBlank(level - 1);
      BlankMeaning(init, tail);
    }
  }

  /** The canonical branch of OCTET_STRING_encode_xer: the pieces handed to the callback, put together. */
  method EncodeCanonical(buf: array<Byte>, size: nat) returns (text: string)
    requires size <= buf.Length
    ensures text == HexDigits(buf[..size])
  {
    hide HexPair;
    text := "";
    var scratch := "";
    ghost var s := buf[..size];
    var i := 0;
    while i < size
      invariant i <= size && |scratch| <= 52 && |scratch| % 2 == 0 && text + scratch == HexDigits(s[..i])
    {
      if |scratch| >= 50 {
        text, scratch := text + scratch, "";
      }
      PairLength(buf[i]);
      scratch := scratch + HexPair(buf[i]);
      assert |scratch| <= 52;
      i := i + 1;
      assert s[..i][..i - 1] == s[..i - 1];
    }
    assert s[..size] == s;
    text := text + scratch;
  }

  /** The other branch. */
  method EncodeIndented(buf: array<Byte>, size: nat, ilevel: int) returns (text: string)
    requires size <= buf.Length
    ensures text == Printed(buf[..size], ilevel, false)
  {
    hide HexPair, Indent, Rows, Filled;
    text := "";
    var scratch := "";
    ghost var s := buf[..size];
    var i := 0;
    NoRows(s, ilevel);
    FilledStep(0, size);
    while i < size
      invariant i <= size && |scratch| == Filled(i)
      invariant text + scratch == Rows(s, i, ilevel)
    {
      NextRow(s, i, ilevel);
      FilledStep(i, size);
      PairLength(s[i]);
      if i % 16 == 0 && (i != 0 || size > 16) {
        text, scratch := text + scratch + Indent(ilevel), "";
      }
      scratch := scratch + (HexPair(buf[i]) + " ");
      assert |scratch| <= 48;
      i := i + 1;
    }
    if size > 0 { FilledStep(size - 1, size); }
    if |scratch| > 0 {
      // remove the tail space
      RowsEnd(s, size, ilevel);
      assert (text + scratch)[..|text + scratch| - 1] == text + scratch[..|scratch| - 1];
      text := text + scratch[..|scratch| - 1];
      if size > 16 {
        text := text + Indent(ilevel - 1);
      }
    }
  }

  /** The characters of the row that `i` octets leave unfinished. */
  function Filled(i: nat): nat {
    if i == 0 then 0 else 3 * ((i - 1) % 16 + 1)
  }

  lemma FilledStep(i: nat, n: nat)
    ensures Filled(0) == 0 && 3 <= Filled(i + 1) <= 48
    ensures Filled(i + 1) == (if i % 16 == 0 && (i != 0 || n > 16) then 0 else Filled(i)) + 3
  {
  }

  lemma NoRows(s: seq<Byte>, level: int)
    ensures Rows(s, 0, level) == ""
  {
  }

  lemma NextRow(s: seq<Byte>, i: nat, level: int)
    requires i < |s|
    ensures Rows(s, i + 1, level) ==
      Rows(s, i, level) + (if i % 16 == 0 && (i != 0 || |s| > 16) then Indent(level) else "") + (HexPair(s[i]) + " ")
  {
  }

  /** OCTET_STRING_encode_xer */
  method EncodeXer(buf: array<Byte>, size: nat, ilevel: int, canonical: bool) returns (text: string)
    requires size <= buf.Length
    ensures text == Printed(buf[..size], ilevel, canonical)
  {
    if canonical {
      text := EncodeCanonical(buf, size);
    } else {
      text := EncodeIndented(buf, size, ilevel);
    }
  }

  // ---------- the converter ----------

  /** What has been read up to `p`, and from the end of the last whole octet. */
  ghost predicate ReadSo(chunk: string, p: nat, stop: nat, g: Gathered) {
    stop <= p <= |chunk| && Legal(chunk[..p]) && Legal(chunk[..stop]) && Legal(chunk[stop..p]) &&
    Meaning(chunk[..p]) == g && Meaning(chunk[..stop]) == Gathered(g.out, None) &&
    Meaning(chunk[stop..p]) == Gathered([], g.half)
  }

  lemma ReadNothing(chunk: string)
    ensures ReadSo(chunk, 0, 0, Gathered([], None))
  {
  }

  /** One more character; a whole octet moves the end of the last one. */
  lemma ReadMore(chunk: string, p: nat, stop: nat, g: Gathered)
    requires ReadSo(chunk, p, stop, g) && p < |chunk|
    ensures IsBlank(chunk[p]) ==> ReadSo(chunk, p + 1, stop, g)
    ensures IsNibble(chunk[p]) && g.half.None? ==> ReadSo(chunk, p + 1, stop, Gathered(g.out, Some(HexValue(chunk[p]))))
    ensures IsNibble(chunk[p]) && g.half.Some? ==>
      ReadSo(chunk, p + 1, p + 1, Gathered(g.out + [g.half.value * 16 + HexValue(chunk[p])], None))
    ensures !IsBlank(chunk[p]) && !IsNibble(chunk[p]) ==> !Legal(chunk)
  {
    hide Meaning, HexValue;
    var c := chunk[p];
    assert chunk[..p + 1] == chunk[..p] + [c] && chunk[stop..p + 1] == chunk[stop..p] + [c];
    if IsBlank(c) || IsNibble(c) {
      LegalMore(chunk[..p], c);
      LegalMore(chunk[stop..p], c);
      MeaningStep(chunk[..p], c);
      MeaningStep(chunk[stop..p], c);
      if IsNibble(c) { NotBlank(c); }
      NoMeaning();
      assert chunk[p + 1..p + 1] == "";
    }
  }

  lemma NoMeaning()
    ensures Legal("") && Meaning("") == Gathered([], None)
  {
  }

  lemma Bounds(chunk: string, p: nat, stop: nat, g: Gathered)
    requires ReadSo(chunk, p, stop, g)
    ensures 2 * |g.out| + (if g.half.Some? then 1 else 0) <= p && (g.half.Some? ==> g.half.value < 16)
  {
    MeaningLength(chunk[..p]);
  }

  /** What the converter leaves: the octets of the text appended; a digit left over is made an octet when
      `haveMore`, and otherwise left unread, with what surrounds it. */
  ghost predicate Converted(chunk: string, haveMore: bool, was: seq<Byte>, now: seq<Byte>, n: int)
    requires Legal(chunk)
  {
    var g := Meaning(chunk);
    if g.half.None? then n == |chunk| && now == was + g.out
    else if haveMore then n == |chunk| && now == was + g.out + [g.half.value * 16 % 256]
    else 0 <= n && now == was + g.out && ReadSo(chunk, |chunk|, n, g)
  }

  lemma ConvertedIs(chunk: string, haveMore: bool, was: seq<Byte>, now: seq<Byte>, stop: nat, g: Gathered)
    requires ReadSo(chunk, |chunk|, stop, g)
    requires now == was + g.out + if g.half.Some? && haveMore then [g.half.value * 16 % 256] else []
    ensures Legal(chunk) &&
      Converted(chunk, haveMore, was, now, if g.half.Some? && !haveMore then stop else |chunk|)
  {
    assert chunk[..|chunk|] == chunk;
  }

  /** (clv << 4) + v on 32 bits. */
  function Shifted(clv: nat, v: nat): nat {
    (clv * 16 + v) % 0x1_0000_0000
  }

  lemma ShiftedIs(clv: nat, v: nat)
    requires v < 16
    ensures Shifted(clv, v) % 16 == v && Shifted(clv, v) % 256 == clv % 16 * 16 + v
  {
    var w, q := clv * 16 + v, clv / 16;
    LowByte(w, q, clv % 16 * 16 + v);
    LowNibble(w, clv, v);
    var k, m := w / 0x1_0000_0000, w % 0x1_0000_0000;
    LowByte(w, k * 0x100_0000 + m / 256, m % 256);
    LowNibble(w, k * 0x1000_0000 + m / 16, m % 16);
  }

  lemma LowByte(w: nat, q: nat, r: nat)
    requires w == q * 256 + r && r < 256
    ensures w % 256 == r
  {
  }

  lemma LowNibble(w: nat, q: nat, r: nat)
    requires w == q * 16 + r && r < 16
    ensures w % 16 == r
  {
  }

  lemma HalfOctet(clv: nat)
    ensures clv * 16 % 256 == clv % 16 * 16
  {
    LowByte(clv * 16, clv / 16, clv % 16 * 16);
  }

  /** The loop of OCTET_STRING__convert_hexadecimal over the characters. */
  method ReadHex(buf: array<Byte>, start: nat, chunk: string)
    returns (ok: bool, b: nat, clv: nat, half: nat, chunkStop: nat, ghost g: Gathered)
    requires start + (|chunk| + 1) / 2 < buf.Length
    modifies buf
    ensures !ok ==> !Legal(chunk)
    ensures ok ==> ReadSo(chunk, |chunk|, chunkStop, g) && b == start + |g.out| && 2 * |g.out| + half <= |chunk|
    ensures ok ==> buf[..b] == old(buf[..start]) + g.out && half == (if g.half.Some? then 1 else 0)
    ensures ok && g.half.Some? ==> clv % 16 == g.half.value
  {
    hide Meaning, ReadSo, HexValue, IsBlank, Legal, Shifted;
    ghost var was := buf[..start];
    var p := 0;
    ok, b, chunkStop, clv, half, g := false, start, 0, 0, 0, Gathered([], None);
    ReadNothing(chunk);
    while p < |chunk|
      invariant p <= |chunk| && ReadSo(chunk, p, chunkStop, g)
      invariant b == start + |g.out| && 2 * |g.out| + half <= p && buf[..b] == was + g.out
      invariant half == (if g.half.Some? then 1 else 0) && (g.half.Some? ==> clv % 16 == g.half.value)
    {
      ReadMore(chunk, p, chunkStop, g);
      var c := chunk[p];
      if !IsBlank(c) {
        if !IsNibble(c) {
          buf[b] := 0;
          return;
        }
        var v := HexValue(c);
        ShiftedIs(clv, v);
        clv := Shifted(clv, v);
        if half == 1 {
          buf[b] := clv % 256;
          g := Gathered(g.out + [g.half.value * 16 + v], None);
          half, b, chunkStop := 0, b + 1, p + 1;
        } else {
          half, g := 1, Gathered(g.out, Some(v));
        }
      }
      p := p + 1;
    }
    ok := true;
  }

  /** OCTET_STRING__convert_hexadecimal */
  method ConvertHexadecimal(st: Buffer, chunk: string, haveMore: bool) returns (n: int)
    requires st.Valid()
    modifies st`buf, st`size
    ensures n == -1 <==> !Legal(chunk)
    ensures n == -1 ==> st.size == old(st.size)
    ensures Legal(chunk) ==> st.Valid() && Converted(chunk, haveMore, old(st.Contents()), st.Contents(), n)
  {
    hide Meaning, ReadSo, Converted, Legal, Gather;
    ghost var was := st.Contents();
    var ns := st.size + (|chunk| + 1) / 2;
    st.Reserve(ns);
    var buf := st.buf;
    var ok, b, clv, half, chunkStop, g := ReadHex(buf, st.size, chunk);
    if !ok {
      return -1;
    }
    ghost var stop := chunkStop;
    if half == 1 {
      if haveMore {
        Bounds(chunk, |chunk|, stop, g);
        HalfOctet(clv);
        buf[b] := clv * 16 % 256;
        b, chunkStop := b + 1, |chunk|;
      }
    } else {
      chunkStop := |chunk|;
    }
    ghost var now := buf[..b];
    st.size := b;
    assert st.size <= ns;
    buf[st.size] := 0;
    assert st.Contents() == now;
    ConvertedIs(chunk, haveMore, was, now, stop, g);
    n := chunkStop;
  }

  /** The text printed for an octet string is converted back to it in one piece, all of it read. */
  lemma PrintedConverts(s: seq<Byte>, level: int, canonical: bool, haveMore: bool, now: seq<Byte>, n: int)
    ensures Legal(Printed(s, level, canonical))
    ensures Converted(Printed(s, level, canonical), haveMore, [], now, n) ==>
      now == s && n == |Printed(s, level, canonical)|
  {
    PrintedMeaning(s, level, canonical);
  }

  /** Resuming: the text left unread, followed by more, gives what the whole text would have given. */
  lemma {:induction false} Resumes(a: string, b: string, n: nat)
    requires Legal(a) && Legal(b) && ReadSo(a, |a|, n, Meaning(a))
    ensures Legal(a + b) && Legal(a[n..] + b)
    ensures var rest := Meaning(a[n..] + b); Meaning(a + b) == Gathered(Meaning(a).out + rest.out, rest.half)
    decreases b
  {
    hide Meaning, IsBlank, HexValue;
    if b == [] {
      assert a + b == a && a[n..] + b == a[n..|a|];
    } else {
      var init, c := b[..|b| - 1], b[|b| - 1];
      assert IsBlank(c) || IsNibble(c);
      Resumes(a, init, n);
      assert a + b == (a + init) + [c] && a[n..] + b == (a[n..] + init) + [c];
      LegalMore(a + init, c);
      LegalMore(a[n..] + init, c);
      MeaningStep(a + init, c);
      MeaningStep(a[n..] + init, c);
    }
  }

  // ---------- the layout ----------

  /** A line break and four spaces a level. */
  lemma IndentIs(level: int)
    ensures |Indent(level)| == 1 + 4 * (if level < 0 then 0 else level) && Indent(level)[0] == '\n'
    ensures forall i :: 1 <= i < |Indent(level)| ==> Indent(level)[i] == ' '
  {
    SpacesAre(if level < 0 then 0 else level);
  }

  lemma {:induction false} SpacesAre(n: nat)
    ensures |Spaces(n)| == 4 * n && forall i :: 0 <= i < |Spaces(n)| ==> Spaces(n)[i] == ' '
  {
    if n > 0 { SpacesAre(n - 1); }
  }

  /** Two digits an octet and nothing else in the canonical form. */
  lemma {:induction false} CanonicalAt(s: seq<Byte>, level: int, k: nat)
    requires k < |s|
    ensures |Printed(s, level, true)| == 2 * |s| && Printed(s, level, true)[2 * k..2 * k + 2] == HexPair(s[k])
    decreases s
  {
    hide HexPair;
    var init := s[..|s| - 1];
    PairLength(s[|s| - 1]);
    if init != [] { CanonicalAt(init, level, if k < |init| then k else 0); }
    if k < |init| {
      assert HexDigits(s)[2 * k..2 * k + 2] == HexDigits(init)[2 * k..2 * k + 2];
    }
  }

  /** The line breaks before octet `k` is written, its own included: none when one row is enough. */
  function Breaks(n: nat, k: nat): nat { if n > 16 then k / 16 + 1 else 0 }

  /** Where octet `k` of `n` octets is printed. */
  function Place(n: nat, k: nat, level: int): nat {
    3 * k + Breaks(n, k) * |Indent(level)|
  }

  lemma {:induction false} RowsUpTo(s: seq<Byte>, k: nat, level: int)
    requires 0 < k <= |s|
    ensures |Rows(s, k, level)| == Place(|s|, k - 1, level) + 3
    decreases k
  {
    hide Indent, HexPair;
    PairLength(s[k - 1]);
    if k > 1 {
      RowsUpTo(s, k - 1, level);
      NextBreak(k - 1);
    }
  }

  lemma NextBreak(k: nat)
    requires k > 0
    ensures k / 16 == (k - 1) / 16 + if k % 16 == 0 then 1 else 0
  {
  }

  lemma {:induction false} RowsGrow(s: seq<Byte>, j: nat, k: nat, level: int)
    requires j <= k <= |s|
    ensures Rows(s, j, level) <= Rows(s, k, level)
    decreases k
  {
    hide Indent, HexPair;
    if j < k { RowsGrow(s, j, k - 1, level); }
  }

  /** In rows of sixteen octets, each octet two digits and a space; a line break, indented, before each row
      when there is more than one, and one less indented at the end. */
  lemma PrintedAt(s: seq<Byte>, level: int, k: nat)
    requires k < |s|
    ensures var text, p := Printed(s, level, false), Place(|s|, k, level);
      p + 2 <= |text| && text[p..p + 2] == HexPair(s[k]) &&
      (k + 1 < |s| ==> p + 2 < |text| && text[p + 2] == ' ') &&
      (|s| > 16 && k % 16 == 0 ==> |Indent(level)| <= p && text[p - |Indent(level)|..p] == Indent(level)) &&
      (k + 1 == |s| ==> text[p + 2..] == if |s| > 16 then Indent(level - 1) else "")
  {
    hide Indent, HexPair, Rows, Place;
    var rows, row := Rows(s, |s|, level), Rows(s, k + 1, level);
    var text, p, l := Printed(s, level, false), Place(|s|, k, level), |Indent(level)|;
    RowsEnd(s, |s|, level);
    RowsGrow(s, k + 1, |s|, level);
    RowEnds(s, k, level);
    RowsLonger(s, k, level);
    Within(text, rows, |rows| - 1, row, p, p + 2);
    if |s| > 16 && k % 16 == 0 { Within(text, rows, |rows| - 1, row, p - l, p); }
    if k + 1 < |s| { Within(text, rows, |rows| - 1, row, p + 2, p + 3); }
  }

  lemma Within(text: string, rows: string, n: nat, row: string, x: nat, y: nat)
    requires n <= |rows| && n <= |text| && text[..n] == rows[..n] && row <= rows && x <= y <= |row| && y <= n
    ensures text[x..y] == row[x..y] && (x < y ==> text[x] == row[x])
  {
    assert text[x..y] == text[..n][x..y] && rows[x..y] == rows[..n][x..y];
  }

  /** The last octet aside, more follows an octet than its space. */
  lemma RowsLonger(s: seq<Byte>, k: nat, level: int)
    requires k < |s|
    ensures if k + 1 == |s| then |Rows(s, k + 1, level)| == |Rows(s, |s|, level)|
            else |Rows(s, k + 1, level)| + 3 <= |Rows(s, |s|, level)|
  {
    hide Indent, HexPair, Rows;
    if k + 1 < |s| {
      RowsUpTo(s, k + 1, level);
      RowsUpTo(s, k + 2, level);
      RowsGrow(s, k + 2, |s|, level);
      BreakMore(k, |Indent(level)|);
    }
  }

  lemma BreakMore(k: nat, l: nat)
    ensures ((k + 1) / 16 + 1) * l >= (k / 16 + 1) * l
  {
    var a, b := k / 16 + 1, (k + 1) / 16 + 1;
    assert b * l == a * l + (b - a) * l;
  }

  lemma RowEnds(s: seq<Byte>, k: nat, level: int)
    requires k < |s|
    ensures var row, p := Rows(s, k + 1, level), Place(|s|, k, level);
      |row| == p + 3 && row[p..p + 2] == HexPair(s[k]) && row[p + 2] == ' ' &&
      (|s| > 16 && k % 16 == 0 ==> |Indent(level)| <= p && row[p - |Indent(level)|..p] == Indent(level))
  {
    hide Indent, HexPair;
    RowsUpTo(s, k + 1, level);
    PairLength(s[k]);
    if k > 0 {
      RowsUpTo(s, k, level);
      NextBreak(k);
    }
  }
}
