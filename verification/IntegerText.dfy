/** INTEGER as text: the printer INTEGER__dump, the parser INTEGER__xer_body_decode as code, and the one
    after the other. */
module IntegerText {
  import opened Wrappers
  import opened Octets
  import opened IntegerCodec
  import opened Strtol
  import opened IntegerParser

  // ---------- the printer ----------

  function HexChar(d: nat): char
    requires d < 16
  {
    if d < 10 then '0' + d as char else 'A' + (d - 10) as char
  }

  function HexPair(b: Byte): string { [HexChar(b / 16), HexChar(b % 16)] }

  /** xx:yy:zz */
  function HexText(s: seq<Byte>): string {
    if s == [] then "" else if |s| == 1 then HexPair(s[0]) else HexPair(s[0]) + ":" + HexText(s[1..])
  }

  function HexColons(s: seq<Byte>): string {
    if s == [] then "" else HexPair(s[0]) + ":" + HexColons(s[1..])
  }

  lemma {:induction false} HexColonsAppend(s: seq<Byte>, b: Byte)
    ensures HexColons(s + [b]) == HexColons(s) + (HexPair(b) + ":")
    decreases s
  {
    if s == [] {
      assert (s + [b])[1..] == [];
    } else {
      assert (s + [b])[1..] == s[1..] + [b];
      HexColonsAppend(s[1..], b);
    }
  }

  lemma {:induction false} HexTextIs(s: seq<Byte>)
    requires s != []
    ensures HexColons(s) == HexText(s) + ":"
    decreases s
  {
    if |s| > 1 { HexTextIs(s[1..]); }
  }

  /** What the printer knows of a type: whether its numbers are unsigned, whether only named ones may be
      written, and the names. */
  datatype Specifics = Specifics(unsigned: bool, strict: bool, names: Long -> Option<string>)

  /** The number the octets make. */
  ghost function NumberOf(unsigned: bool, s: seq<Byte>): int {
    if unsigned then Unsigned(s) else Signed(s)
  }

  /** It fits a machine word. */
  ghost predicate InWord(unsigned: bool, s: seq<Byte>) {
    if unsigned then Unsigned(s) < Base(8) else Fits(Signed(s), 8)
  }

  /** The name of a number; an unsigned one that is no long has none. */
  function NameOf(specs: Specifics, v: int): Option<string> {
    if InLong(v) then specs.names(v) else None
  }

  /** The text of a number: its name, decimal or, beyond a machine word, all its octets; none when a
      name is demanded and there is not any. */
  ghost function DumpText(specs: Specifics, xer: bool, s: seq<Byte>): Option<string> {
    var v := NumberOf(specs.unsigned, s);
    if InWord(specs.unsigned, s) && NameOf(specs, v).Some? then
      var name := NameOf(specs, v).value;
      Some(if xer then "<" + name + "/>" else SignedDecimal(v) + " (" + name + ")")
    else if xer && specs.strict then None
    else Some(if InWord(specs.unsigned, s) then SignedDecimal(v) else HexText(s))
  }

  /** INTEGER__dump */
  method Dump(st: Integer, specs: Specifics, xer: bool) returns (text: Option<string>)
    requires st.Valid()
    ensures st.buf != null ==> text == DumpText(specs, xer, st.Contents())
    ensures st.buf == null ==> text == if xer && specs.strict then None else Some("")
  {
    hide SignedDecimal, Signed, Unsigned, Fits, Base, HexText, InLong;
    var v: Option<int> := None;
    if specs.unsigned {
      var r := st.ToUlong();
      if r.Ok? { v := Some(r.value); }
    } else {
      var r := st.ToLong();
      if r.Ok? { v := Some(r.value); }
    }
    if v.Some? {
      FitsScratch(v.value);
      var el := NameOf(specs, v.value);
      if el.Some? {
        text := Some(if xer then "<" + el.value + "/>" else SignedDecimal(v.value) + " (" + el.value + ")");
        assert 0 < |text.value| < |el.value| + 32;
        return;
      }
      if xer && specs.strict {
        return None;
      }
      assert 0 < |SignedDecimal(v.value)| < 32;
      return Some(SignedDecimal(v.value));
    } else if xer && specs.strict {
      return None;
    }
    var octets := DumpOctets(st);
    text := Some(octets);
  }

  lemma FitsScratch(v: int)
    requires LONG_MIN <= v < 0x1_0000_0000_0000_0000
    ensures 0 < |SignedDecimal(v)| <= 21
  {
    hide Decimal;
    assert Pow10(5) == 100000;
    assert Pow10(10) == 10000000000;
    assert Pow10(15) == 1000000000000000;
    assert Pow10(20) == 100000000000000000000;
    DecimalLength(if v < 0 then -v else v, 20);
  }

  function Pow10(k: nat): nat { if k == 0 then 1 else 10 * Pow10(k - 1) }

  lemma {:induction false} DecimalLength(v: nat, k: nat)
    requires k > 0 && v < Pow10(k)
    ensures 0 < |Decimal(v)| <= k
    decreases k
  {
    if v >= 10 { DecimalLength(v / 10, k - 1); }
  }

  /** The long form of INTEGER__dump, xx:yy:zz: the consumed pieces put together. */
  method DumpOctets(st: Integer) returns (text: string)
    requires st.Valid()
    ensures text == if st.buf == null then "" else HexText(st.Contents())
  {
    hide HexPair, HexColons, HexText;
    var scratch := new char[32];
    var p := 0;
    text := "";
    if st.buf == null {
      return;
    }
    ghost var s := st.Contents();
    var b := 0;
    NoColons();
    while b < st.size
      invariant st.Valid() && st.buf != null && st.Contents() == s && b <= st.size && p <= 31
      invariant text + scratch[..p] == HexColons(s[..b]) && (b > 0 ==> p >= 3)
    {
      if p >= 32 - 4 {
        // flush
        text := text + scratch[..p];
        p := 0;
      }
      var pair := HexPair(st.buf[b]);
      PairLength(st.buf[b]);
      scratch[p], scratch[p + 1], scratch[p + 2] := pair[0], pair[1], ':';
      p := p + 3;
      assert scratch[..p] == scratch[..p - 3] + (pair + ":");
      assert s[..b + 1] == s[..b] + [s[b]];
      HexColonsAppend(s[..b], s[b]);
      b := b + 1;
    }
    assert s[..b] == s;
    if p != 0 {
      HexTextIs(s);
      assert scratch[..p] == scratch[..p - 1] + [scratch[p - 1]];
      DropLast(text, scratch[..p - 1], scratch[p - 1], HexText(s), ':');
      p := p - 1;
    } else {
      NoHex();
    }
    text := text + scratch[..p];
  }

  lemma DropLast(a: string, b: string, x: char, c: string, y: char)
    requires a + (b + [x]) == c + [y]
    ensures a + b == c
  {
    assert a + (b + [x]) == (a + b) + [x];
    assert (a + b) == ((a + b) + [x])[..|a + b|];
    assert c == (c + [y])[..|c|];
  }

  lemma NoColons()
    ensures HexColons([]) == ""
  {
  }

  lemma NoHex()
    ensures HexText([]) == ""
  {
  }

  lemma PairLength(b: Byte)
    ensures |HexPair(b)| == 2
  {
  }

  // ---------- reading back what is printed ----------

  lemma DecimalReadsBack(v: int, named: Option<Long>)
    ensures Parse(SignedDecimal(v), named, START) == Dec(SignedDecimal(v))
  {
    hide Parse, Decimal, Value;
    var t := SignedDecimal(v);
    DecimalValue(if v < 0 then -v else v);
    SignedDecimalParses(v);
    assert t == "" + t + "" && Around(t, "", t, "");
    DecimalAccepted(t, named, "", t, "");
  }

  lemma {:induction false} HexTextAt(s: seq<Byte>, k: nat)
    requires k < |s|
    ensures |HexText(s)| == 3 * |s| - 1
    ensures HexText(s)[3 * k..3 * k + 2] == HexPair(s[k])
    ensures k + 1 < |s| ==> HexText(s)[3 * k + 2] == ':'
    decreases s
  {
    hide HexPair;
    PairLength(s[0]);
    if |s| > 1 {
      var rest := s[1..];
      HexTextAt(rest, if k > 0 then k - 1 else 0);
      assert HexText(s) == HexPair(s[0]) + ":" + HexText(rest);
      if k > 0 {
        assert HexText(s)[3..] == HexText(rest);
        assert HexText(s)[3 * k..3 * k + 2] == HexText(rest)[3 * (k - 1)..3 * (k - 1) + 2];
      } else {
        assert HexText(s)[0..2] == HexPair(s[0]);
      }
    }
  }

  lemma PairChars(b: Byte)
    ensures var p := HexPair(b);
      |p| == 2 &&
      (IsDigit(p[0]) || IsHexLetter(p[0])) && (IsDigit(p[1]) || IsHexLetter(p[1])) &&
      HexValue(p[0]) * 16 + HexValue(p[1]) == b && HexValue(p[0]) <= 15
  {
  }

  /** Text of two octets or more is read back, after starting over when it begins with a digit. */
  lemma HexReadsBack(s: seq<Byte>, named: Option<Long>)
    requires |s| > 1
    ensures Parse(HexText(s), named, START) == Hex(s)
  {
    hide Parse, HexText, HexPair, DigitIs;
    var t := HexText(s);
    HexTextSpells(s);
    HexTextAt(s, 0);
    assert t[2] == ':' && !AllDigits(t);
    assert t == "" + t + "" && Around(t, "", t, "");
    HexAccepted(t, named, "", t, "", s);
  }

  lemma HexTextSpells(s: seq<Byte>)
    requires s != []
    ensures SpellsOctets(HexText(s), s)
  {
    hide HexText, HexPair, DigitIs;
    var t := HexText(s);
    forall k | 0 <= k < |s|
      ensures |t| == 3 * |s| - 1 && DigitIs(t[3 * k], s[k] / 16) && DigitIs(t[3 * k + 1], s[k] % 16)
      ensures k < |s| - 1 ==> t[3 * k + 2] == ':'
    {
      HexTextAt(s, k);
      PairDigits(s[k]);
      assert t[3 * k] == t[3 * k..3 * k + 2][0] && t[3 * k + 1] == t[3 * k..3 * k + 2][1];
    }
    HexTextAt(s, 0);
  }

  /** The printer writes the upper-case digits. */
  lemma PairDigits(b: Byte)
    ensures HexPair(b) == [UPPER[b / 16], UPPER[b % 16]]
    ensures DigitIs(UPPER[b / 16], b / 16) && DigitIs(UPPER[b % 16], b % 16)
  {
  }

  /** What the parser makes of a printed text: the octets, the name's number, or the decimal text. */
  lemma DumpParses(specs: Specifics, s: seq<Byte>, named: Option<Long>)
    requires DumpText(specs, true, s).Some?
    ensures var text, v := DumpText(specs, true, s).value, NumberOf(specs.unsigned, s);
      var p := Parse(text, named, START);
      if !InWord(specs.unsigned, s) then p == Hex(s)
      else if NameOf(specs, v).Some? then named.Some? ==> p == Named(named.value)
      else
        p == Dec(text) && Number(text) == v && Defined(text) &&
        DigitPrefix(Body(text)) == Body(text) != ""
  {
    hide Parse, HexText, SignedDecimal, Signed, Unsigned, Base;
    Base8();
    var v := NumberOf(specs.unsigned, s);
    if !InWord(specs.unsigned, s) {
      UnsignedBound(s);
      if |s| <= 8 {
        BaseMono(|s|, 8);
        Word8Fits(s);
      }
      HexReadsBack(s, named);
    } else if NameOf(specs, v).Some? {
      if named.Some? { NameReadsBack(NameOf(specs, v).value, named); }
    } else {
      DecimalReadsBack(v, named);
      SignedDecimalParses(v);
      SignOf(s);
      if v > LONG_MAX { NoSign(v); }
    }
  }

  /** The texts printed: a name as an empty element or after its number, another number in decimal without
      leading zeros; nothing exactly when a name is demanded and there is none. */
  lemma DumpIs(specs: Specifics, xer: bool, s: seq<Byte>)
    ensures var v, text := NumberOf(specs.unsigned, s), DumpText(specs, xer, s);
      var name := if InWord(specs.unsigned, s) then NameOf(specs, v) else None;
      (text == None <==> xer && specs.strict && name == None) &&
      (name.Some? ==>
        text == Some(if xer then "<" + name.value + "/>" else SignedDecimal(v) + " (" + name.value + ")")) &&
      (name == None && text.Some? && InWord(specs.unsigned, s) ==>
        Number(text.value) == v && AllDigits(Body(text.value)) && (v < 0 <==> text.value != Body(text.value)) &&
        (|Body(text.value)| > 1 ==> Body(text.value)[0] != '0'))
  {
    hide Decimal, Signed, Unsigned, Base, HexText, Value, DigitPrefix;
    var v := NumberOf(specs.unsigned, s);
    SignedDecimalParses(v);
    DecimalShortest(if v < 0 then -v else v);
    DecimalValue(if v < 0 then -v else v);
  }

  lemma NoSign(v: nat)
    ensures SignedDecimal(v) != "" && SignedDecimal(v)[0] != '-'
  {
    DecimalValue(v);
  }

  lemma NameReadsBack(name: string, named: Option<Long>)
    requires named.Some?
    ensures Parse("<" + name + "/>", named, START) == Named(named.value)
  {
    hide Parse;
    var chunk := "<" + name + "/>";
    assert chunk == "" + "<" + (name + "/>") && Tagged(chunk, "", name + "/>");
    TagAccepted(chunk, named, "", name + "/>");
  }

  /** A printed number is parsed back to it if and only if it is not an unsigned one that fits the word
      but not a long; a name, when it is looked up as its number. */
  lemma DumpReadsBackExactly(specs: Specifics, s: seq<Byte>, named: Option<Long>, r: Rval, contents: seq<Byte>)
    requires DumpText(specs, true, s).Some?
    requires Delivered(Parse(DumpText(specs, true, s).value, named, START), r, contents)
    requires InWord(specs.unsigned, s) && NameOf(specs, NumberOf(specs.unsigned, s)).Some? ==>
      named == Some(NumberOf(specs.unsigned, s))
    ensures r == BodyConsumed && NumberOf(specs.unsigned, contents) == NumberOf(specs.unsigned, s) <==>
      !(specs.unsigned && LONG_MAX < Unsigned(s) < Base(8))
  {
    hide Parse, HexText, SignedDecimal, Signed, Unsigned, Base, DumpText, Minimal, DigitPrefix, Value;
    DumpParses(specs, s, named);
    Base8();
    SignOf(s);
    SignOf(contents);
  }

  /** 2^63 in eight octets, say, of an unsigned type: it is printed, and not read back. */
  lemma TopNotReadBack(specs: Specifics, named: Option<Long>, r: Rval, contents: seq<Byte>)
    requires specs.unsigned && !specs.strict
    ensures var s := [0x80, 0, 0, 0, 0, 0, 0, 0];
      DumpText(specs, true, s).Some? &&
      (Delivered(Parse(DumpText(specs, true, s).value, named, START), r, contents) ==>
         !(r == BodyConsumed && Unsigned(contents) == Unsigned(s)))
  {
    hide Parse, HexText, SignedDecimal, Signed, Unsigned, Base, Minimal, DigitPrefix, Value;
    var s: seq<Byte> := [0x80, 0, 0, 0, 0, 0, 0, 0];
    UnsignedBound(s);
    Base8();
    if Delivered(Parse(DumpText(specs, true, s).value, named, START), r, contents) {
      DumpReadsBackExactly(specs, s, named, r, contents);
    }
  }

  /** A number that is not negative is the same read as unsigned. */
  lemma SignOf(s: seq<Byte>)
    ensures Signed(s) >= 0 ==> Unsigned(s) == Signed(s)
    ensures Fits(Signed(s), 8) ==> InLong(Signed(s))
  {
    UnsignedBound(s);
    Base8();
  }

  // ---------- the parser as code ----------

  /** What the caller is given for the text. */
  ghost predicate Delivered(p: Parsed, r: Rval, contents: seq<Byte>) {
    match p
    case Hex(out) => r == BodyConsumed && contents == out
    case Named(v) => r == BodyConsumed && Minimal(contents) && Signed(contents) == v
    case Failed(f) => r == f
    case Dec(text) =>
      if !Defined(text) then r == NoResult
      else if Body(text) == "" then r == BrokenEncoding
      else if !InLong(Number(text)) then r == DecoderLimit
      else if DigitPrefix(Body(text)) != Body(text) then r == BrokenEncoding
      else r == BodyConsumed && Minimal(contents) && Signed(contents) == Number(text)
  }

  /** The conversion after the loop of a decimal text. */
  method Convert(st: Integer, text: string) returns (r: Rval)
    requires st.Valid() && st.buf != null
    modifies st
    ensures st.Valid() && st.buf != null && Delivered(Dec(text), r, st.Contents())
  {
    hide Value, DigitPrefix, PassesBoundary, Signed;
    var result, end, value := StrtolLim(text);
    WholeBody(text);
    match result {
      case Success =>
        st.FromLong(value);
        r := BodyConsumed;
      case ErrorRange =>
        r := DecoderLimit;
      case Overflow =>
        r := NoResult;
      case _ =>
        r := BrokenEncoding;
    }
  }

  lemma WholeBody(text: string)
    ensures DigitPrefix(Body(text)) == Body(text) <==> |DigitPrefix(Body(text))| == |Body(text)|
  {
  }

  /** The cases of the loop of INTEGER__xer_body_decode, on the variables of `m`; `ok` unless it gives up. */
  method OnSpace(lp: nat, state: State, upto: nat, ghost m: Machine) returns (ok: bool, state': State, upto': nat)
    requires m.lp == lp && m.state == state && m.end == upto
    ensures TurnSpace(m) == if ok then On(m.(lp := lp + 1, state := state', end := upto')) else Answer(BrokenEncoding)
  {
    ok, state', upto' := true, state, upto;
    match state {
      case LeadSpace | DigitsTrailSpace | HexDigitsTrailSpace | SkipSpHex =>
      case Digits =>
        upto', state' := lp, DigitsTrailSpace;
      case HexColon =>
        state' := HexDigitsTrailSpace;
      case _ =>
        ok := false;
    }
  }

  /** *st->buf[st->size++] = b */
  method Store(st: Integer, buf: array<Byte>, b: Byte)
    requires st.buf == buf && st.size < buf.Length
    modifies st`size, buf
    ensures st.size == old(st.size) + 1 && buf[..st.size] == old(buf[..st.size]) + [b]
  {
    buf[st.size] := b;
    st.size := st.size + 1;
  }

  method OnDigit(st: Integer, buf: array<Byte>, lp: nat, state: State, from: nat, hex: nat, v: nat, ghost m: Machine)
    returns (ok: bool, state': State, from': nat, hex': nat)
    requires st.buf == buf && st.size < buf.Length && v < 16 && m.hex < 256
    requires m == Machine(lp, state, from, m.end, hex, buf[..st.size])
    modifies st`size, buf
    ensures st.size == old(st.size) + if state == HexDigit2 then 1 else 0
    ensures TurnDigit(m, v) ==
      if ok then On(Machine(lp + 1, state', from', m.end, hex', buf[..st.size])) else Answer(BrokenEncoding)
  {
    ok, state', from', hex' := true, state, from, hex;
    match state {
      case Digits =>
      case SkipSpHex | HexDigit1 =>
        hex', state' := v * 16, HexDigit2;
      case HexDigit2 =>
        Store(st, buf, (hex + v) % 256);
        state' := HexColon;
      case LeadSpace =>
        from', state' := lp, Digits;
      case WaitDigits =>
        state' := Digits;
      case _ =>
        ok := false;
    }
  }

  method OnLetter(st: Integer, buf: array<Byte>, lp: nat, state: State, from: nat, hex: nat, v: nat, ghost m: Machine)
    returns (ok: bool, lp': int, state': State, from': nat, hex': nat)
    requires st.buf == buf && st.size < buf.Length && v < 16 && m.hex < 256
    requires m == Machine(lp, state, from, m.end, hex, buf[..st.size])
    modifies st`size, buf
    ensures st.size == old(st.size) + if state == HexDigit2 then 1 else 0
    ensures lp' + 1 >= 0 && TurnLetter(m, v) ==
      if ok then On(Machine(lp' + 1, state', from', m.end, hex', buf[..st.size])) else Answer(BrokenEncoding)
  {
    ok, lp', state', from', hex' := true, lp, state, from, hex;
    match state {
      case SkipSpHex | LeadSpace | HexDigit1 =>
        hex', state' := v * 16, HexDigit2;
      case HexDigit2 =>
        Store(st, buf, (hex + v) % 256);
        state' := HexColon;
      case Digits =>
        // hexadecimal after all: start over
        lp', state', from' := -1, SkipSpHex, 0;
      case _ =>
        ok := false;
    }
  }

  method OnColon(lp: nat, state: State, from: nat, ghost m: Machine)
    returns (ok: bool, lp': int, state': State, from': nat)
    requires m.lp == lp && m.state == state && m.start == from
    ensures lp' + 1 >= 0 && TurnColon(m) ==
      if ok then On(m.(lp := lp' + 1, state := state', start := from')) else Answer(BrokenEncoding)
  {
    ok, lp', state', from' := true, lp, state, from;
    match state {
      case HexColon =>
        state' := HexDigit1;
      case Digits =>
        lp', state', from' := -1, SkipSpHex, 0;
      case _ =>
        ok := false;
    }
  }

  /** The loop of INTEGER__xer_body_decode over the characters; `failed` when it gives up. */
  method Scan(st: Integer, buf: array<Byte>, chunk: string, named: Option<Long>)
    returns (failed: bool, state: State, start: nat, end: nat, ghost m: Machine)
    requires st.buf == buf && st.size == 0 && buf.Length == |chunk| / 3 + 2
    modifies st`size, buf
    ensures st.buf == buf && st.size < buf.Length
    ensures failed ==> Parse(chunk, named, START) == Failed(BrokenEncoding)
    ensures !failed ==> m.lp == |chunk| && Sane(chunk, m) && m.state == state && m.start == start && m.end == end
    ensures !failed ==> m.out == buf[..st.size] && Parse(chunk, named, START) == Finish(chunk, named, m)
  {
    hide Parse, Finish, Sane, HexValue, TurnSpace, TurnDigit, TurnLetter, TurnColon;
    var lp: int, hex: nat, ok := 0, 0, true;
    failed, state, start, end := true, LeadSpace, 0, 0;
    m := START;
    StartSane(chunk);
    assert buf[..0] == [];
    while lp < |chunk|
      invariant st.buf == buf && st.size < buf.Length && lp >= 0 && failed
      invariant m == Machine(lp, state, start, end, hex, buf[..st.size])
      invariant Sane(chunk, m) && Parse(chunk, named, m) == Parse(chunk, named, START)
      decreases Rank(state), |chunk| - lp
    {
      InRange(chunk, m);
      TurnSane(chunk, named, m);
      ParseTurn(chunk, named, m);
      ghost var t := Turn(chunk, named, m);
      if m.state == HexDigit2 { OctetFits(chunk, m); }
      var c := chunk[lp];
      ok := true;
      if IsSpace(c) {
        ok, state, end := OnSpace(lp, state, end, m);
      } else if c == '-' || c == '+' {
        ok := state == LeadSpace;
        if ok { start, state := lp, WaitDigits; }
      } else if IsDigit(c) {
        ok, state, start, hex := OnDigit(st, buf, lp, state, start, hex, HexValue(c), m);
      } else if c == '<' {
        ok := state == LeadSpace && named.Some?;
        if ok { lp, state := |chunk| - 1, EndEnum; }
      } else if c == ':' {
        ok, lp, state, start := OnColon(lp, state, start, m);
      } else if IsHexLetter(c) {
        ok, lp, state, start, hex := OnLetter(st, buf, lp, state, start, hex, HexValue(c), m);
      } else {
        ok := false;
      }
      if !ok {
        return;
      }
      lp := lp + 1;
      m := t.m;
    }
    InRange(chunk, m);
    ParseEnd(chunk, named, m);
    failed := false;
  }

  /** INTEGER__xer_body_decode */
  method DecodeBody(st: Integer, chunk: string, named: Option<Long>) returns (r: Rval)
    requires st.Valid()
    modifies st
    ensures st.Valid() && st.buf != null && Delivered(Parse(chunk, named, START), r, st.Contents())
    ensures Parse(chunk, named, START).Hex? ==> st.size < st.buf.Length == |chunk| / 3 + 2 && st.buf[st.size] == 0
  {
    hide Parse, Sane, Signed;
    var buf := new Byte[|chunk| / 3 + 2];
    st.buf, st.size := buf, 0;
    var failed, state, start, end, m := Scan(st, buf, chunk, named);
    if failed {
      return BrokenEncoding;
    }
    TextInRange(chunk, m);
    match state {
      case EndEnum =>
        if named.None? {
          return BrokenEncoding;
        }
        st.FromLong(named.value);
        r := BodyConsumed;
      case Digits =>
        r := Convert(st, chunk[start..]);
      case DigitsTrailSpace =>
        r := Convert(st, chunk[start..end]);
      case HexColon | HexDigitsTrailSpace =>
        // the terminating octet is inside the buffer
        buf[st.size] := 0;
        r := BodyConsumed;
      case LeadSpace =>
        r := NotBodyIgnore;
      case _ =>
        r := BrokenEncoding;
    }
  }
}
