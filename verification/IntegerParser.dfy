/** The text of an INTEGER as a machine: INTEGER__xer_body_decode, which starts over when a decimal number
    turns out to be hexadecimal; and what exactly the texts are that it accepts. */
module IntegerParser {
  import opened Wrappers
  import opened Octets
  import opened IntegerCodec
  import opened Strtol

  datatype State =
    | LeadSpace | SkipSpHex | WaitDigits | Digits | DigitsTrailSpace
    | HexDigit1 | HexDigit2 | HexDigitsTrailSpace | HexColon | EndEnum

  datatype Rval = BodyConsumed | DecoderLimit | BrokenEncoding | NotBodyIgnore | NoResult

  /** Where the parser is: position, state, extent of the decimal text, high hex digit, octets so far. */
  datatype Machine = Machine(lp: nat, state: State, start: nat, end: nat, hex: nat, out: seq<Byte>)

  /** The next machine, or the answer. */
  datatype Turned = On(m: Machine) | Answer(r: Rval)

  /** What the text is: octets written out, a decimal number, a name of value `v`, or none of these. */
  datatype Parsed = Hex(out: seq<Byte>) | Dec(text: string) | Named(v: Long) | Failed(r: Rval)

  predicate IsSpace(c: char) { c == '\t' || c == '\n' || c == '\r' || c == ' ' }

  predicate IsHexLetter(c: char) { 'A' <= c <= 'F' || 'a' <= c <= 'f' }

  function HexValue(c: char): nat
    requires IsDigit(c) || IsHexLetter(c)
    ensures HexValue(c) < 16
  {
    if IsDigit(c) then DigitOf(c) else if c < 'a' then c as nat - 'A' as nat + 10 else c as nat - 'a' as nat + 10
  }

  const START := Machine(0, LeadSpace, 0, 0, 0, [])

  /** Back to the start of the text, to read it as hexadecimal. */
  function Rewound(m: Machine): Machine {
    m.(lp := 0, state := SkipSpHex, start := 0)
  }

  /** White space. */
  function TurnSpace(m: Machine): Turned {
    var n := m.(lp := m.lp + 1);
    match m.state
    case LeadSpace | DigitsTrailSpace | HexDigitsTrailSpace | SkipSpHex => On(n)
    case Digits => On(n.(end := m.lp, state := DigitsTrailSpace))
    case HexColon => On(n.(state := HexDigitsTrailSpace))
    case _ => Answer(BrokenEncoding)
  }

  /** A decimal digit of value `v`. */
  function TurnDigit(m: Machine, v: nat): Turned
    requires m.hex < 256 && v < 16
  {
    var n := m.(lp := m.lp + 1);
    match m.state
    case Digits => On(n)
    case SkipSpHex | HexDigit1 => On(n.(hex := v * 16, state := HexDigit2))
    case HexDigit2 => On(n.(out := m.out + [(m.hex + v) % 256], state := HexColon))
    case LeadSpace => On(n.(start := m.lp, state := Digits))
    case WaitDigits => On(n.(state := Digits))
    case _ => Answer(BrokenEncoding)
  }

  /** A hexadecimal letter of value `v`. */
  function TurnLetter(m: Machine, v: nat): Turned
    requires m.hex < 256 && v < 16
  {
    var n := m.(lp := m.lp + 1);
    match m.state
    case SkipSpHex | LeadSpace | HexDigit1 => On(n.(hex := v * 16, state := HexDigit2))
    case HexDigit2 => On(n.(out := m.out + [(m.hex + v) % 256], state := HexColon))
    case Digits => On(Rewound(m))
    case _ => Answer(BrokenEncoding)
  }

  function TurnColon(m: Machine): Turned {
    match m.state
    case HexColon => On(m.(lp := m.lp + 1, state := HexDigit1))
    case Digits => On(Rewound(m))
    case _ => Answer(BrokenEncoding)
  }

  /** One character. */
  function Turn(chunk: string, named: Option<Long>, m: Machine): Turned
    requires m.lp < |chunk| && m.hex < 256
  {
    var c := chunk[m.lp];
    if IsSpace(c) then TurnSpace(m)
    else if c == '-' || c == '+' then
      if m.state == LeadSpace then On(m.(lp := m.lp + 1, start := m.lp, state := WaitDigits))
      else Answer(BrokenEncoding)
    else if IsDigit(c) then TurnDigit(m, HexValue(c))
    else if c == '<' then
      if m.state == LeadSpace && named.Some? then On(m.(lp := |chunk|, state := EndEnum)) else Answer(BrokenEncoding)
    else if c == ':' then TurnColon(m)
    else if IsHexLetter(c) then TurnLetter(m, HexValue(c))
    else Answer(BrokenEncoding)
  }

  /** The end of the text. */
  function Finish(chunk: string, named: Option<Long>, m: Machine): Parsed
    requires Sane(chunk, m)
  {
    match m.state
    case EndEnum => if named.Some? then Named(named.value) else Failed(BrokenEncoding)
    case Digits => Dec(chunk[m.start..])
    case DigitsTrailSpace => Dec(chunk[m.start..m.end])
    case HexColon | HexDigitsTrailSpace => Hex(m.out)
    case LeadSpace => Failed(NotBodyIgnore)
    case _ => Failed(BrokenEncoding)
  }

  /** 1 while the text may still turn out to be hexadecimal and be started over. */
  function Rank(state: State): nat {
    if state == LeadSpace || state == WaitDigits || state == Digits then 1 else 0
  }

  /** Positions are in bounds, and the octets so far have used up three characters each. */
  predicate Sane(chunk: string, m: Machine) {
    m.lp <= |chunk| && m.hex <= 240 && m.start <= |chunk| &&
    (m.state == DigitsTrailSpace ==> m.start <= m.end <= |chunk|) &&
    (m.state == Digits || m.state == WaitDigits ==> m.start < m.lp) &&
    (match m.state
     case HexDigit1 | HexDigitsTrailSpace => 3 * |m.out| <= m.lp
     case HexDigit2 => 3 * |m.out| + 1 <= m.lp
     case HexColon => 3 * |m.out| <= m.lp + 1
     case _ => m.out == [])
  }

  /** One character keeps the machine sane; the position falls back only when the rank falls. */
  lemma TurnSane(chunk: string, named: Option<Long>, m: Machine)
    requires Sane(chunk, m) && m.lp < |chunk|
    ensures var t := Turn(chunk, named, m);
      t.On? ==> Sane(chunk, t.m) && Rank(t.m.state) <= Rank(m.state) &&
                (t.m.lp <= m.lp ==> Rank(t.m.state) < Rank(m.state))
  {
  }

  /** The whole text: the parser ends on every input. */
  ghost function Parse(chunk: string, named: Option<Long>, m: Machine): Parsed
    requires Sane(chunk, m)
    decreases Rank(m.state), |chunk| - m.lp
  {
    if m.lp == |chunk| then Finish(chunk, named, m)
    else
      TurnSane(chunk, named, m);
      match Turn(chunk, named, m)
      case On(m') => Parse(chunk, named, m')
      case Answer(r) => Failed(r)
  }

  // ---------- steps ----------

  lemma ParseStep(chunk: string, named: Option<Long>, m: Machine)
    requires Sane(chunk, m) && m.lp < |chunk| && Turn(chunk, named, m).On?
    ensures var m' := Turn(chunk, named, m).m; Sane(chunk, m') && Parse(chunk, named, m) == Parse(chunk, named, m')
  {
    TurnSane(chunk, named, m);
  }

  lemma ParseEnd(chunk: string, named: Option<Long>, m: Machine)
    requires Sane(chunk, m) && m.lp == |chunk|
    ensures Parse(chunk, named, m) == Finish(chunk, named, m)
  {
  }

  lemma InRange(chunk: string, m: Machine)
    requires Sane(chunk, m)
    ensures m.lp <= |chunk| && m.hex < 256
  {
  }

  lemma TextInRange(chunk: string, m: Machine)
    requires Sane(chunk, m)
    ensures m.start <= |chunk| && (m.state == DigitsTrailSpace ==> m.start <= m.end <= |chunk|)
  {
  }

  /** In HexDigit2 there is room for the octet, and in the end for a terminating 0. */
  lemma OctetFits(chunk: string, m: Machine)
    requires Sane(chunk, m) && m.lp < |chunk| && m.state == HexDigit2
    ensures |m.out| + 1 < |chunk| / 3 + 2
  {
  }

  lemma StartSane(chunk: string)
    ensures Sane(chunk, START)
  {
  }

  lemma ParseTurn(chunk: string, named: Option<Long>, m: Machine)
    requires Sane(chunk, m) && m.lp < |chunk|
    ensures var t := Turn(chunk, named, m);
      (t.On? ==> Sane(chunk, t.m) && Parse(chunk, named, m) == Parse(chunk, named, t.m)) &&
      (t.Answer? ==> Parse(chunk, named, m) == Failed(t.r))
  {
    TurnSane(chunk, named, m);
  }

  // ---------- characters ----------

  const UPPER := "0123456789ABCDEF"
  const LOWER := "0123456789abcdef"
  const SPACES := "\t\n\r "

  /** `c` is the hexadecimal digit of value `v`, in either case. */
  ghost predicate DigitIs(c: char, v: nat)
    requires v < 16
  {
    c == UPPER[v] || c == LOWER[v]
  }

  /** Digits have the value of their place in the alphabet. */
  lemma DigitValue(c: char, v: nat)
    requires v < 16 && DigitIs(c, v)
    ensures (IsDigit(c) <==> v < 10) && (IsHexLetter(c) <==> v >= 10)
    ensures (IsDigit(c) || IsHexLetter(c)) && HexValue(c) == v
  {
  }

  /** There are no others. */
  lemma OnlyDigits(c: char)
    requires IsDigit(c) || IsHexLetter(c)
    ensures DigitIs(c, HexValue(c))
  {
    if IsDigit(c) { DigitIsAt(c); }
  }

  lemma DigitIsAt(c: char)
    requires IsDigit(c)
    ensures c == UPPER[DigitOf(c)]
  {
  }

  lemma SpaceIs(c: char)
    ensures IsSpace(c) <==> c in SPACES
  {
  }

  // ---------- the texts ----------

  ghost predicate Spaces(s: string) {
    forall i :: 0 <= i < |s| ==> s[i] in SPACES
  }

  /** A text between white space. */
  ghost predicate Around(chunk: string, a: string, t: string, b: string) {
    chunk == a + t + b && Spaces(a) && Spaces(b)
  }

  /** Digits, perhaps after a sign. */
  ghost predicate DecimalText(t: string) {
    Body(t) != "" && AllDigits(Body(t))
  }

  /** xx:yy:zz, every octet two hexadecimal digits of either case. */
  ghost predicate SpellsOctets(t: string, s: seq<Byte>) {
    s != [] && |t| == 3 * |s| - 1 &&
    (forall k :: 0 <= k < |s| ==> DigitIs(t[3 * k], s[k] / 16) && DigitIs(t[3 * k + 1], s[k] % 16)) &&
    forall k :: 0 <= k < |s| - 1 ==> t[3 * k + 2] == ':'
  }

  ghost predicate IsDecimal(chunk: string, t: string) {
    DecimalText(t) && exists a, b :: Around(chunk, a, t, b)
  }

  /** Octets, and not only decimal digits: these are a number. */
  ghost predicate IsHex(chunk: string, s: seq<Byte>) {
    exists a, t, b :: Around(chunk, a, t, b) && SpellsOctets(t, s) && !AllDigits(t)
  }

  ghost predicate Tagged(chunk: string, a: string, r: string) {
    Spaces(a) && chunk == a + "<" + r
  }

  ghost predicate IsTag(chunk: string) {
    exists a, r :: Tagged(chunk, a, r)
  }

  /** What a text stands for. */
  ghost predicate Means(chunk: string, named: Option<Long>, p: Parsed) {
    match p
    case Dec(t) => IsDecimal(chunk, t)
    case Hex(s) => IsHex(chunk, s)
    case Named(v) => named == Some(v) && IsTag(chunk)
    case Failed(r) => r == if Spaces(chunk) then NotBodyIgnore else BrokenEncoding
  }

  lemma AroundAt(chunk: string, a: string, t: string, b: string)
    requires chunk == a + t + b
    ensures |chunk| == |a| + |t| + |b| && chunk[|a|..|a| + |t|] == t
    ensures forall i :: 0 <= i < |a| ==> chunk[i] == a[i]
    ensures forall i :: 0 <= i < |t| ==> chunk[|a| + i] == t[i]
    ensures forall i :: |a| + |t| <= i < |chunk| ==> chunk[i] == b[i - |a| - |t|]
  {
  }

  /** White space is passed over. */
  lemma {:induction false} SpacesPass(chunk: string, named: Option<Long>, m: Machine, k: nat)
    requires Sane(chunk, m) && m.lp <= k <= |chunk| && forall i :: m.lp <= i < k ==> chunk[i] in SPACES
    requires m.state == LeadSpace || m.state == SkipSpHex || m.state == DigitsTrailSpace ||
             m.state == HexDigitsTrailSpace
    ensures Sane(chunk, m.(lp := k)) && Parse(chunk, named, m) == Parse(chunk, named, m.(lp := k))
    decreases k - m.lp
  {
    hide Parse;
    if m.lp < k {
      SpaceIs(chunk[m.lp]);
      ParseStep(chunk, named, m);
      SpacesPass(chunk, named, Turn(chunk, named, m).m, k);
    }
  }

  lemma {:induction false} DigitsPass(chunk: string, named: Option<Long>, m: Machine, k: nat)
    requires Sane(chunk, m) && m.state == Digits && m.lp <= k <= |chunk|
    requires forall i :: m.lp <= i < k ==> IsDigit(chunk[i])
    ensures Sane(chunk, m.(lp := k)) && Parse(chunk, named, m) == Parse(chunk, named, m.(lp := k))
    decreases k - m.lp
  {
    hide Parse, HexValue;
    if m.lp < k {
      ParseStep(chunk, named, m);
      DigitsPass(chunk, named, Turn(chunk, named, m).m, k);
    }
  }

  // ---------- every text of the form is accepted ----------

  /** From the first character of a decimal text to its end. */
  lemma DecimalPass(chunk: string, named: Option<Long>, a: nat, t: string) returns (m: Machine)
    requires DecimalText(t) && a + |t| <= |chunk| && chunk[a..a + |t|] == t && Sane(chunk, START.(lp := a))
    ensures m == Machine(a + |t|, Digits, a, 0, 0, []) && Sane(chunk, m)
    ensures Parse(chunk, named, START.(lp := a)) == Parse(chunk, named, m)
  {
    hide Parse, HexValue;
    m := START.(lp := a);
    var d := Body(t);
    assert forall i :: 0 <= i < |t| ==> chunk[a + i] == t[i];
    assert forall i :: 0 <= i < |d| ==> t[|t| - |d| + i] == d[i];
    if |d| < |t| {
      ParseStep(chunk, named, m);
      m := Turn(chunk, named, m).m;
    }
    assert chunk[m.lp] == d[0];
    ParseStep(chunk, named, m);
    m := Turn(chunk, named, m).m;
    forall i | m.lp <= i < a + |t|
      ensures IsDigit(chunk[i])
    {
      assert chunk[i] == t[i - a] == d[i - a - (|t| - |d|)];
    }
    DigitsPass(chunk, named, m, a + |t|);
    m := m.(lp := a + |t|);
  }

  lemma DecimalAccepted(chunk: string, named: Option<Long>, a: string, t: string, b: string)
    requires Around(chunk, a, t, b) && DecimalText(t)
    ensures Parse(chunk, named, START) == Dec(t)
  {
    hide Parse, DecimalText;
    AroundAt(chunk, a, t, b);
    SpacesPass(chunk, named, START, |a|);
    var m := DecimalPass(chunk, named, |a|, t);
    if b == "" {
      ParseEnd(chunk, named, m);
      assert chunk[|a|..] == t;
    } else {
      SpaceIs(chunk[m.lp]);
      assert chunk[m.lp] == b[0];
      ParseStep(chunk, named, m);
      var n := Turn(chunk, named, m).m;
      SpacesPass(chunk, named, n, |chunk|);
      ParseEnd(chunk, named, n.(lp := |chunk|));
    }
  }

  /** Octet number `k` and those before it are spelled from `p` on. */
  ghost predicate PairAt(chunk: string, p: nat, b: Byte) {
    p + 2 <= |chunk| && DigitIs(chunk[p], b / 16) && DigitIs(chunk[p + 1], b % 16)
  }

  lemma PairInside(chunk: string, p: nat, b: Byte)
    requires PairAt(chunk, p, b)
    ensures p + 2 <= |chunk|
  {
  }

  /** Two characters at the start of an octet. */
  lemma PairPass(chunk: string, named: Option<Long>, m: Machine, b: Byte) returns (n: Machine)
    requires Sane(chunk, m) && PairAt(chunk, m.lp, b)
    requires m.state == SkipSpHex || m.state == HexDigit1 || (m.state == LeadSpace && IsHexLetter(chunk[m.lp]))
    ensures n.state == HexColon && n.lp == m.lp + 2 && n.out == m.out + [b]
    ensures Sane(chunk, n) && Parse(chunk, named, m) == Parse(chunk, named, n)
  {
    hide Parse, DigitIs, HexValue, Turn, Sane;
    InRange(chunk, m);
    FirstNibble(chunk, named, m, b / 16);
    ParseStep(chunk, named, m);
    n := Turn(chunk, named, m).m;
    InRange(chunk, n);
    NibbleTurn(chunk, named, n, b % 16);
    ParseStep(chunk, named, n);
    n := Turn(chunk, named, n).m;
  }

  /** A hexadecimal digit is taken by its value. */
  lemma NibbleTurn(chunk: string, named: Option<Long>, m: Machine, v: nat)
    requires m.lp < |chunk| && m.hex < 256 && v < 16 && DigitIs(chunk[m.lp], v)
    ensures Turn(chunk, named, m) == if v < 10 then TurnDigit(m, v) else TurnLetter(m, v)
  {
    hide DigitIs, HexValue, TurnDigit, TurnLetter, TurnSpace, TurnColon;
    DigitValue(chunk[m.lp], v);
  }

  lemma FirstNibble(chunk: string, named: Option<Long>, m: Machine, v: nat)
    requires m.lp < |chunk| && m.hex < 256 && v < 16 && DigitIs(chunk[m.lp], v)
    requires m.state == SkipSpHex || m.state == HexDigit1 || (m.state == LeadSpace && IsHexLetter(chunk[m.lp]))
    ensures Turn(chunk, named, m) == On(m.(lp := m.lp + 1, hex := v * 16, state := HexDigit2))
  {
    hide DigitIs, Turn;
    DigitValue(chunk[m.lp], v);
    NibbleTurn(chunk, named, m, v);
  }

  /** The octets from number `k` on, spelled from `p` on. */
  lemma {:induction false} OctetsPass(chunk: string, named: Option<Long>, p: nat, s: seq<Byte>, k: nat, m: Machine)
    returns (n: Machine)
    requires k < |s| && Sane(chunk, m) && m.lp == p + 3 * k < |chunk| && m.out == s[..k]
    requires forall j :: k <= j < |s| ==> PairAt(chunk, p + 3 * j, s[j])
    requires forall j :: k <= j < |s| - 1 ==> p + 3 * j + 2 < |chunk| && chunk[p + 3 * j + 2] == ':'
    requires m.state == SkipSpHex || m.state == HexDigit1 || (m.state == LeadSpace && IsHexLetter(chunk[m.lp]))
    ensures n.state == HexColon && n.lp == p + 3 * |s| - 1 && n.out == s
    ensures Sane(chunk, n) && Parse(chunk, named, m) == Parse(chunk, named, n)
    decreases |s| - k
  {
    hide Parse, PairAt, Sane;
    n := PairPass(chunk, named, m, s[k]);
    assert s[..k] + [s[k]] == s[..k + 1];
    if k + 1 == |s| {
      assert s[..|s|] == s;
    } else {
      InRange(chunk, n);
      assert chunk[n.lp] == ':';
      ParseStep(chunk, named, n);
      PairInside(chunk, p + 3 * (k + 1), s[k + 1]);
      n := OctetsPass(chunk, named, p, s, k + 1, Turn(chunk, named, n).m);
    }
  }

  /** Before the first octet: text that begins with a decimal digit is started over. */
  lemma HexStart(chunk: string, named: Option<Long>, a: nat, t: string, s: seq<Byte>) returns (m: Machine)
    requires a + |t| <= |chunk| && chunk[a..a + |t|] == t && SpellsOctets(t, s) && !AllDigits(t)
    requires forall i :: 0 <= i < a ==> chunk[i] in SPACES
    ensures m.lp == a && m.out == [] && (m.state == SkipSpHex || (m.state == LeadSpace && IsHexLetter(chunk[a])))
    ensures Sane(chunk, m) && Parse(chunk, named, START) == Parse(chunk, named, m)
  {
    hide Parse, DigitIs, HexValue;
    assert chunk[a] == t[0] && chunk[a + 1] == t[1];
    assert DigitIs(t[0], s[0] / 16) && DigitIs(t[1], s[0] % 16);
    DigitValue(t[0], s[0] / 16);
    DigitValue(t[1], s[0] % 16);
    SpacesPass(chunk, named, START, a);
    m := START.(lp := a);
    if IsDigit(t[0]) {
      ParseStep(chunk, named, m);
      m := Turn(chunk, named, m).m;
      if IsDigit(t[1]) {
        ParseStep(chunk, named, m);
        m := Turn(chunk, named, m).m;
        assert |s| > 1;
        assert chunk[a + 2] == t[2] == t[3 * 0 + 2] == ':';
      }
      ParseStep(chunk, named, m);
      m := Turn(chunk, named, m).m;
      SpacesPass(chunk, named, m, a);
      m := m.(lp := a);
    }
  }

  lemma HexAccepted(chunk: string, named: Option<Long>, a: string, t: string, b: string, s: seq<Byte>)
    requires Around(chunk, a, t, b) && SpellsOctets(t, s) && !AllDigits(t)
    ensures Parse(chunk, named, START) == Hex(s)
  {
    hide Parse, DigitIs;
    AroundAt(chunk, a, t, b);
    var m := HexStart(chunk, named, |a|, t, s);
    forall j | 0 <= j < |s|
      ensures PairAt(chunk, |a| + 3 * j, s[j])
    {
      assert chunk[|a| + 3 * j] == t[3 * j] && chunk[|a| + 3 * j + 1] == t[3 * j + 1];
    }
    forall j | 0 <= j < |s| - 1
      ensures chunk[|a| + 3 * j + 2] == ':'
    {
      assert chunk[|a| + (3 * j + 2)] == t[3 * j + 2];
    }
    m := OctetsPass(chunk, named, |a|, s, 0, m);
    if b != "" {
      SpaceIs(chunk[m.lp]);
      assert chunk[m.lp] == b[0];
      ParseStep(chunk, named, m);
      m := Turn(chunk, named, m).m;
      SpacesPass(chunk, named, m, |chunk|);
      m := m.(lp := |chunk|);
    }
    ParseEnd(chunk, named, m);
  }

  lemma TagAccepted(chunk: string, named: Option<Long>, a: string, r: string)
    requires Tagged(chunk, a, r) && named.Some?
    ensures Parse(chunk, named, START) == Named(named.value)
  {
    hide Parse;
    AroundAt(chunk, a, "<", r);
    SpacesPass(chunk, named, START, |a|);
    var m := START.(lp := |a|);
    ParseStep(chunk, named, m);
    ParseEnd(chunk, named, Turn(chunk, named, m).m);
  }

  lemma BlankIgnored(chunk: string, named: Option<Long>)
    requires Spaces(chunk)
    ensures Parse(chunk, named, START) == Failed(NotBodyIgnore)
  {
    hide Parse;
    SpacesPass(chunk, named, START, |chunk|);
    ParseEnd(chunk, named, START.(lp := |chunk|));
  }

  // ---------- and no other ----------

  /** The octets read so far, from `p` on, with the first `c` colons. */
  ghost predicate OctetsFrom(chunk: string, p: nat, out: seq<Byte>, c: nat) {
    p <= |chunk| && Spaces(chunk[..p]) &&
    (forall k :: 0 <= k < |out| ==> PairAt(chunk, p + 3 * k, out[k])) &&
    forall k :: 0 <= k < c ==> p + 3 * k + 2 < |chunk| && chunk[p + 3 * k + 2] == ':'
  }

  /** Somewhere the text is not decimal. */
  ghost predicate NotDecimal(chunk: string) {
    exists i :: 0 <= i < |chunk| && (chunk[i] == ':' || IsHexLetter(chunk[i]))
  }

  /** What the characters before the position were, the octets from `p` on. */
  ghost predicate Seen(chunk: string, m: Machine, p: nat)
    requires Sane(chunk, m)
  {
    match m.state
    case LeadSpace => Spaces(chunk[..m.lp])
    case SkipSpHex => Spaces(chunk[..m.lp]) && NotDecimal(chunk)
    case WaitDigits => m.start + 1 == m.lp && Spaces(chunk[..m.start]) && chunk[m.start] in "+-"
    case Digits => Spaces(chunk[..m.start]) && DecimalText(chunk[m.start..m.lp])
    case DigitsTrailSpace =>
      m.end <= m.lp && Spaces(chunk[..m.start]) && DecimalText(chunk[m.start..m.end]) && Spaces(chunk[m.end..m.lp])
    case HexDigit1 =>
      NotDecimal(chunk) && m.out != [] && p + 3 * |m.out| == m.lp && OctetsFrom(chunk, p, m.out, |m.out|)
    case HexDigit2 =>
      NotDecimal(chunk) && p + 3 * |m.out| + 1 == m.lp && OctetsFrom(chunk, p, m.out, |m.out|) &&
      m.hex / 16 < 16 && m.hex % 16 == 0 && DigitIs(chunk[m.lp - 1], m.hex / 16)
    case HexColon =>
      NotDecimal(chunk) && m.out != [] && p + 3 * |m.out| - 1 == m.lp && OctetsFrom(chunk, p, m.out, |m.out| - 1)
    case HexDigitsTrailSpace =>
      NotDecimal(chunk) && m.out != [] && p + 3 * |m.out| - 1 <= m.lp && OctetsFrom(chunk, p, m.out, |m.out| - 1) &&
      Spaces(chunk[p + 3 * |m.out| - 1..m.lp])
    case EndEnum => IsTag(chunk)
  }

  lemma SpacesMore(chunk: string, a: nat, b: nat)
    requires a <= b < |chunk| && Spaces(chunk[a..b]) && chunk[b] in SPACES
    ensures Spaces(chunk[a..b + 1])
  {
    assert chunk[a..b + 1] == chunk[a..b] + [chunk[b]];
  }

  lemma SeenSpace(chunk: string, m: Machine, p: nat)
    requires Sane(chunk, m) && m.lp < |chunk| && Seen(chunk, m, p) && chunk[m.lp] in SPACES && TurnSpace(m).On?
    requires Sane(chunk, TurnSpace(m).m)
    ensures Seen(chunk, TurnSpace(m).m, p)
  {
    hide OctetsFrom, NotDecimal, DecimalText, DigitIs;
    match m.state
    case LeadSpace | SkipSpHex =>
      SpacesMore(chunk, 0, m.lp);
      assert chunk[0..m.lp] == chunk[..m.lp] && chunk[0..m.lp + 1] == chunk[..m.lp + 1];
    case DigitsTrailSpace => SpacesMore(chunk, m.end, m.lp);
    case Digits => assert chunk[m.lp..m.lp + 1] == [chunk[m.lp]];
    case HexColon => assert chunk[m.lp..m.lp + 1] == [chunk[m.lp]];
    case HexDigitsTrailSpace => SpacesMore(chunk, p + 3 * |m.out| - 1, m.lp);
    case _ =>
  }

  lemma MoreDecimal(t: string, c: char)
    requires IsDigit(c) && (DecimalText(t) || t == "" || (|t| == 1 && t[0] in "+-"))
    ensures DecimalText(t + [c])
  {
    if t != "" && (t[0] == '-' || t[0] == '+') {
      assert Body(t + [c]) == Body(t) + [c];
    } else {
      assert Body(t + [c]) == t + [c];
    }
  }

  lemma OctetsMore(chunk: string, p: nat, out: seq<Byte>, b: Byte)
    requires OctetsFrom(chunk, p, out, |out|) && PairAt(chunk, p + 3 * |out|, b)
    ensures OctetsFrom(chunk, p, out + [b], |out + [b]| - 1)
  {
    hide PairAt;
  }

  lemma ColonsMore(chunk: string, p: nat, out: seq<Byte>)
    requires out != [] && OctetsFrom(chunk, p, out, |out| - 1)
    requires p + 3 * |out| - 1 < |chunk| && chunk[p + 3 * |out| - 1] == ':'
    ensures OctetsFrom(chunk, p, out, |out|)
  {
    hide PairAt;
  }

  lemma NoOctets(chunk: string, p: nat)
    requires p <= |chunk| && Spaces(chunk[..p])
    ensures OctetsFrom(chunk, p, [], 0)
  {
  }

  /** A hexadecimal digit, decimal or not. */
  lemma SeenNibble(chunk: string, m: Machine, p: nat, v: nat, t: Turned) returns (q: nat)
    requires Sane(chunk, m) && m.lp < |chunk| && Seen(chunk, m, p) && v < 16 && DigitIs(chunk[m.lp], v)
    requires t == (if IsDigit(chunk[m.lp]) then TurnDigit(m, v) else TurnLetter(m, v)) && t.On? && Sane(chunk, t.m)
    ensures Seen(chunk, t.m, q)
  {
    hide OctetsFrom, DecimalText, DigitIs, PairAt;
    DigitValue(chunk[m.lp], v);
    q := p;
    assert IsHexLetter(chunk[m.lp]) ==> NotDecimal(chunk);
    match m.state
    case LeadSpace =>
      if IsDigit(chunk[m.lp]) {
        assert chunk[m.lp..m.lp + 1] == "" + [chunk[m.lp]];
        MoreDecimal("", chunk[m.lp]);
      } else {
        q := m.lp;
        NoOctets(chunk, q);
      }
    case SkipSpHex =>
      q := m.lp;
      NoOctets(chunk, q);
    case WaitDigits =>
      assert chunk[m.start..m.lp + 1] == [chunk[m.start]] + [chunk[m.lp]];
      MoreDecimal([chunk[m.start]], chunk[m.lp]);
    case Digits =>
      assert chunk[m.start..m.lp + 1] == chunk[m.start..m.lp] + [chunk[m.lp]];
      if IsDigit(chunk[m.lp]) { MoreDecimal(chunk[m.start..m.lp], chunk[m.lp]); }
      assert Spaces(chunk[..0]);
    case HexDigit2 =>
      PairSeen(chunk, m, v);
      OctetsMore(chunk, p, m.out, (m.hex + v) % 256);
    case _ =>
  }

  lemma PairSeen(chunk: string, m: Machine, v: nat)
    requires 0 < m.lp < |chunk| && v < 16 && m.hex <= 240 && m.hex % 16 == 0 && m.hex / 16 < 16
    requires DigitIs(chunk[m.lp - 1], m.hex / 16) && DigitIs(chunk[m.lp], v)
    ensures PairAt(chunk, m.lp - 1, (m.hex + v) % 256)
  {
    hide DigitIs;
    assert (m.hex + v) / 16 == m.hex / 16 && (m.hex + v) % 16 == v;
  }

  /** One character. */
  lemma SeenNext(chunk: string, named: Option<Long>, m: Machine, p: nat) returns (q: nat)
    requires Sane(chunk, m) && m.lp < |chunk| && Seen(chunk, m, p) && Turn(chunk, named, m).On?
    ensures Sane(chunk, Turn(chunk, named, m).m) && Seen(chunk, Turn(chunk, named, m).m, q)
  {
    hide OctetsFrom, DecimalText, DigitIs, Sane, HexValue, TurnDigit, TurnLetter, TurnSpace;
    TurnSane(chunk, named, m);
    InRange(chunk, m);
    var c := chunk[m.lp];
    SpaceIs(c);
    q := p;
    if IsSpace(c) {
      SeenSpace(chunk, m, p);
    } else if IsDigit(c) || IsHexLetter(c) {
      OnlyDigits(c);
      q := SeenNibble(chunk, m, p, HexValue(c), Turn(chunk, named, m));
    } else if c == '<' {
      assert chunk == chunk[..m.lp] + "<" + chunk[m.lp + 1..];
      assert Tagged(chunk, chunk[..m.lp], chunk[m.lp + 1..]);
    } else if c == ':' {
      assert NotDecimal(chunk);
      if m.state == HexColon { ColonsMore(chunk, p, m.out); }
      assert Spaces(chunk[..0]);
    }
  }

  lemma OnlyBroken(chunk: string, named: Option<Long>, m: Machine)
    requires m.lp < |chunk| && m.hex < 256 && Turn(chunk, named, m).Answer?
    ensures Turn(chunk, named, m) == Answer(BrokenEncoding)
  {
  }

  /** The end of the text. */
  lemma SeenAll(chunk: string, named: Option<Long>, m: Machine, p: nat)
    requires Sane(chunk, m) && m.lp == |chunk| && Seen(chunk, m, p)
    ensures var r := Finish(chunk, named, m);
      if r.Failed? then r.r == BrokenEncoding || (r.r == NotBodyIgnore && Spaces(chunk)) else Means(chunk, named, r)
  {
    hide OctetsFrom, DigitIs, DecimalText;
    assert chunk[..|chunk|] == chunk;
    match m.state
    case Digits =>
      var t := chunk[m.start..];
      assert chunk[m.start..m.lp] == t && chunk == chunk[..m.start] + t + "";
      assert Around(chunk, chunk[..m.start], t, "");
    case DigitsTrailSpace =>
      var t := chunk[m.start..m.end];
      assert chunk == chunk[..m.start] + t + chunk[m.end..];
      assert Around(chunk, chunk[..m.start], t, chunk[m.end..]);
    case HexColon => OctetsWhole(chunk, m.out, p, |chunk|);
    case HexDigitsTrailSpace => OctetsWhole(chunk, m.out, p, p + 3 * |m.out| - 1);
    case _ =>
  }

  lemma SpaceBefore(chunk: string, p: nat, i: nat)
    ensures i < p <= |chunk| && Spaces(chunk[..p]) ==> chunk[i] in SPACES
  {
    if i < p <= |chunk| { assert chunk[..p][i] == chunk[i]; }
  }

  lemma SpaceAfter(chunk: string, q: nat, i: nat)
    ensures q <= i < |chunk| && Spaces(chunk[q..]) ==> chunk[i] in SPACES
  {
    if q <= i < |chunk| { assert chunk[q..][i - q] == chunk[i]; }
  }

  lemma NoSpace(c: char)
    ensures c == ':' || IsHexLetter(c) ==> c !in SPACES
  {
  }

  lemma Inside(chunk: string, p: nat, q: nat, i: nat)
    requires p <= q <= |chunk| && i < |chunk| && Spaces(chunk[..p]) && Spaces(chunk[q..])
    requires chunk[i] == ':' || IsHexLetter(chunk[i])
    ensures p <= i < q
  {
    hide Spaces;
    SpaceBefore(chunk, p, i);
    SpaceAfter(chunk, q, i);
    NoSpace(chunk[i]);
  }

  lemma OctetsSpelled(chunk: string, out: seq<Byte>, p: nat, q: nat)
    requires out != [] && OctetsFrom(chunk, p, out, |out| - 1) && q == p + 3 * |out| - 1 <= |chunk|
    ensures SpellsOctets(chunk[p..q], out)
  {
    hide DigitIs;
    var t := chunk[p..q];
    forall k | 0 <= k < |out|
      ensures DigitIs(t[3 * k], out[k] / 16) && DigitIs(t[3 * k + 1], out[k] % 16)
    {
      assert PairAt(chunk, p + 3 * k, out[k]);
      assert t[3 * k] == chunk[p + 3 * k] && t[3 * k + 1] == chunk[p + 3 * k + 1];
    }
    forall k | 0 <= k < |out| - 1
      ensures t[3 * k + 2] == ':'
    {
      assert t[3 * k + 2] == chunk[p + 3 * k + 2];
    }
  }

  lemma OctetsWhole(chunk: string, out: seq<Byte>, p: nat, q: nat)
    requires out != [] && OctetsFrom(chunk, p, out, |out| - 1) && NotDecimal(chunk)
    requires q == p + 3 * |out| - 1 <= |chunk| && Spaces(chunk[q..])
    ensures IsHex(chunk, out)
  {
    hide DigitIs, PairAt, SpellsOctets;
    var a, t, b := chunk[..p], chunk[p..q], chunk[q..];
    OctetsSpelled(chunk, out, p, q);
    var i :| 0 <= i < |chunk| && (chunk[i] == ':' || IsHexLetter(chunk[i]));
    Inside(chunk, p, q, i);
    assert t[i - p] == chunk[i] && !IsDigit(t[i - p]);
    assert chunk == a + t + b;
    HexAround(chunk, a, t, b, out);
  }

  lemma HexAround(chunk: string, a: string, t: string, b: string, s: seq<Byte>)
    requires Around(chunk, a, t, b) && SpellsOctets(t, s) && !AllDigits(t)
    ensures IsHex(chunk, s)
  {
    hide Around, SpellsOctets;
  }

  lemma {:induction false} ParsedSeen(chunk: string, named: Option<Long>, m: Machine, p: nat)
    requires Sane(chunk, m) && Seen(chunk, m, p)
    ensures var r := Parse(chunk, named, m);
      if r.Failed? then r.r == BrokenEncoding || (r.r == NotBodyIgnore && Spaces(chunk)) else Means(chunk, named, r)
    decreases Rank(m.state), |chunk| - m.lp
  {
    hide Parse, Seen, Sane, Turn, Finish, Means;
    InRange(chunk, m);
    if m.lp == |chunk| {
      SeenAll(chunk, named, m, p);
      ParseEnd(chunk, named, m);
    } else {
      ParseTurn(chunk, named, m);
      TurnSane(chunk, named, m);
      if Turn(chunk, named, m).On? {
        var q := SeenNext(chunk, named, m, p);
        ParsedSeen(chunk, named, Turn(chunk, named, m).m, q);
      } else {
        OnlyBroken(chunk, named, m);
      }
    }
  }

  /** The parser gives a text exactly the meaning it has: a decimal number between white space, octets
      between white space, a name after white space, or none, and then white space alone is ignored and
      everything else is broken. */
  lemma ParseIs(chunk: string, named: Option<Long>)
    ensures Means(chunk, named, Parse(chunk, named, START))
    ensures forall t :: IsDecimal(chunk, t) ==> Parse(chunk, named, START) == Dec(t)
    ensures forall s :: IsHex(chunk, s) ==> Parse(chunk, named, START) == Hex(s)
    ensures IsTag(chunk) && named.Some? ==> Parse(chunk, named, START) == Named(named.value)
  {
    hide Parse, DecimalText, SpellsOctets;
    assert chunk[..0] == "";
    ParsedSeen(chunk, named, START, 0);
    if Spaces(chunk) { BlankIgnored(chunk, named); }
    forall t | IsDecimal(chunk, t)
      ensures Parse(chunk, named, START) == Dec(t)
    {
      var a, b :| Around(chunk, a, t, b);
      DecimalAccepted(chunk, named, a, t, b);
    }
    forall s | IsHex(chunk, s)
      ensures Parse(chunk, named, START) == Hex(s)
    {
      var a, t, b :| Around(chunk, a, t, b) && SpellsOctets(t, s) && !AllDigits(t);
      HexAccepted(chunk, named, a, t, b, s);
    }
    if IsTag(chunk) && named.Some? {
      var a, r :| Tagged(chunk, a, r);
      TagAccepted(chunk, named, a, r);
    }
  }
}
