/** UTF-8 strings as XML text: the escaping printer and the converter that expands &amp;, &lt; and &gt;. */
module XerEntities {
  import opened Octets
  import opened XerBuffer

  // ---------- the printer ----------

  /** The escape sequences of the control characters, by number. */
  const CONTROLS: seq<string> := [
    "<nul/>", "<soh/>", "<stx/>", "<etx/>", "<eot/>", "<enq/>", "<ack/>", "<bel/>",
    "<bs/>", "\t", "\n", "<vt/>", "<ff/>", "\r", "<so/>", "<si/>",
    "<dle/>", "<dc1/>", "<dc2/>", "<dc3/>", "<dc4/>", "<nak/>", "<syn/>", "<etb/>",
    "<can/>", "<em/>", "<sub/>", "<esc/>", "<is4/>", "<is3/>", "<is2/>", "<is1/>"]

  const AMP: seq<Byte> := [0x26, 0x61, 0x6d, 0x70, 0x3b]   // &amp;
  const LT: seq<Byte> := [0x26, 0x6c, 0x74, 0x3b]          // &lt;
  const GT: seq<Byte> := [0x26, 0x67, 0x74, 0x3b]          // &gt;

  function Ascii(s: string): seq<Byte> {
    seq(|s|, i requires 0 <= i < |s| => s[i] as nat % 256)
  }

  /** OCTET_STRING__xer_escape_table; empty for characters written as they are. */
  function Escape(ch: Byte): seq<Byte> {
    if ch < 32 then Ascii(CONTROLS[ch])
    else if ch == 0x26 then AMP else if ch == 0x3c then LT else if ch == 0x3e then GT
    else []
  }

  function Written(ch: Byte): seq<Byte> {
    if Escape(ch) == [] then [ch] else Escape(ch)
  }

  function Escaped(s: seq<Byte>): seq<Byte> {
    if s == [] then [] else Written(s[0]) + Escaped(s[1..])
  }

  lemma {:induction false} EscapedAppend(s: seq<Byte>, b: Byte)
    ensures Escaped(s + [b]) == Escaped(s) + Written(b)
    decreases s
  {
    hide Written;
    if s == [] {
      assert (s + [b])[1..] == [];
    } else {
      assert (s + [b])[1..] == s[1..] + [b];
      EscapedAppend(s[1..], b);
    }
  }

  /** OCTET_STRING_encode_xer_utf8: the pieces handed to the callback, put together. */
  method EncodeUtf8(buf: array<Byte>, size: nat) returns (out: seq<Byte>)
    requires size <= buf.Length
    ensures out == Escaped(buf[..size])
  {
    hide Escape, Escaped;
    out := [];
    ghost var s := buf[..size];
    EscapedNothing(s);
    var b, ss := 0, 0;
    while b < size
      invariant ss <= b <= size && out + s[ss..b] == Escaped(s[..b])
    {
      var escape := Escape(buf[b]);
      EscapedMore(s, ss, b, out);
      if escape != [] {
        out := out + buf[ss..b] + escape;
        ss := b + 1;
        assert out + s[ss..b + 1] == out;
      }
      b := b + 1;
    }
    assert s[..size] == s && s[ss..size] == buf[ss..b];
    out := out + buf[ss..b];
  }

  lemma EscapedNothing(s: seq<Byte>)
    ensures [] + s[0..0] == Escaped(s[..0])
  {
  }

  lemma EscapedMore(s: seq<Byte>, ss: nat, b: nat, out: seq<Byte>)
    requires ss <= b < |s| && out + s[ss..b] == Escaped(s[..b])
    ensures Escaped(s[..b + 1]) == if Escape(s[b]) == [] then out + s[ss..b + 1] else out + s[ss..b] + Escape(s[b])
  {
    hide Escape, Escaped;
    EscapedAppend(s[..b], s[b]);
    assert s[..b + 1] == s[..b] + [s[b]] && s[ss..b + 1] == s[ss..b] + [s[b]];
  }

  // ---------- the converter ----------

  /** No numeric character reference. */
  predicate NoNumeric(text: seq<Byte>) {
    forall i :: 0 <= i < |text| - 1 && text[i] == 0x26 ==> text[i + 1] != 0x23
  }

  /** memchr for ';': where it is first, or the length. */
  function Semicolon(text: seq<Byte>): (n: nat)
    ensures n <= |text| && (n < |text| ==> text[n] == 0x3b)
  {
    if text == [] || text[0] == 0x3b then 0 else 1 + Semicolon(text[1..])
  }

  /** What an ampersand at the start of the text stands for, and how many characters it takes; nothing
      while its end is not in sight. */
  datatype Entity = Entity(ch: Byte, taken: nat) | WantMore

  function EntityOf(text: seq<Byte>): (e: Entity)
    requires text != []
    ensures e.Entity? ==> 1 <= e.taken <= |text|
  {
    if |text| == 1 then WantMore
    else
      var window := if |text| > 5 then text[..5] else text;
      var sc := Semicolon(window);
      if sc == |window| then WantMore
      else if sc == 4 && text[1] == 0x61 && text[2] == 0x6d && text[3] == 0x70 then Entity(0x26, 5)
      else if sc == 3 && text[1] == 0x6c && text[2] == 0x74 then Entity(0x3c, 4)
      else if sc == 3 && text[1] == 0x67 && text[2] == 0x74 then Entity(0x3e, 4)
      else Entity(0x26, 1)
  }

  /** The text expanded, and how much of it is left unread: an ampersand whose end is not in sight is
      copied when `haveMore` is set, and stops the conversion otherwise. */
  function Expand(text: seq<Byte>, haveMore: bool): (r: (seq<Byte>, nat))
    ensures |r.0| <= |text| && r.1 <= |text|
  {
    if text == [] then ([], 0)
    else if text[0] != 0x26 then
      var (out, left) := Expand(text[1..], haveMore);
      ([text[0]] + out, left)
    else
      match EntityOf(text)
      case Entity(ch, taken) =>
        var (out, left) := Expand(text[taken..], haveMore);
        ([ch] + out, left)
      case WantMore =>
        if haveMore then
          var (out, left) := Expand(text[1..], haveMore);
          ([text[0]] + out, left)
        else ([], |text|)
  }

  /** Text free of control characters other than tab, line feed and carriage return. */
  predicate Plain(s: seq<Byte>) {
    forall i :: 0 <= i < |s| ==> s[i] >= 32 || s[i] == 9 || s[i] == 10 || s[i] == 13
  }

  lemma WrittenExpands(ch: Byte, rest: seq<Byte>, haveMore: bool)
    requires Plain([ch])
    ensures Expand(Written(ch) + rest, haveMore) == ([ch] + Expand(rest, haveMore).0, Expand(rest, haveMore).1)
  {
    assert [ch][0] == ch;
    var text := Written(ch) + rest;
    assert text[|Written(ch)|..] == rest;
    if ch == 0x26 {
      Amp(rest);
    } else if ch == 0x3c || ch == 0x3e {
      Angle(ch, rest);
    } else {
      assert Written(ch) == [ch];
    }
  }

  lemma Amp(rest: seq<Byte>)
    ensures EntityOf(AMP + rest) == Entity(0x26, 5)
  {
    var text := AMP + rest;
    var window := if |text| > 5 then text[..5] else text;
    assert window == AMP;
    assert Semicolon(AMP[4..]) == 0 && Semicolon(AMP[3..]) == 1;
    assert AMP[3..][1..] == AMP[4..] && AMP[2..][1..] == AMP[3..] && AMP[1..][1..] == AMP[2..];
    assert Semicolon(AMP[2..]) == 2;
    assert Semicolon(AMP[1..]) == 3;
    assert Semicolon(AMP) == 4;
  }

  lemma Angle(ch: Byte, rest: seq<Byte>)
    requires ch == 0x3c || ch == 0x3e
    ensures EntityOf(Written(ch) + rest) == Entity(ch, 4)
  {
    var text := Written(ch) + rest;
    var window := if |text| > 5 then text[..5] else text;
    assert window[0] != 0x3b && window[1] != 0x3b && window[2] != 0x3b && window[3] == 0x3b;
    assert Semicolon(window[3..]) == 0;
    assert window[2..][1..] == window[3..] && window[1..][1..] == window[2..];
    assert Semicolon(window[2..]) == 1;
    assert Semicolon(window[1..]) == 2;
    assert Semicolon(window) == 3;
  }

  /** Escaping and expanding: the escaped form of plain text has no numeric reference, and the text comes
      back from it, all of it read. */
  lemma {:induction false} EscapedExpands(s: seq<Byte>, haveMore: bool)
    requires Plain(s)
    ensures NoNumeric(Escaped(s)) && Expand(Escaped(s), haveMore) == (s, 0)
    decreases s
  {
    hide Written, Expand, NoNumeric;
    EscapedNoNumeric(s);
    if s == [] {
      ExpandNothing(haveMore);
    } else {
      assert Plain(s[1..]) && Plain([s[0]]);
      EscapedExpands(s[1..], haveMore);
      WrittenExpands(s[0], Escaped(s[1..]), haveMore);
      assert s == [s[0]] + s[1..];
    }
  }

  lemma ExpandNothing(haveMore: bool)
    ensures Expand([], haveMore) == ([], 0)
  {
  }

  lemma {:induction false} EscapedNoNumeric(s: seq<Byte>)
    requires Plain(s)
    ensures NoNumeric(Escaped(s))
    decreases s
  {
    if s != [] {
      assert Plain(s[1..]);
      EscapedNoNumeric(s[1..]);
      var w, rest := Written(s[0]), Escaped(s[1..]);
      forall i | 0 <= i < |w + rest| - 1 && (w + rest)[i] == 0x26
        ensures (w + rest)[i + 1] != 0x23
      {
        if i >= |w| { assert rest[i - |w|] == 0x26; }
      }
    }
  }

  /** OCTET_STRING__convert_entrefs on text without numeric references: how much of it is converted. */
  method ConvertEntrefs(st: Buffer, chunk: seq<Byte>, haveMore: bool) returns (n: nat)
    requires st.Valid() && NoNumeric(chunk)
    modifies st`buf, st`size
    ensures st.Valid() && (st.Contents(), |chunk| - n) ==
      (old(st.Contents()) + Expand(chunk, haveMore).0, Expand(chunk, haveMore).1)
  {
    hide Expand, EntityOf;
    ghost var was := st.Contents();
    var ns := st.size + |chunk|;
    st.Reserve(ns);
    var buf, b, p := st.buf, st.size, 0;
    var stalled := false;
    ghost var out := [];
    assert chunk[0..] == chunk;
    while p < |chunk| && !stalled
      invariant st.buf == buf && buf.Length == ns + 1 && p <= |chunk| && ns == |was| + |chunk|
      invariant b == |was| + |out| && |out| <= p && buf[..b] == was + out
      invariant out + Expand(chunk[p..], haveMore).0 == Expand(chunk, haveMore).0
      invariant Expand(chunk[p..], haveMore).1 == Expand(chunk, haveMore).1
      invariant stalled ==> Expand(chunk[p..], haveMore) == ([], |chunk| - p)
      decreases |chunk| - p, if stalled then 0 else 1
    {
      var ch := chunk[p];
      ExpandStep(chunk, p, haveMore);
      var entity := if ch != 0x26 then Entity(ch, 1) else EntityOf(chunk[p..]);
      match entity {
        case Entity(c, taken) =>
          buf[b] := c;
          out, b, p := out + [c], b + 1, p + taken;
        case WantMore =>
          if haveMore {
            buf[b] := ch;
            out, b, p := out + [ch], b + 1, p + 1;
          } else {
            stalled := true;
          }
      }
    }
    ExpandNothing(haveMore);
    assert !stalled ==> chunk[p..] == [];
    assert out + [] == out;
    ghost var now := buf[..b];
    st.size := b;
    assert st.size <= ns;
    buf[st.size] := 0;
    assert st.Contents() == now;
    n := p;
  }

  lemma ExpandStep(chunk: seq<Byte>, p: nat, haveMore: bool)
    requires p < |chunk|
    ensures var text := chunk[p..];
      var e := EntityOf(text);
      var step := if text[0] != 0x26 then Entity(text[0], 1)
                  else if e.WantMore? && haveMore then Entity(text[0], 1) else e;
      match step
      case Entity(c, taken) =>
        1 <= taken <= |text| &&
        Expand(text, haveMore) == ([c] + Expand(chunk[p + taken..], haveMore).0, Expand(chunk[p + taken..], haveMore).1)
      case WantMore => Expand(text, haveMore) == ([], |text|)
  {
    var text := chunk[p..];
    assert forall k :: 0 <= k <= |text| ==> text[k..] == chunk[p + k..];
  }

  // ---------- resuming ----------

  lemma {:induction false} SemicolonFound(text: seq<Byte>, more: seq<Byte>)
    requires Semicolon(text) < |text|
    ensures Semicolon(text + more) == Semicolon(text)
    decreases text
  {
    if text[0] != 0x3b {
      assert (text + more)[1..] == text[1..] + more;
      SemicolonFound(text[1..], more);
    }
  }

  /** What the first character, or the entity it begins, stands for. */
  function First(text: seq<Byte>): (e: Entity)
    requires text != []
    ensures e.Entity? ==> 1 <= e.taken <= |text|
  {
    if text[0] != 0x26 then Entity(text[0], 1) else EntityOf(text)
  }

  /** An entity whose end is in sight is not changed by what follows. */
  lemma FirstFound(text: seq<Byte>, more: seq<Byte>)
    requires text != [] && First(text).Entity?
    ensures First(text + more) == First(text)
  {
    hide Semicolon;
    var all := text + more;
    if text[0] == 0x26 {
      var window := if |text| > 5 then text[..5] else text;
      var wider := if |all| > 5 then all[..5] else all;
      assert wider == window + wider[|window|..];
      SemicolonFound(window, wider[|window|..]);
    }
  }

  lemma ExpandFirst(text: seq<Byte>)
    requires text != []
    ensures First(text).WantMore? ==> Expand(text, false) == ([], |text|)
    ensures First(text).Entity? ==>
      var rest := Expand(text[First(text).taken..], false);
      Expand(text, false) == ([First(text).ch] + rest.0, rest.1)
  {
  }

  lemma Regroup(ch: Byte, out: seq<Byte>, rest: seq<Byte>)
    ensures [ch] + (out + rest) == [ch] + out + rest && [] + rest == rest
  {
  }

  /** What is converted of a text that stalls, followed by what its unread rest gives with more text,
      is what the whole text gives. */
  lemma {:induction false} ExpandResumes(a: seq<Byte>, b: seq<Byte>)
    ensures var (out, left) := Expand(a, false);
      var rest := Expand(a[|a| - left..] + b, false);
      Expand(a + b, false) == (out + rest.0, rest.1)
    decreases a
  {
    hide First, Expand;
    ExpandNothing(false);
    if a == [] {
      assert a[|a|..] + b == b == a + b;
      Regroup(0, [], Expand(b, false).0);
    } else if First(a).WantMore? {
      ExpandFirst(a);
      assert a[0..] == a;
      Regroup(0, [], Expand(a + b, false).0);
    } else {
      FirstFound(a, b);
      ExpandFirst(a);
      ExpandFirst(a + b);
      var tail := a[First(a).taken..];
      assert (a + b)[First(a).taken..] == tail + b;
      ExpandResumes(tail, b);
      var (out, left) := Expand(tail, false);
      assert a[|a| - left..] == tail[|tail| - left..];
      Regroup(First(a).ch, out, Expand(tail[|tail| - left..] + b, false).0);
    }
  }

  // ---------- the tables in words ----------

  /** The names of the control characters; tab, line feed and carriage return have none. */
  const NAMES: seq<string> := [
    "nul", "soh", "stx", "etx", "eot", "enq", "ack", "bel", "bs", "", "", "vt", "ff", "", "so", "si",
    "dle", "dc1", "dc2", "dc3", "dc4", "nak", "syn", "etb", "can", "em", "sub", "esc", "is4", "is3", "is2", "is1"]

  /** Tab, line feed and carriage return are written as they are, and so is everything from the blank on
      but the three characters of markup; other control characters are written as an empty element of
      their name. */
  lemma Escaping(ch: Byte)
    ensures Written(ch) ==
      if ch == 0x26 then Ascii("&amp;") else if ch == 0x3c then Ascii("&lt;") else if ch == 0x3e then Ascii("&gt;")
      else if ch >= 32 || ch == 9 || ch == 10 || ch == 13 then [ch]
      else Ascii("<" + NAMES[ch] + "/>")
  {
    if ch < 32 { ControlNamed(ch); }
    assert AMP == Ascii("&amp;") && LT == Ascii("&lt;") && GT == Ascii("&gt;");
  }

  lemma ControlNamed(ch: nat)
    requires ch < 32
    ensures if ch == 9 || ch == 10 || ch == 13 then Ascii(CONTROLS[ch]) == [ch]
            else CONTROLS[ch] == "<" + NAMES[ch] + "/>"
  {
    if ch < 16 && ch != 9 && ch != 10 && ch != 13 { LowNamed(ch); }
    if ch >= 16 { HighNamed(ch); }
  }

  lemma LowNamed(ch: nat)
    requires ch < 16 && ch != 9 && ch != 10 && ch != 13
    ensures CONTROLS[ch] == "<" + NAMES[ch] + "/>"
  {
  }

  lemma HighNamed(ch: nat)
    requires 16 <= ch < 32
    ensures CONTROLS[ch] == "<" + NAMES[ch] + "/>"
  {
  }

  // ---------- control characters read back ----------

  /** Which control character a name stands for, by its first two letters and its last. */
  function Numbered(code: nat): nat {
    match code
    case 7239020 => 0
    case 7565160 => 1
    case 7566456 => 2
    case 6648952 => 3
    case 6647668 => 4
    case 6647409 => 5
    case 6382443 => 6
    case 6448492 => 7
    case 6452083 => 8
    case 7763060 => 11
    case 6710886 => 12
    case 7565167 => 14
    case 7563625 => 15
    case 6581349 => 16
    case 6578993 => 17
    case 6578994 => 18
    case 6578995 => 19
    case 6578996 => 20
    case 7233899 => 21
    case 7567726 => 22
    case 6648930 => 23
    case 6513006 => 24
    case 6647149 => 25
    case 7566690 => 26
    case 6648675 => 27
    case 6910772 => 28
    case 6910771 => 29
    case 6910770 => 30
    case 6910769 => 31
    case _ => 32
  }

  function Letters(name: string): nat
    requires |name| >= 2
  {
    name[0] as nat * 65536 + name[1] as nat * 256 + name[|name| - 1] as nat
  }

  predicate HasName(ch: nat) { ch < 32 && ch != 9 && ch != 10 && ch != 13 }

  ghost predicate Names(ch: nat, name: string) {
    |name| >= 2 && Numbered(Letters(name)) == ch && forall i :: 0 <= i < |name| ==> name[i] < 128 as char
  }

  lemma NameNumber(ch: nat)
    requires HasName(ch)
    ensures Names(ch, NAMES[ch])
  {
    hide Names;
    if ch < 8 { Names0(ch); } else if ch < 16 { Names8(ch); } else if ch < 24 { Names16(ch); } else { Names24(ch); }
  }

  lemma Names0(ch: nat)
    requires ch < 8
    ensures Names(ch, NAMES[ch])
  {
  }

  lemma Names8(ch: nat)
    requires 8 <= ch < 16 && HasName(ch)
    ensures Names(ch, NAMES[ch])
  {
  }

  lemma Names16(ch: nat)
    requires 16 <= ch < 24
    ensures Names(ch, NAMES[ch])
  {
  }

  lemma Names24(ch: nat)
    requires 24 <= ch < 32
    ensures Names(ch, NAMES[ch])
  {
  }

  lemma Element(name: string, other: string)
    requires Ascii("<" + name + "/>") == Ascii("<" + other + "/>")
    requires forall i :: 0 <= i < |name| ==> name[i] < 128 as char
    requires forall i :: 0 <= i < |other| ==> other[i] < 128 as char
    ensures name == other
  {
    var s, t := "<" + name + "/>", "<" + other + "/>";
    assert |Ascii(s)| == |s| && |Ascii(t)| == |t|;
    forall i | 0 <= i < |name|
      ensures name[i] == other[i]
    {
      assert Ascii(s)[i + 1] == Ascii(t)[i + 1] && s[i + 1] == name[i] && t[i + 1] == other[i];
    }
  }

  /** No two control characters have the same sequence. */
  lemma EscapesApart(a: nat, b: nat)
    requires a < 32 && b < 32 && Escape(a) == Escape(b)
    ensures a == b
  {
    hide Numbered, Letters, Ascii;
    ControlNamed(a);
    ControlNamed(b);
    EscapeLength(a);
    EscapeLength(b);
    if HasName(a) && HasName(b) {
      NameNumber(a);
      NameNumber(b);
      Element(NAMES[a], NAMES[b]);
    }
  }

  lemma EscapeLength(ch: nat)
    requires ch < 32
    ensures Escape(ch) == Ascii(CONTROLS[ch]) && if HasName(ch) then |Escape(ch)| >= 5 else Escape(ch) == [ch]
  {
  }

  /** OS__check_escaped_control_char: the control character written so, or -1. */
  method CheckControl(text: seq<Byte>) returns (i: int)
    ensures i == -1 <==> forall ch: nat :: ch < 32 ==> text != Escape(ch)
    ensures i != -1 ==> 0 <= i < 32 && text == Escape(i)
  {
    hide Escape;
    i := 0;
    while i < 32
      invariant 0 <= i <= 32 && forall ch: nat :: ch < i ==> text != Escape(ch)
    {
      if Escape(i) == text {
        return;
      }
      i := i + 1;
    }
    i := -1;
  }

  /** OCTET_STRING__handle_control_chars: appends the control character that the tag stands for. */
  method HandleControl(st: Buffer, text: seq<Byte>) returns (ok: bool)
    requires st.Valid()
    modifies st`buf, st`size
    ensures st.Valid() && (!ok ==> st.Contents() == old(st.Contents()))
    ensures forall ch: nat :: ch < 32 && text == Escape(ch) ==> ok && st.Contents() == old(st.Contents()) + [ch]
    ensures ok ==> exists ch: nat :: ch < 32 && text == Escape(ch)
  {
    hide Escape;
    var control := CheckControl(text);
    if control < 0 {
      return false;
    }
    forall ch: nat | ch < 32 && text == Escape(ch) { EscapesApart(ch, control); }
    ghost var was := st.Contents();
    st.Reserve(st.size + 1);
    st.buf[st.size] := control;
    st.size := st.size + 1;
    st.buf[st.size] := 0;
    assert st.Contents() == was + [control];
    ok := true;
  }

  // ---------- what an ampersand stands for ----------

  /** A semicolon among the first five characters. */
  ghost predicate Ends(text: seq<Byte>) {
    exists k :: 0 <= k < 5 && k < |text| && text[k] == 0x3b
  }

  lemma {:induction false} SemicolonIs(text: seq<Byte>, k: nat)
    requires k < |text| && text[k] == 0x3b && forall j :: 0 <= j < k ==> text[j] != 0x3b
    ensures Semicolon(text) == k
    decreases k
  {
    if k > 0 { SemicolonIs(text[1..], k - 1); }
  }

  lemma {:induction false} SemicolonFirst(text: seq<Byte>)
    ensures forall j :: 0 <= j < Semicolon(text) ==> text[j] != 0x3b
    decreases text
  {
    if text != [] { SemicolonFirst(text[1..]); }
  }

  /** The three entities, by their texts; another ampersand is itself when a semicolon follows in time,
      and more is wanted otherwise. */
  lemma EntityIs(text: seq<Byte>)
    requires text != [] && text[0] == 0x26
    ensures EntityOf(text) ==
      if Ascii("&amp;") <= text then Entity(0x26, 5)
      else if Ascii("&lt;") <= text then Entity(0x3c, 4)
      else if Ascii("&gt;") <= text then Entity(0x3e, 4)
      else if Ends(text) then Entity(0x26, 1)
      else WantMore
  {
    hide Semicolon, Ascii, Ends;
    EntityTexts();
    var window := if |text| > 5 then text[..5] else text;
    PrefixIs(text, AMP);
    PrefixIs(text, LT);
    PrefixIs(text, GT);
    EndsIs(text);
    if AMP <= text { SemicolonIs(window, 4); }
    if LT <= text || GT <= text { SemicolonIs(window, 3); }
  }

  lemma EntityTexts()
    ensures Ascii("&amp;") == AMP && Ascii("&lt;") == LT && Ascii("&gt;") == GT
  {
  }

  lemma EndsIs(text: seq<Byte>)
    ensures var window := if |text| > 5 then text[..5] else text;
      Ends(text) <==> Semicolon(window) < |window|
  {
    hide Semicolon;
    var window := if |text| > 5 then text[..5] else text;
    SemicolonFirst(window);
    if Semicolon(window) < |window| { assert text[Semicolon(window)] == 0x3b; }
  }

  lemma PrefixIs(text: seq<Byte>, p: seq<Byte>)
    ensures p <= text <==> |p| <= |text| && forall i :: 0 <= i < |p| ==> text[i] == p[i]
  {
    if |p| <= |text| && forall i :: 0 <= i < |p| ==> text[i] == p[i] { assert text[..|p|] == p; }
  }

  /** Characters and entities one after the other; an ampersand whose end is not in sight is copied when
      `haveMore` is set, and stops the conversion otherwise. */
  lemma ExpandIs(text: seq<Byte>, haveMore: bool)
    ensures text == [] ==> Expand(text, haveMore) == ([], 0)
    ensures text != [] && First(text).Entity? ==>
      var rest := Expand(text[First(text).taken..], haveMore);
      Expand(text, haveMore) == ([First(text).ch] + rest.0, rest.1)
    ensures text != [] && First(text).WantMore? ==>
      var rest := Expand(text[1..], haveMore);
      Expand(text, haveMore) == if haveMore then ([0x26] + rest.0, rest.1) else ([], |text|)
  {
    hide EntityOf;
  }
}
