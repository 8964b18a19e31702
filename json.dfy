/** The text form of stored records: canonical JSON of a flat object whose
    values are strings, and the partial decoder that reads it back. */
module Json {
  import opened Outcomes
  import opened Records

  /** No raw control character: what JSON text may carry outside escapes. */
  predicate Printable(s: string) {
    forall i :: 0 <= i < |s| ==> s[i] >= ' '
  }

  /** The value of one hexadecimal digit, in either case. */
  function HexValue(d: char): (r: Option<int>)
    ensures r.Some? ==> 0 <= r.value < 16 && d >= ' '
  {
    if '0' <= d <= '9' then Some(d as int - '0' as int)
    else if 'a' <= d <= 'f' then Some(d as int - 'a' as int + 10)
    else if 'A' <= d <= 'F' then Some(d as int - 'A' as int + 10)
    else None
  }

  /** The lower-case digit the serializer writes for a value below 16. */
  function HexDigit(n: int): char
    requires 0 <= n < 16
  {
    if n < 10 then ('0' as int + n) as char else ('a' as int + n - 10) as char
  }

  /** Reading a written digit gives back its value. */
  lemma HexDigitValue(n: int)
    requires 0 <= n < 16
    ensures HexValue(HexDigit(n)) == Some(n)
  {
  }

  /** The code unit written by the four hexadecimal digits at the start
      of `s`, as a `\u` escape carries it. */
  function UnitValue(s: string): (r: Option<int>)
    requires 4 <= |s|
    ensures r.Some? ==> 0 <= r.value < 0x1_0000 && Printable(s[..4])
  {
    match (HexValue(s[0]), HexValue(s[1]), HexValue(s[2]), HexValue(s[3]))
    case (Some(a), Some(b), Some(c), Some(d)) => Some(((a * 16 + b) * 16 + c) * 16 + d)
    case _ => None
  }

  /** The code unit of the `\uXXXX` escape at the start of `s`. */
  function UnitAt(s: string): (r: Option<int>)
    ensures r.Some? ==> 6 <= |s| && 0 <= r.value < 0x1_0000 && Printable(s[..6])
  {
    if |s| < 6 || s[0] != '\\' || s[1] != 'u' then None
    else
      assert s[..6] == s[..2] + s[2..][..4];
      UnitValue(s[2..])
  }

  /** The text starts with the escape of a low surrogate. */
  predicate StartsWithLowEscape(t: string) {
    match UnitAt(t)
    case Some(code) => 0xDC00 <= code < 0xE000
    case None => false
  }

  /** The code point a `\u` escape at the start of `s` stands for, and
      the length of text it takes. A high surrogate followed by the escape
      of a low surrogate stands for one code point beyond the Basic
      Multilingual Plane; any other code unit stands for itself. */
  function EscapedPoint(s: string): (r: Option<(int, nat)>)
    ensures r.Some? ==> (r.value.1 == 6 || r.value.1 == 12) && r.value.1 <= |s|
    ensures r.Some? ==> Printable(s[..r.value.1])
  {
    match UnitAt(s)
    case None => None
    case Some(code) =>
      if 0xD800 <= code < 0xDC00 && StartsWithLowEscape(s[6..]) then
        assert s[..12] == s[..6] + s[6..][..6];
        Some((0x1_0000 + (code - 0xD800) * 0x400 + (UnitAt(s[6..]).value - 0xDC00), 12))
      else Some((code, 6))
  }

  /** The character a `\u` escape at the start of `s` stands for. A
      surrogate half that is not part of a pair is not a character, so it
      has none here. */
  function CodeUnit(s: string): (r: Option<(char, nat)>)
    ensures r.Some? ==> 0 < r.value.1 <= |s| && Printable(s[..r.value.1])
  {
    match EscapedPoint(s)
    case None => None
    case Some(pw) =>
      if pw.0 < 0xD800 || 0xE000 <= pw.0 < 0x11_0000 then Some((pw.0 as char, pw.1)) else None
  }

  /** How the serializer writes one character inside a string literal: the
      short escapes, `\u00XX` for the other control characters, and any
      other character as itself. */
  function EscapeChar(c: char): string {
    if c == '"' then "\\\""
    else if c == '\\' then "\\\\"
    else if c == '\n' then "\\n"
    else if c == '\r' then "\\r"
    else if c == '\t' then "\\t"
    else if c == '\U{8}' then "\\b"
    else if c == '\U{C}' then "\\f"
    else if c < ' ' then "\\u00" + [HexDigit(c as int / 16), HexDigit(c as int % 16)]
    else [c]
  }

  /** The character a two-character escape sequence `\c` stands for. */
  function Unescape(c: char): Option<char> {
    if c == '"' then Some('"')
    else if c == '\\' then Some('\\')
    else if c == '/' then Some('/')
    else if c == 'n' then Some('\n')
    else if c == 'r' then Some('\r')
    else if c == 't' then Some('\t')
    else if c == 'b' then Some('\U{8}')
    else if c == 'f' then Some('\U{C}')
    else None
  }

  function Escape(s: string): string {
    if s == [] then "" else EscapeChar(s[0]) + Escape(s[1..])
  }

  function Quote(s: string): string {
    "\"" + Escape(s) + "\""
  }

  /** One member, `"name":"value"`. */
  function MemberText(f: Field): string {
    Quote(f.name) + ":" + Quote(f.value)
  }

  /** The members of an object, separated by commas. */
  function Members(o: Object): string {
    if o == [] then ""
    else if |o| == 1 then MemberText(o[0])
    else MemberText(o[0]) + "," + Members(o[1..])
  }

  /** `JSON.stringify` of a flat object: its fields in their own order. */
  function Stringify(o: Object): (text: string)
    ensures |text| >= 2 && text[0] == '{' && text[|text| - 1] == '}'
    ensures Printable(text)
  {
    MembersPrintable(o);
    PrintableJoin("{", Members(o));
    PrintableJoin("{" + Members(o), "}");
    "{" + Members(o) + "}"
  }

  /** The stored form of a record: keys sorted, then serialized. */
  function Encode(o: Object): (text: string)
    ensures Decode(text) == Some(SortFields(o))
    ensures |text| >= 2
  {
    DecodeStringify(SortFields(o));
    Stringify(SortFields(o))
  }

  /** The serializer writes no raw control character. */
  lemma {:induction false} EscapePrintable(s: string)
    ensures Printable(Escape(s))
  {
    if s != [] {
      EscapePrintable(s[1..]);
    }
  }

  lemma PrintableJoin(a: string, b: string)
    requires Printable(a) && Printable(b)
    ensures Printable(a + b)
  {
  }

  lemma QuotePrintable(s: string)
    ensures Printable(Quote(s))
  {
    EscapePrintable(s);
    PrintableJoin("\"", Escape(s));
    PrintableJoin("\"" + Escape(s), "\"");
  }

  lemma {:induction false} MembersPrintable(o: Object)
    ensures Printable(Members(o))
  {
    if o != [] {
      var q1, q2 := Quote(o[0].name), Quote(o[0].value);
      assert MemberText(o[0]) == q1 + ":" + q2;
      QuotePrintable(o[0].name);
      QuotePrintable(o[0].value);
      PrintableJoin(q1, ":");
      PrintableJoin(q1 + ":", q2);
      if |o| > 1 {
        MembersPrintable(o[1..]);
        PrintableJoin(q1 + ":" + q2, ",");
        PrintableJoin(q1 + ":" + q2 + ",", Members(o[1..]));
      }
    }
  }

  /** The character at the start of a string literal's text that is not
      its closing quote: an escape sequence, or any character but a control
      character as itself. Gives the character and how much text it takes. */
  function CharAt(s: string): (r: Option<(char, nat)>)
    ensures r.Some? ==> 0 < r.value.1 <= |s| && Printable(s[..r.value.1])
  {
    if s == [] then None
    else if s[0] == '\\' then
      if |s| < 2 then None
      else if s[1] == 'u' then
        CodeUnit(s)
      else match Unescape(s[1])
        case None => None
        case Some(c) => Some((c, 2))
    else if s[0] < ' ' then None
    else Some((s[0], 1))
  }

  /** Reads a string literal whose opening quote is already consumed: its
      decoded characters and the text after the closing quote. */
  function ParseChars(s: string): (r: Option<(string, string)>)
    ensures r.Some? ==> |r.value.1| < |s|
    decreases |s|, 1
  {
    if s == [] then None
    else if s[0] == '"' then Some(("", s[1..]))
    else if s[0] == '\\' then ParseEscape(s)
    else if s[0] < ' ' then None
    else match ParseChars(s[1..])
      case None => None
      case Some(p) => Some(([s[0]] + p.0, p.1))
  }

  /** The four lower-case hexadecimal digits of a code unit. */
  function Hex4(n: int): (r: string)
    requires 0 <= n < 0x1_0000
    ensures |r| == 4
  {
    [HexDigit(n / 16 / 16 / 16), HexDigit(n / 16 / 16 % 16), HexDigit(n / 16 % 16), HexDigit(n % 16)]
  }

  /** The four digits of a code unit read back as that code unit,
      whatever text follows them. */
  lemma UnitValueHex4(n: int, t: string)
    requires 0 <= n < 0x1_0000
    ensures UnitValue(Hex4(n) + t) == Some(n)
  {
    var u := Hex4(n) + t;
    var a, b, c, d := n / 16 / 16 / 16, n / 16 / 16 % 16, n / 16 % 16, n % 16;
    HexDigitValue(a);
    HexDigitValue(b);
    HexDigitValue(c);
    HexDigitValue(d);
    assert u[0] == HexDigit(a) && u[1] == HexDigit(b) && u[2] == HexDigit(c) && u[3] == HexDigit(d);
    assert a * 16 + b == n / 16 / 16;
    assert (a * 16 + b) * 16 + c == n / 16;
  }

  /** The escape of a code unit reads back as that code unit, whatever
      text follows it. */
  lemma EscapeOfUnit(n: int, t: string)
    requires 0 <= n < 0x1_0000
    ensures UnitAt("\\u" + Hex4(n) + t) == Some(n)
  {
    assert ("\\u" + Hex4(n) + t)[2..] == Hex4(n) + t;
    UnitValueHex4(n, t);
  }

  /** Any character beyond the Basic Multilingual Plane, written as the
      escapes of its two surrogates, reads back as that one character and
      takes the twelve characters of both escapes. */
  lemma ReadsSurrogatePair(h: int, l: int, t: string)
    requires 0xD800 <= h < 0xDC00 && 0xDC00 <= l < 0xE000
    ensures CharAt("\\u" + Hex4(h) + "\\u" + Hex4(l) + t)
            == Some(((0x1_0000 + (h - 0xD800) * 0x400 + (l - 0xDC00)) as char, 12))
  {
    var rest := "\\u" + Hex4(l) + t;
    var s := "\\u" + Hex4(h) + rest;
    assert "\\u" + Hex4(h) + "\\u" + Hex4(l) + t == s;
    EscapeOfUnit(l, t);
    EscapeOfUnit(h, rest);
    assert s[6..] == rest;
    PairPoint(h, l, s);
  }

  /** A high surrogate's escape followed by a low surrogate's stands for
      the code point the two encode together. */
  lemma PairPoint(h: int, l: int, s: string)
    requires 0xD800 <= h < 0xDC00 && 0xDC00 <= l < 0xE000
    requires UnitAt(s) == Some(h) && UnitAt(s[6..]) == Some(l)
    ensures CharAt(s) == Some(((0x1_0000 + (h - 0xD800) * 0x400 + (l - 0xDC00)) as char, 12))
  {
    assert EscapedPoint(s) == Some((0x1_0000 + (h - 0xD800) * 0x400 + (l - 0xDC00), 12));
  }

  /** The escape of a low surrogate with no high surrogate before it is
      not a character. */
  lemma RejectsLoneLowSurrogate(l: int, t: string)
    requires 0xDC00 <= l < 0xE000
    ensures CharAt("\\u" + Hex4(l) + t) == None
  {
    EscapeOfUnit(l, t);
  }

  /** The escape of a high surrogate is a character exactly when the escape
      of a low surrogate follows it: alone, it is not one. */
  lemma RejectsLoneHighSurrogate(h: int, t: string)
    requires 0xD800 <= h < 0xDC00
    ensures CharAt("\\u" + Hex4(h) + t).Some? <==> StartsWithLowEscape(t)
  {
    EscapeOfUnit(h, t);
    assert ("\\u" + Hex4(h) + t)[6..] == t;
  }

  /** Reads the rest of a string literal that goes on with an escape
      sequence. */
  function ParseEscape(s: string): (r: Option<(string, string)>)
    ensures r.Some? ==> |r.value.1| < |s|
    decreases |s|, 0
  {
    match CharAt(s)
    case None => None
    case Some(cw) =>
      match ParseChars(s[cw.1..])
      case None => None
      case Some(p) => Some(([cw.0] + p.0, p.1))
  }

  /** Reads one member `"name":"value"`: the field and the text after it. */
  function ParseMember(s: string): (r: Option<(Field, string)>)
    ensures r.Some? ==> |r.value.1| < |s|
  {
    if s == [] || s[0] != '"' then None
    else match ParseChars(s[1..])
      case None => None
      case Some(p) =>
        var r1 := p.1;
        if |r1| < 2 || r1[0] != ':' || r1[1] != '"' then None
        else match ParseChars(r1[2..])
          case None => None
          case Some(q) => Some((Field(p.0, q.0), q.1))
  }

  /** Reads members separated by `,` up to the closing `}` that ends the text. */
  function ParseMembers(s: string): (r: Option<Object>)
    decreases |s|
  {
    match ParseMember(s)
    case None => None
    case Some(m) =>
      var rest := m.1;
      if rest == "}" then Some([m.0])
      else if rest != [] && rest[0] == ',' then
        match ParseMembers(rest[1..])
        case None => None
        case Some(more) => Some([m.0] + more)
      else None
  }

  /** `JSON.parse` on stored text: the object it denotes, or `None` when the
      text is not a flat object of strings. */
  function Decode(text: string): (r: Option<Object>)
    ensures text == "{}" ==> r == Some([])
    ensures r.Some? ==> |text| >= 2 && text[0] == '{' && text[|text| - 1] == '}'
  {
    if text == "{}" then Some([])
    else if text != [] && text[0] == '{' then
      ParseMembersConsumes(text[1..]);
      ParseMembers(text[1..])
    else None
  }

  /** Like `JSON.parse`, the decoder refuses any text holding a raw control
      character: those must be written as escapes. */
  lemma DecodeRejectsControl(text: string)
    ensures !Printable(text) ==> Decode(text).None?
  {
    if Decode(text).Some? && text != "{}" {
      ParseMembersConsumes(text[1..]);
      assert text == [text[0]] + text[1..];
    }
  }

  /** `rest` is what is left of `s` once a printable prefix is read. */
  predicate Consumed(s: string, rest: string) {
    |rest| <= |s| && s[|s| - |rest|..] == rest && Printable(s[..|s| - |rest|])
  }

  lemma ConsumedDrop(s: string, k: nat)
    requires k <= |s| && Printable(s[..k])
    ensures Consumed(s, s[k..])
  {
  }

  lemma ConsumedTrans(a: string, b: string, c: string)
    requires Consumed(a, b) && Consumed(b, c)
    ensures Consumed(a, c)
  {
    var n1, n2 := |a| - |b|, |b| - |c|;
    assert a[n1..][n2..] == a[n1 + n2..];
    assert forall i :: n1 <= i < n1 + n2 ==> a[i] == b[..n2][i - n1];
  }

  /** A string literal that parses is read from a printable prefix, and what
      is left is the rest of the text. */
  lemma {:induction false} ParseCharsConsumes(s: string)
    ensures ParseChars(s).Some? ==> Consumed(s, ParseChars(s).value.1)
    decreases |s|, 1
  {
    var r := ParseChars(s);
    if r.Some? {
      if s[0] == '"' {
        assert s[..1] == ['"'];
        ConsumedDrop(s, 1);
      } else if s[0] == '\\' {
        ParseEscapeConsumes(s);
      } else {
        assert s[..1] == [s[0]];
        ConsumedDrop(s, 1);
        ParseCharsConsumes(s[1..]);
        ConsumedTrans(s, s[1..], r.value.1);
      }
    }
  }

  lemma {:induction false} ParseEscapeConsumes(s: string)
    ensures ParseEscape(s).Some? ==> Consumed(s, ParseEscape(s).value.1)
    decreases |s|, 0
  {
    var r := ParseEscape(s);
    if r.Some? {
      var k := CharAt(s).value.1;
      ConsumedDrop(s, k);
      ParseCharsConsumes(s[k..]);
      ConsumedTrans(s, s[k..], r.value.1);
    }
  }

  lemma ParseMemberConsumes(s: string)
    ensures ParseMember(s).Some? ==> Consumed(s, ParseMember(s).value.1)
  {
    if ParseMember(s).Some? {
      var r1 := ParseChars(s[1..]).value.1;
      var rest := ParseChars(r1[2..]).value.1;
      assert s[..1] == ['"'];
      ConsumedDrop(s, 1);
      ParseCharsConsumes(s[1..]);
      ConsumedTrans(s, s[1..], r1);
      assert r1[..2] == [':', '"'];
      ConsumedDrop(r1, 2);
      ConsumedTrans(s, r1, r1[2..]);
      ParseCharsConsumes(r1[2..]);
      ConsumedTrans(s, r1[2..], rest);
    }
  }

  lemma {:induction false} ParseMembersConsumes(s: string)
    ensures ParseMembers(s).Some? ==> |s| > 0 && s[|s| - 1] == '}' && Printable(s)
  {
    if ParseMembers(s).Some? {
      var m := ParseMember(s).value;
      ParseMemberConsumes(s);
      if m.1 != "}" {
        ParseMembersConsumes(m.1[1..]);
        Rejoin(m.1);
      }
      Stitch(s, |s| - |m.1|, m.1);
    }
  }

  /** A printable prefix followed by a printable rest is printable, and ends
      as the rest does. */
  lemma Stitch(s: string, n: nat, rest: string)
    requires n <= |s| && s[n..] == rest && Printable(s[..n]) && Printable(rest) && rest != []
    ensures Printable(s) && s[|s| - 1] == rest[|rest| - 1]
  {
    assert forall i :: n <= i < |s| ==> s[i] == rest[i - n];
  }

  lemma Rejoin(r: string)
    requires |r| > 0 && r[0] == ',' && Printable(r[1..])
    ensures Printable(r)
  {
    assert forall i :: 1 <= i < |r| ==> r[i] == r[1..][i - 1];
  }

  /** One written character reads back as itself. */
  lemma CharAtEscape(c: char, t: string)
    ensures CharAt(EscapeChar(c) + t) == Some((c, |EscapeChar(c)|))
  {
    var e := EscapeChar(c);
    if |e| == 6 {
      assert (e + t)[0] == '\\' && (e + t)[1] == 'u';
      HexDigitValue(c as int / 16);
      HexDigitValue(c as int % 16);
      var u := (e + t)[2..];
      assert u[0] == '0' && u[1] == '0' && u[2] == e[4] && u[3] == e[5];
      assert UnitValue(u) == Some(c as int);
      assert UnitAt(e + t) == Some(c as int);
      assert EscapedPoint(e + t) == Some((c as int, 6));
    } else if |e| == 2 {
      assert (e + t)[0] == '\\' && (e + t)[1] == e[1] && Unescape(e[1]) == Some(c);
    } else {
      assert (e + t)[0] == c;
    }
  }

  lemma ParseEscapedChar(c: char, t: string)
    ensures ParseChars(EscapeChar(c) + t) ==
            match ParseChars(t)
            case None => None
            case Some(p) => Some(([c] + p.0, p.1))
  {
    var e := EscapeChar(c);
    CharAtEscape(c, t);
    assert (e + t)[0] != '"';
    assert (e + t)[|e|..] == t;
    if (e + t)[0] == '\\' {
      assert ParseChars(e + t) == ParseEscape(e + t);
    }
  }

  lemma {:induction false} ParseEscaped(s: string, rest: string)
    ensures ParseChars(Escape(s) + "\"" + rest) == Some((s, rest))
  {
    if s == [] {
      assert Escape(s) + "\"" + rest == "\"" + rest;
    } else {
      var t := Escape(s[1..]) + "\"" + rest;
      ParseEscaped(s[1..], rest);
      assert Escape(s) + "\"" + rest == EscapeChar(s[0]) + t;
      ParseEscapedChar(s[0], t);
      assert s == [s[0]] + s[1..];
    }
  }

  lemma ParseOneMember(f: Field, tail: string)
    ensures ParseMember(MemberText(f) + tail) == Some((f, tail))
  {
    var y := Escape(f.value) + "\"" + tail;
    var r1 := [':', '"'] + y;
    MemberShape(Escape(f.name), Escape(f.value), tail);
    ParseEscaped(f.name, r1);
    ParseEscaped(f.value, tail);
  }

  /** Where the pieces of a written member and what follows it lie. */
  lemma MemberShape(a: string, b: string, tail: string)
    ensures var s := "\"" + a + "\"" + ":" + ("\"" + b + "\"") + tail;
            var r1 := [':', '"'] + (b + "\"" + tail);
            && s[0] == '"' && s[1..] == a + "\"" + r1
            && |r1| >= 2 && r1[0] == ':' && r1[1] == '"' && r1[2..] == b + "\"" + tail
  {
  }

  lemma MembersSplit(o: Object)
    requires |o| > 1
    ensures Members(o) + "}" == MemberText(o[0]) + ("," + (Members(o[1..]) + "}"))
  {
    Regroup(MemberText(o[0]), Members(o[1..]));
  }

  lemma Regroup(a: string, b: string)
    ensures a + "," + b + "}" == a + ("," + (b + "}"))
  {
  }

  lemma DropFirst(c: char, x: string)
    ensures ([c] + x)[1..] == x
  {
  }

  /** One step of reading members: the member read first, then either the
      end of the text or a comma and more members. */
  lemma ParseMembersStep(s: string, f: Field, rest: string, more: Option<Object>)
    requires ParseMember(s) == Some((f, rest))
    requires rest == "}" ==> more == Some([])
    requires rest != "}" ==> |rest| > 0 && rest[0] == ',' && more.Some? && ParseMembers(rest[1..]) == more
    ensures ParseMembers(s) == Some([f] + more.value)
  {
    if rest == "}" {
      assert [f] + more.value == [f];
    }
  }

  lemma {:induction false} ParseMembersOf(o: Object)
    requires o != []
    ensures ParseMembers(Members(o) + "}") == Some(o)
  {
    if |o| == 1 {
      ParseOneMember(o[0], "}");
      ParseMembersStep(MemberText(o[0]) + "}", o[0], "}", Some([]));
      assert o == [o[0]] + [];
    } else {
      var tail := "," + (Members(o[1..]) + "}");
      MembersSplit(o);
      ParseOneMember(o[0], tail);
      DropFirst(',', Members(o[1..]) + "}");
      ParseMembersOf(o[1..]);
      ParseMembersStep(MemberText(o[0]) + tail, o[0], tail, Some(o[1..]));
      assert o == [o[0]] + o[1..];
    }
  }

  /** Decoding undoes serialization. */
  lemma DecodeStringify(o: Object)
    ensures Decode(Stringify(o)) == Some(o)
  {
    if o != [] {
      var text := Stringify(o);
      assert text[1..] == Members(o) + "}";
      assert Members(o)[0] == '"';
      ParseMembersOf(o);
    }
  }

  /** Storing a record and reading it back keeps every field: what a decoded
      stored record answers for a name is what the record itself holds. */
  lemma DecodeEncode(o: Object, name: string)
    requires DistinctNames(o)
    ensures Decode(Encode(o)).Some?
    ensures Get(Decode(Encode(o)).value, name) == Get(o, name)
  {
    SortKeepsLookups(o, name);
  }

  /** The stored form does not depend on the order in which the fields were
      set: two objects holding the same fields encode to the same text. */
  lemma EncodeOrderInsensitive(a: Object, b: Object)
    requires DistinctNames(a) && DistinctNames(b) && multiset(a) == multiset(b)
    ensures Encode(a) == Encode(b)
  {
    SortOrderInsensitive(a, b);
  }
}
