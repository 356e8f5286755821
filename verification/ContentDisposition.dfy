/**
 The Content-Disposition header (RFC 6266) with the file name twice: as quoted ASCII, and as
 percent-encoded UTF-8 (section 3.2.1 of RFC 5987).
 */
module ContentDisposition {
  import opened MachineInts
  import opened Sequences
  import opened Strings

  // ----- UTF-8

  function Utf8Char(c: char): (r: seq<Byte>)
    ensures |r| > 0
  {
    var n := c as int;
    if n < 0x80 then [n]
    else if n < 0x800 then [0xC0 + n / 64, 0x80 + n % 64]
    else if n < 0x10000 then [0xE0 + n / 4096, 0x80 + n / 64 % 64, 0x80 + n % 64]
    else [0xF0 + n / 262_144, 0x80 + n / 4096 % 64, 0x80 + n / 64 % 64, 0x80 + n % 64]
  }

  function Utf8(s: string): seq<Byte> {
    if s == [] then [] else Utf8Char(s[0]) + Utf8(s[1..])
  }

  function ToChar(n: int): char {
    if 0 <= n < 0xD800 || 0xE000 <= n < 0x11_0000 then n as char else '?'
  }

  /** The first character of well-formed bytes, and how many bytes it takes. */
  function FirstChar(b: seq<Byte>): (r: (char, nat))
    requires b != []
    ensures 0 < r.1 <= |b|
  {
    if b[0] < 0x80 then (ToChar(b[0]), 1)
    else if b[0] < 0xE0 && |b| >= 2 then (ToChar((b[0] as int - 0xC0) * 64 + (b[1] as int - 0x80)), 2)
    else if 0xE0 <= b[0] < 0xF0 && |b| >= 3 then
      (ToChar((b[0] as int - 0xE0) * 4096 + (b[1] as int - 0x80) * 64 + (b[2] as int - 0x80)), 3)
    else if |b| >= 4 then
      (ToChar((b[0] as int - 0xF0) * 262_144 + (b[1] as int - 0x80) * 4096
              + (b[2] as int - 0x80) * 64 + (b[3] as int - 0x80)), 4)
    else ('?', 1)
  }

  function Utf8Decode(b: seq<Byte>): string {
    if b == [] then [] else [FirstChar(b).0] + Utf8Decode(b[FirstChar(b).1..])
  }

  lemma FirstOfUtf8(c: char, rest: seq<Byte>)
    ensures FirstChar(Utf8Char(c) + rest) == (c, |Utf8Char(c)|)
  {
    var b := Utf8Char(c) + rest;
    assert b[..|Utf8Char(c)|] == Utf8Char(c);
    Recombine(c as int);
  }

  lemma Recombine(n: int)
    requires 0 <= n < 0x11_0000
    ensures n / 64 * 64 + n % 64 == n
    ensures n / 4096 * 4096 + n / 64 % 64 * 64 + n % 64 == n
    ensures n / 262_144 * 262_144 + n / 4096 % 64 * 4096 + n / 64 % 64 * 64 + n % 64 == n
  {
    assert n / 64 / 64 == n / 4096;
    assert n / 4096 / 64 == n / 262_144;
  }

  lemma {:induction false} Utf8DecodeEncode(s: string)
    ensures Utf8Decode(Utf8(s)) == s
  {
    if s != [] {
      FirstOfUtf8(s[0], Utf8(s[1..]));
      assert (Utf8Char(s[0]) + Utf8(s[1..]))[|Utf8Char(s[0])|..] == Utf8(s[1..]);
      Utf8DecodeEncode(s[1..]);
      assert s == [s[0]] + s[1..];
    }
  }

  // ----- percent-encoding

  predicate Alphanumeric(n: int) {
    '0' as int <= n <= '9' as int || 'A' as int <= n <= 'Z' as int || 'a' as int <= n <= 'z' as int
  }

  /** The bytes that stand for themselves. */
  predicate AttrByte(n: int) {
    Alphanumeric(n) || (0 <= n < 0x80 && n as char in {'!', '#', '$', '&', '+', '-', '.', '^', '_', '`', '|', '~'})
  }

  function HexDigit(v: int): char
    requires 0 <= v < 16
  {
    if v < 10 then '0' + v as char else 'A' + (v - 10) as char
  }

  function HexValue(c: char): int {
    if '0' <= c <= '9' then c as int - '0' as int else if 'A' <= c <= 'F' then c as int - 'A' as int + 10 else 0
  }

  function PercentByte(b: Byte): string {
    if AttrByte(b) then [b as char] else ['%', HexDigit(b / 16), HexDigit(b % 16)]
  }

  function PercentEncode(b: seq<Byte>): string {
    if b == [] then [] else PercentByte(b[0]) + PercentEncode(b[1..])
  }

  function PercentDecode(s: string): seq<Byte> {
    if s == [] then []
    else if s[0] == '%' && |s| >= 3 then
      [(16 * HexValue(s[1]) + HexValue(s[2])) % 256] + PercentDecode(s[3..])
    else [s[0] as int % 256] + PercentDecode(s[1..])
  }

  lemma DecodeFirst(b: Byte, rest: string)
    ensures PercentDecode(PercentByte(b) + rest) == [b] + PercentDecode(rest)
  {
    var s := PercentByte(b) + rest;
    assert s[..|PercentByte(b)|] == PercentByte(b);
    assert s[|PercentByte(b)|..] == rest;
    if AttrByte(b) {
      assert s[0] == b as char;
    } else {
      assert s[0] == '%' && s[1] == HexDigit(b / 16) && s[2] == HexDigit(b % 16);
      HexRead(b / 16);
      HexRead(b % 16);
    }
  }

  lemma HexRead(v: int)
    requires 0 <= v < 16
    ensures HexValue(HexDigit(v)) == v
  {
  }

  lemma {:induction false} PercentDecodeEncode(b: seq<Byte>)
    ensures PercentDecode(PercentEncode(b)) == b
  {
    if b != [] {
      DecodeFirst(b[0], PercentEncode(b[1..]));
      PercentDecodeEncode(b[1..]);
      assert b == [b[0]] + b[1..];
    }
  }

  lemma {:induction false} PercentAppend(a: seq<Byte>, b: seq<Byte>)
    ensures PercentEncode(a + b) == PercentEncode(a) + PercentEncode(b)
  {
    if a == [] {
      assert a + b == b;
    } else {
      PercentAppend(a[1..], b);
      TailAppend(a, b);
      AppendAssoc(PercentByte(a[0]), PercentEncode(a[1..]), PercentEncode(b));
    }
  }

  // ----- the header

  function Disposition(mime: string, forceInline: bool): string {
    if forceInline || StartsWith(mime, "image/") || mime == "application/pdf"
       || StartsWith(mime, "video/") || StartsWith(mime, "audio/")
    then "inline" else "attachment"
  }

  predicate Shown(c: char) {
    '!' <= c <= '~' || c == ' '
  }

  function Substitute(c: char): char {
    if c == '"' || c == '\\' then '_' else c
  }

  function AsciiSafe(name: string): string {
    if name == [] then []
    else (if Shown(name[0]) then [Substitute(name[0])] else []) + AsciiSafe(name[1..])
  }

  const FILENAME := "; filename=\""
  const EXTENDED := "\"; filename*=UTF-8''"

  /** The header as three strings put together. */
  function Header(name: string, mime: string, forceInline: bool): string {
    Disposition(mime, forceInline) + FILENAME + AsciiSafe(name) + EXTENDED + PercentEncode(Utf8(name))
  }

  /** The same header from one buffer, or from the name itself when no character needs care. */
  method BuildHeader(name: string, mime: string, forceInline: bool) returns (out: string)
    ensures out == Header(name, mime, forceInline)
  {
    var plain := AllAttr(name);
    if plain {
      AttrUnchanged(name);
      return Disposition(mime, forceInline) + FILENAME + name + EXTENDED + name;
    }
    out := Disposition(mime, forceInline) + FILENAME;
    ghost var front := out;
    for i := 0 to |name|
      invariant out == front + AsciiSafe(name[..i])
    {
      if Shown(name[i]) {
        out := out + [Substitute(name[i])];
      }
      SafeSnoc(front, name, i);
    }
    assert name[..|name|] == name;
    out := out + EXTENDED;
    var bytes := Utf8(name);
    front := out;
    for i := 0 to |bytes|
      invariant out == front + PercentEncode(bytes[..i])
    {
      out := out + PercentByte(bytes[i]);
      PercentSnoc(front, bytes, i);
    }
    assert bytes[..|bytes|] == bytes;
  }

  method AllAttr(name: string) returns (all: bool)
    ensures all <==> forall i :: 0 <= i < |Utf8(name)| ==> AttrByte(Utf8(name)[i])
  {
    var bytes := Utf8(name);
    for i := 0 to |bytes|
      invariant forall k :: 0 <= k < i ==> AttrByte(bytes[k])
    {
      if !AttrByte(bytes[i]) {
        assert !AttrByte(Utf8(name)[i]);
        return false;
      }
    }
    return true;
  }

  lemma {:induction false} SafeAppend(a: string, b: string)
    ensures AsciiSafe(a + b) == AsciiSafe(a) + AsciiSafe(b)
  {
    if a == [] {
      assert a + b == b;
    } else {
      SafeAppend(a[1..], b);
      TailAppend(a, b);
    }
  }

  lemma SafeSnoc(front: string, name: string, i: nat)
    requires i < |name|
    ensures front + AsciiSafe(name[..i + 1]) ==
            front + AsciiSafe(name[..i]) + if Shown(name[i]) then [Substitute(name[i])] else []
  {
    SliceSnoc(name, i);
    SafeAppend(name[..i], [name[i]]);
    assert [name[i]][1..] == [];
  }

  lemma PercentSnoc(front: string, bytes: seq<Byte>, i: nat)
    requires i < |bytes|
    ensures front + PercentEncode(bytes[..i + 1]) == front + PercentEncode(bytes[..i]) + PercentByte(bytes[i])
  {
    SliceSnoc(bytes, i);
    PercentAppend(bytes[..i], [bytes[i]]);
    assert [bytes[i]][1..] == [];
    AppendAssoc(front, PercentEncode(bytes[..i]), PercentByte(bytes[i]));
  }

  /** An attribute byte that leads a character is that character, shown and encoded as it is. */
  lemma AttrFirst(c: char)
    requires AttrByte(Utf8Char(c)[0])
    ensures Utf8Char(c) == [c as int] && Shown(c) && Substitute(c) == c && PercentByte(c as int) == [c]
  {
  }

  lemma AttrStep(c: char, rest: string)
    requires Utf8Char(c) == [c as int] && Shown(c) && Substitute(c) == c && PercentByte(c as int) == [c]
    ensures AsciiSafe([c] + rest) == [c] + AsciiSafe(rest)
    ensures Utf8([c] + rest) == [c as int] + Utf8(rest)
    ensures PercentEncode([c as int] + Utf8(rest)) == [c] + PercentEncode(Utf8(rest))
  {
    assert ([c] + rest)[1..] == rest;
    assert ([c as int] + Utf8(rest))[1..] == Utf8(rest);
  }

  /** A name of attribute characters is its own ASCII form and its own encoding. */
  lemma {:induction false} AttrUnchanged(name: string)
    requires forall i :: 0 <= i < |Utf8(name)| ==> AttrByte(Utf8(name)[i])
    ensures AsciiSafe(name) == name && PercentEncode(Utf8(name)) == name
  {
    if name != [] {
      var c, rest := name[0], name[1..];
      assert name == [c] + rest;
      assert Utf8(name) == Utf8Char(c) + Utf8(rest);
      assert Utf8(name)[0] == Utf8Char(c)[0];
      AttrFirst(c);
      AttrStep(c, rest);
      assert forall i :: 0 <= i < |Utf8(rest)| ==> Utf8(rest)[i] == Utf8(name)[i + 1];
      AttrUnchanged(rest);
    }
  }

  // ----- what a client reads

  /** The text before the first `c`. */
  function Until(c: char, s: string): (r: string)
    ensures |r| <= |s|
  {
    if s == [] || s[0] == c then [] else [s[0]] + Until(c, s[1..])
  }

  lemma {:induction false} UntilAt(c: char, a: string, b: string)
    requires c !in a
    ensures Until(c, a + [c] + b) == a
  {
    if a != [] {
      UntilAt(c, a[1..], b);
      assert (a + [c] + b)[1..] == a[1..] + [c] + b;
      assert a == [a[0]] + a[1..];
    }
  }

  datatype Read = Read(disposition: string, filename: string, extended: string)

  function After(s: string, n: nat): string {
    if n <= |s| then s[n..] else []
  }

  /** Up to the first `;`, then between the quotes, then after the language tag. */
  function ReadHeader(h: string): Read {
    var disposition := Until(';', h);
    var quoted := After(h, |disposition| + |FILENAME|);
    var filename := Until('"', quoted);
    Read(disposition, filename, After(quoted, |filename| + |EXTENDED|))
  }

  /** The quoted name never closes its quotes early. */
  lemma {:induction false} SafeNoQuote(name: string)
    ensures forall c :: c in AsciiSafe(name) ==> c != '"' && c != '\\' && ' ' <= c <= '~'
  {
    if name != [] {
      SafeNoQuote(name[1..]);
    }
  }

  lemma ReadParts(d: string, name: string, ext: string)
    requires ';' !in d && '"' !in name
    ensures ReadHeader(d + FILENAME + name + EXTENDED + ext) == Read(d, name, ext)
  {
    var quoted := name + EXTENDED + ext;
    FrontPart(d, FILENAME, quoted, ';');
    assert d + FILENAME + name + EXTENDED + ext == d + FILENAME + quoted;
    FrontPart(name, EXTENDED, ext, '"');
  }

  /** Text up to a mark, and what follows the mark's whole word. */
  lemma FrontPart(front: string, word: string, rest: string, c: char)
    requires word != "" && word[0] == c && c !in front
    ensures Until(c, front + word + rest) == front && After(front + word + rest, |front| + |word|) == rest
  {
    assert front + word + rest == front + [c] + (word[1..] + rest);
    UntilAt(c, front, word[1..] + rest);
  }

  /** For every name: the header splits where it should, and its extended part gives the name back. */
  lemma HeaderRead(name: string, mime: string, forceInline: bool)
    ensures var r := ReadHeader(Header(name, mime, forceInline));
            && r.disposition == Disposition(mime, forceInline)
            && r.filename == AsciiSafe(name)
            && PercentDecode(r.extended) == Utf8(name)
            && Utf8Decode(PercentDecode(r.extended)) == name
  {
    SafeNoQuote(name);
    ReadParts(Disposition(mime, forceInline), AsciiSafe(name), PercentEncode(Utf8(name)));
    PercentDecodeEncode(Utf8(name));
    Utf8DecodeEncode(name);
  }

  /** A header says inline exactly for forced, image, PDF, video and audio answers, and attachment for all others. */
  lemma InlineIff(name: string, mime: string, forceInline: bool)
    ensures var media := "image/" <= mime || "video/" <= mime || "audio/" <= mime;
            var shown := forceInline || media || mime == "application/pdf";
            var r := ReadHeader(Header(name, mime, forceInline));
            r.disposition == if shown then "inline" else "attachment"
  {
    HeaderRead(name, mime, forceInline);
  }

  /** Of one character the quoted name keeps a printable one, an underscore for a quote or backslash, or nothing. */
  lemma SafeOne(c: char)
    ensures AsciiSafe([c]) ==
            if c == '"' || c == '\\' then "_" else if 0x20 <= c as int <= 0x7E then [c] else ""
  {
    assert [c][1..] == [];
  }

  predicate PlainlyShown(c: char) {
    ' ' <= c <= '~' && c != '"' && c != '\\'
  }

  lemma ShownStep(c: char, rest: string)
    requires PlainlyShown(c)
    ensures AsciiSafe([c] + rest) == [c] + AsciiSafe(rest)
  {
    assert ([c] + rest)[1..] == rest;
  }

  /** So a printable name without quotes and backslashes is quoted as it is. */
  lemma {:induction false} PrintableKept(name: string)
    requires forall i :: 0 <= i < |name| ==> PlainlyShown(name[i])
    ensures AsciiSafe(name) == name
  {
    if name != [] {
      PrintableKept(name[1..]);
      ShownStep(name[0], name[1..]);
      assert name == [name[0]] + name[1..];
    }
  }
}
