/**
 iCalendar text (sections 3.1 and 3.6.1 of RFC 5545): cutting a body into its VEVENT
 blocks line by line, and slicing the VEVENT out of a stored body.
 */
module ICalendar {
  import opened Sequences
  import opened Strings
  import opened Wrappers

  const BEGIN_TAG: string := "BEGIN:VEVENT"
  const END_TAG: string := "END:VEVENT"
  const CRLF: string := "\r\n"

  /** to_ascii_uppercase. */
  function UpperChar(c: char): char {
    if 'a' <= c <= 'z' then c - 'a' + 'A' else c
  }

  function Upper(s: string): (r: string)
    ensures |r| == |s|
    ensures forall i :: 0 <= i < |s| ==> r[i] == UpperChar(s[i])
  {
    Map(UpperChar, s)
  }

  /** The same character, or the same ASCII letter in the other case. */
  predicate SameLetter(a: char, b: char) {
    || a == b
    || ('A' <= a <= 'Z' && b as int == a as int + 32)
    || ('A' <= b <= 'Z' && a as int == b as int + 32)
  }

  /** Texts agree in upper case exactly when they differ in the case of ASCII letters only. */
  lemma UpperIff(a: string, b: string)
    ensures Upper(a) == Upper(b) <==> |a| == |b| && forall i :: 0 <= i < |a| ==> SameLetter(a[i], b[i])
  {
    if Upper(a) == Upper(b) {
      forall i | 0 <= i < |a| ensures SameLetter(a[i], b[i]) {
        assert Upper(a)[i] == Upper(b)[i];
        LettersIff(a[i], b[i]);
      }
    }
    if |a| == |b| && forall i :: 0 <= i < |a| ==> SameLetter(a[i], b[i]) {
      forall i | 0 <= i < |a| ensures Upper(a)[i] == Upper(b)[i] {
        LettersIff(a[i], b[i]);
      }
    }
  }

  lemma LettersIff(a: char, b: char)
    ensures UpperChar(a) == UpperChar(b) <==> SameLetter(a, b)
  {
  }

  // ----- slicing a VEVENT out of a body

  /** The index after an optional CR and an optional LF. */
  function PastLineEnd(s: string, i: nat): (j: nat)
    requires i <= |s|
    ensures i <= j <= |s| && j <= i + 2
  {
    var k := if i < |s| && s[i] == '\r' then i + 1 else i;
    if k < |s| && s[k] == '\n' then k + 1 else k
  }

  /** A CR, a LF, or both in that order are taken along; nothing else is. */
  lemma LineEndTaken(a: string, t: string, rest: string)
    requires t == "" || t == "\r" || t == "\n" || t == CRLF
    requires rest != "" ==> (t == "" ==> rest[0] != '\r') && (t == "" || t == "\r" ==> rest[0] != '\n')
    ensures PastLineEnd(a + t + rest, |a|) == |a| + |t|
  {
    var w := a + t + rest;
    assert forall i :: 0 <= i < |t| ==> w[|a| + i] == t[i];
    assert rest != "" ==> w[|a| + |t|] == rest[0];
  }

  /** The later search: an exact match anywhere wins over a match in another case. */
  function FindAnyCase(hay: string, needle: string, from: nat): (r: Option<nat>)
    ensures r.Some? ==> from <= r.value && r.value + |needle| <= |hay|
  {
    var exact := Find(hay, needle, from);
    if exact.Some? then exact else Find(Upper(hay), needle, from)
  }

  /** The older search looks at the upper-cased body only. */
  function Look(exactFirst: bool, hay: string, needle: string, from: nat): (r: Option<nat>)
    ensures r.Some? ==> from <= r.value && r.value + |needle| <= |hay|
  {
    if exactFirst then FindAnyCase(hay, needle, from) else Find(Upper(hay), needle, from)
  }

  /** From `begin` past the END tag at `end` and past the line end that follows it. */
  function Slice(body: string, begin: Option<nat>, end: Option<nat>, tagLength: nat): (r: Option<string>)
    requires begin.Some? && end.Some? ==> begin.value <= end.value && end.value + tagLength <= |body|
    ensures r.Some? <==> begin.Some? && end.Some?
    ensures r.Some? ==> |r.value| >= tagLength
  {
    if begin.None? || end.None? then None
    else Some(body[begin.value..PastLineEnd(body, end.value + tagLength)])
  }

  /** First BEGIN and the first END after it. */
  function Chunk(exactFirst: bool, body: string, beginTag: string, endTag: string): (r: Option<string>)
    ensures r.Some? ==> |r.value| >= |endTag|
  {
    var begin := Look(exactFirst, body, beginTag, 0);
    var end := if begin.Some? then Look(exactFirst, body, endTag, begin.value) else None;
    Slice(body, begin, end, |endTag|)
  }

  /** The older slice of a VEVENT. */
  function ExtractChunk(body: string): (r: Option<string>)
    ensures r.Some? ==> r.value != ""
  {
    Chunk(false, body, BEGIN_TAG, END_TAG)
  }

  /** The slice as shipped. */
  function ShippedChunk(body: string): (r: Option<string>)
    ensures r.Some? ==> r.value != ""
  {
    Chunk(true, body, BEGIN_TAG, END_TAG)
  }

  lemma SliceBegins(body: string, tag: string, begin: nat, stop: nat)
    requires At(Upper(body), tag, begin) && begin + |tag| <= stop <= |body|
    ensures StartsWith(Upper(body[begin..stop]), tag)
  {
    assert Upper(body[begin..stop])[..|tag|] == Upper(body)[begin..begin + |tag|];
  }

  lemma ChunkBegins(body: string, beginTag: string, endTag: string, begin: nat, end: nat)
    requires Find(Upper(body), beginTag, 0) == Some(begin) && Find(Upper(body), endTag, begin) == Some(end)
    requires begin + |beginTag| <= end
    ensures var r := Chunk(false, body, beginTag, endTag);
            r.Some? && StartsWith(Upper(r.value), beginTag) && |r.value| >= |beginTag| + |endTag|
  {
    SliceBegins(body, beginTag, begin, PastLineEnd(body, end + |endTag|));
  }

  /** A slice found begins with BEGIN and has room for both tags. */
  lemma ExtractBegins(body: string)
    ensures var r := ExtractChunk(body);
            r.Some? ==> StartsWith(Upper(r.value), BEGIN_TAG) && |r.value| >= |BEGIN_TAG| + |END_TAG|
  {
    var begin := Find(Upper(body), BEGIN_TAG, 0);
    if begin.Some? && Find(Upper(body), END_TAG, begin.value).Some? {
      var end := Find(Upper(body), END_TAG, begin.value).value;
      TagsApart(Upper(body), begin.value, end);
      ChunkBegins(body, BEGIN_TAG, END_TAG, begin.value, end);
    }
  }

  /** The tags do not overlap. */
  lemma TagsApart(s: string, begin: nat, end: nat)
    requires At(s, BEGIN_TAG, begin) && At(s, END_TAG, end) && begin <= end
    ensures end >= begin + |BEGIN_TAG|
  {
    TagChars(s, BEGIN_TAG, begin);
    TagChars(s, END_TAG, end);
    assert s[end] == END_TAG[0] && s[end + 1] == END_TAG[1] && s[end + 2] == END_TAG[2];
    assert forall k :: begin <= k < begin + |BEGIN_TAG| && s[k] == 'E' ==>
             k == begin + 1 || k == begin + 7 || k == begin + 9;
    assert s[begin + 2] == 'G' && s[begin + 8] == 'V' && s[begin + 11] == 'T';
  }

  lemma TagChars(s: string, tag: string, i: nat)
    requires At(s, tag, i)
    ensures forall k :: i <= k < i + |tag| ==> s[k] == tag[k - i]
  {
    forall k | i <= k < i + |tag| ensures s[k] == tag[k - i] {
      assert s[i..i + |tag|][k - i] == s[k];
    }
  }

  lemma ExactIsAnyCase(hay: string, needle: string, i: nat)
    requires Upper(needle) == needle && At(hay, needle, i)
    ensures At(Upper(hay), needle, i)
  {
    assert Upper(hay)[i..i + |needle|] == Upper(hay[i..i + |needle|]);
  }

  /**
   The two searches agree exactly when no exact match follows the first match in another
   case: a lower-case tag before an upper-case one is passed over.
   */
  lemma SearchesAgreeIff(hay: string, needle: string, from: nat)
    requires Upper(needle) == needle
    ensures FindAnyCase(hay, needle, from) == Find(Upper(hay), needle, from) <==>
              Find(hay, needle, from).None? ||
              (Find(Upper(hay), needle, from).Some? && At(hay, needle, Find(Upper(hay), needle, from).value))
  {
    var exact, any := Find(hay, needle, from), Find(Upper(hay), needle, from);
    if exact.Some? {
      ExactIsAnyCase(hay, needle, exact.value);
    }
  }

  // ----- cutting a body into blocks

  /** split('\n'). */
  function Lines(text: string): (r: seq<string>)
    ensures r != []
    ensures forall l :: l in r ==> '\n' !in l
  {
    if text == [] then [""]
    else
      var rest := Lines(text[1..]);
      if text[0] == '\n' then [""] + rest
      else
        assert rest[0] in rest;
        [[text[0]] + rest[0]] + rest[1..]
  }

  /** trim_end_matches('\r'). */
  function TrimEndCr(line: string): (r: string)
    ensures r == [] || r[|r| - 1] != '\r'
    ensures r <= line
  {
    if line != [] && line[|line| - 1] == '\r' then TrimEndCr(line[..|line| - 1]) else line
  }

  /** Unicode White_Space, as trim_start uses it. */
  predicate IsWhitespace(c: char) {
    || '\t' <= c <= '\r' || c == ' ' || c == '\U{85}' || c == '\U{A0}' || c == '\U{1680}'
    || '\U{2000}' <= c <= '\U{200A}' || c == '\U{2028}' || c == '\U{2029}' || c == '\U{202F}'
    || c == '\U{205F}' || c == '\U{3000}'
  }

  function TrimStart(line: string): string {
    if line != [] && IsWhitespace(line[0]) then TrimStart(line[1..]) else line
  }

  ghost predicate Blank(s: string) {
    forall i :: 0 <= i < |s| ==> IsWhitespace(s[i])
  }

  lemma {:induction false} StartTrimmed(pad: string, rest: string)
    requires Blank(pad) && rest != "" && !IsWhitespace(rest[0])
    ensures TrimStart(pad + rest) == rest
  {
    if pad == "" {
      assert pad + rest == rest;
    } else {
      TailAppend(pad, rest);
      StartTrimmed(pad[1..], rest);
    }
  }

  predicate IsBegin(line: string) { StartsWith(Upper(TrimStart(line)), BEGIN_TAG) }

  predicate IsEnd(line: string) { StartsWith(Upper(TrimStart(line)), END_TAG) }

  /** A line opens or closes a block exactly when, past any white space, it has the tag's letters in any case. */
  lemma TagLineIff(pad: string, word: string, rest: string)
    requires Blank(pad) && word != "" && !IsWhitespace(word[0])
    ensures |word| == |BEGIN_TAG| ==>
              (IsBegin(pad + (word + rest)) <==> forall i :: 0 <= i < |word| ==> SameLetter(word[i], BEGIN_TAG[i]))
    ensures |word| == |END_TAG| ==>
              (IsEnd(pad + (word + rest)) <==> forall i :: 0 <= i < |word| ==> SameLetter(word[i], END_TAG[i]))
  {
    StartTrimmed(pad, word + rest);
    PrefixIff(word, rest, BEGIN_TAG);
    PrefixIff(word, rest, END_TAG);
    UpperTags();
  }

  lemma UpperTags()
    ensures Upper(BEGIN_TAG) == BEGIN_TAG && Upper(END_TAG) == END_TAG
  {
  }

  lemma PrefixIff(word: string, rest: string, tag: string)
    ensures |word| == |tag| && Upper(tag) == tag ==>
              (StartsWith(Upper(word + rest), tag) <==> forall i :: 0 <= i < |word| ==> SameLetter(word[i], tag[i]))
  {
    if |word| == |tag| && Upper(tag) == tag {
      assert Upper(word + rest)[..|tag|] == Upper(word);
      UpperIff(word, tag);
    }
  }

  /** The blocks found so far and the open one, as lists of lines. */
  datatype Scan = Scan(blocks: seq<seq<string>>, inEvent: bool, current: seq<string>)

  const START: Scan := Scan([], false, [])

  function Step(s: Scan, line: string): Scan {
    var begun := if IsBegin(line) then s.(inEvent := true, current := []) else s;
    var extended := if begun.inEvent then begun.(current := begun.current + [line]) else begun;
    if extended.inEvent && IsEnd(line)
    then Scan(extended.blocks + [extended.current], false, [])
    else extended
  }

  function Run(s: Scan, lines: seq<string>): Scan
    decreases |lines|
  {
    if lines == [] then s else Run(Step(s, lines[0]), lines[1..])
  }

  function Cleaned(raw: seq<string>): seq<string> { Map(TrimEndCr, raw) }

  /** The VEVENT blocks of a body, as lists of lines. */
  function Blocks(text: string): seq<seq<string>> {
    Run(START, Cleaned(Lines(text))).blocks
  }

  /** Lines written out, each with its line end. */
  function Render(lines: seq<string>): string {
    if lines == [] then "" else (lines[0] + CRLF) + Render(lines[1..])
  }

  method SplitVevents(text: string) returns (blocks: seq<string>)
    ensures blocks == Map(Render, Blocks(text))
  {
    var raw := Lines(text);
    ghost var lines := Cleaned(raw);
    blocks := [];
    var inEvent, current := false, "";
    ghost var s := START;
    var i := 0;
    assert lines[0..] == lines;
    while i < |raw|
      invariant 0 <= i <= |raw|
      invariant Run(s, lines[i..]) == Run(START, lines)
      invariant blocks == Map(Render, s.blocks) && inEvent == s.inEvent && current == Render(s.current)
      invariant !s.inEvent ==> s.current == []
    {
      var line := TrimEndCr(raw[i]);
      assert lines[i..][0] == line && lines[i..][1..] == lines[i + 1..];
      var upper := Upper(TrimStart(line));
      if StartsWith(upper, BEGIN_TAG) {
        inEvent := true;
        current := "";
      }
      if inEvent {
        RenderLine(if IsBegin(line) then [] else s.current, line);
        current := current + line;
        current := current + CRLF;
      }
      MapAppend(Render, s.blocks, [(if IsBegin(line) then [] else s.current) + [line]]);
      s := Step(s, line);
      if inEvent && StartsWith(upper, END_TAG) {
        blocks := blocks + [current];
        current := "";
        inEvent := false;
      }
      i := i + 1;
    }
  }

  lemma RenderLine(lines: seq<string>, line: string)
    ensures Render(lines + [line]) == Render(lines) + line + CRLF
  {
    RenderAppend(lines, [line]);
    assert [line][1..] == [];
    assert Render([line]) == line + CRLF + Render([]);
    assert Render(lines) + (line + CRLF) == Render(lines) + line + CRLF;
  }

  lemma {:induction false} RenderAppend(a: seq<string>, b: seq<string>)
    ensures Render(a + b) == Render(a) + Render(b)
  {
    if a == [] {
      assert a + b == b;
    } else {
      RenderAppend(a[1..], b);
      TailAppend(a, b);
      AppendAssoc(a[0] + CRLF, Render(a[1..]), Render(b));
    }
  }

  lemma {:induction false} RunAppend(s: Scan, a: seq<string>, b: seq<string>)
    ensures Run(s, a + b) == Run(Run(s, a), b)
    decreases |a|
  {
    if a == [] {
      assert a + b == b;
    } else {
      RunAppend(Step(s, a[0]), a[1..], b);
      assert (a + b)[1..] == a[1..] + b;
    }
  }

  // ----- the shape of a block

  /** A line as the scan keeps it. */
  predicate Clean(line: string) {
    '\n' !in line && (line == [] || line[|line| - 1] != '\r')
  }

  /** An begun block: BEGIN first and only there, no END yet. */
  ghost predicate Open(lines: seq<string>) {
    && lines != [] && IsBegin(lines[0])
    && (forall k :: 0 < k < |lines| ==> !IsBegin(lines[k]))
    && (forall k :: 0 <= k < |lines| ==> !IsEnd(lines[k]) && Clean(lines[k]))
  }

  /** A whole block: END last and only there. */
  ghost predicate Block(lines: seq<string>) {
    && |lines| >= 2 && Open(lines[..|lines| - 1])
    && IsEnd(lines[|lines| - 1]) && !IsBegin(lines[|lines| - 1]) && Clean(lines[|lines| - 1])
  }

  ghost predicate Good(s: Scan) {
    && (forall b :: b in s.blocks ==> Block(b))
    && (if s.inEvent then Open(s.current) else s.current == [])
  }

  lemma NotBoth(line: string)
    ensures !(IsBegin(line) && IsEnd(line))
  {
    var u := Upper(TrimStart(line));
    assert IsBegin(line) ==> u[0] == BEGIN_TAG[0];
    assert IsEnd(line) ==> u[0] == END_TAG[0];
  }

  lemma StepGood(s: Scan, line: string)
    requires Good(s) && Clean(line)
    ensures Good(Step(s, line))
  {
    NotBoth(line);
    if s.inEvent && !IsBegin(line) && IsEnd(line) {
      assert (s.current + [line])[..|s.current|] == s.current;
    }
  }

  lemma {:induction false} RunGood(s: Scan, lines: seq<string>)
    requires Good(s) && forall l :: l in lines ==> Clean(l)
    ensures Good(Run(s, lines))
    decreases |lines|
  {
    if lines != [] {
      StepGood(s, lines[0]);
      RunGood(Step(s, lines[0]), lines[1..]);
    }
  }

  /** Every block of every body has the shape of a block. */
  lemma BlocksWellFormed(text: string)
    ensures forall b :: b in Blocks(text) ==> Block(b)
  {
    var lines := Cleaned(Lines(text));
    forall l | l in lines ensures Clean(l) {
      var i :| 0 <= i < |lines| && lines[i] == l;
      assert Lines(text)[i] in Lines(text);
    }
    RunGood(START, lines);
  }

  // ----- reading back what was written

  lemma {:induction false} LinesAppend(line: string, rest: string)
    requires '\n' !in line
    ensures Lines(line + ['\n'] + rest) == [line] + Lines(rest)
  {
    var text := line + ['\n'] + rest;
    if line == [] {
      assert text[1..] == rest;
    } else {
      LinesAppend(line[1..], rest);
      assert text[1..] == line[1..] + ['\n'] + rest;
      assert text[0] == line[0] && text[0] in line;
      assert Lines(text[1..])[0] == line[1..] && Lines(text[1..])[1..] == Lines(rest);
      assert [line[0]] + line[1..] == line;
    }
  }

  lemma TrimOne(line: string)
    requires Clean(line)
    ensures TrimEndCr(line + ['\r']) == line
  {
    assert (line + ['\r'])[..|line|] == line;
  }

  /** Clean lines come back as they were written, with one empty line after the last line end. */
  lemma {:induction false} ReadBack(lines: seq<string>)
    requires forall l :: l in lines ==> Clean(l)
    ensures Cleaned(Lines(Render(lines))) == lines + [""]
  {
    if lines != [] {
      assert lines[0] in lines;
      ReadBack(lines[1..]);
      ReadLine(lines[0], Render(lines[1..]));
      AppendAssoc([lines[0]], lines[1..], [""]);
      assert [lines[0]] + lines[1..] == lines;
    }
  }

  lemma ReadLine(line: string, rest: string)
    requires Clean(line)
    ensures Cleaned(Lines(line + CRLF + rest)) == [line] + Cleaned(Lines(rest))
  {
    assert line + CRLF + rest == (line + ['\r']) + ['\n'] + rest;
    assert '\n' !in line + ['\r'];
    LinesAppend(line + ['\r'], rest);
    TrimOne(line);
    MapAppend(TrimEndCr, [line + ['\r']], Lines(rest));
    assert Map(TrimEndCr, [line + ['\r']]) == [line];
  }

  lemma {:induction false} RunOpen(s: Scan, lines: seq<string>)
    requires s.inEvent
    requires forall k :: 0 <= k < |lines| ==> !IsBegin(lines[k]) && !IsEnd(lines[k])
    ensures Run(s, lines) == s.(current := s.current + lines)
    decreases |lines|
  {
    if lines == [] {
      assert s.current + lines == s.current;
    } else {
      RunOpen(Step(s, lines[0]), lines[1..]);
      assert s.current + [lines[0]] + lines[1..] == s.current + lines;
    }
  }

  /** Scanning a block between blocks adds exactly that block. */
  lemma RunBlock(s: Scan, lines: seq<string>)
    requires !s.inEvent && s.current == [] && Block(lines)
    ensures Run(s, lines) == s.(blocks := s.blocks + [lines])
  {
    var n := |lines| - 1;
    var first, middle, last := lines[0], lines[1..n], lines[n];
    assert lines[..n][0] == first;
    assert forall k :: 0 <= k < |middle| ==> middle[k] == lines[..n][k + 1];
    assert lines == [first] + middle + [last];
    RunAppend(s, [first] + middle, [last]);
    RunAppend(s, [first], middle);
    assert Step(s, first) == s.(inEvent := true, current := [first]);
    assert Run(s, [first]) == Step(s, first) by {
      assert [first][1..] == [];
    }
    RunOpen(Step(s, first), middle);
    var begun := Run(s, [first] + middle);
    assert Run(begun, [last]) == Step(begun, last) by {
      assert [last][1..] == [];
    }
  }

  ghost predicate Neutral(lines: seq<string>) {
    forall l :: l in lines ==> Clean(l) && !IsBegin(l) && !IsEnd(l)
  }

  lemma {:induction false} RunNeutral(s: Scan, lines: seq<string>)
    requires !s.inEvent && Neutral(lines)
    ensures Run(s, lines) == s
  {
    if lines != [] {
      assert lines[0] in lines;
      RunNeutral(s, lines[1..]);
    }
  }

  /** Blocks, each between the same neutral lines. */
  function Wrapped(pre: seq<string>, blocks: seq<seq<string>>, post: seq<string>): seq<string> {
    if blocks == [] then [] else pre + blocks[0] + post + Wrapped(pre, blocks[1..], post)
  }

  lemma {:induction false} WrappedClean(pre: seq<string>, blocks: seq<seq<string>>, post: seq<string>)
    requires Neutral(pre) && Neutral(post) && forall b :: b in blocks ==> Block(b)
    ensures forall l :: l in Wrapped(pre, blocks, post) ==> Clean(l)
  {
    if blocks != [] {
      WrappedClean(pre, blocks[1..], post);
      BlockClean(blocks[0]);
    }
  }

  lemma BlockClean(b: seq<string>)
    requires Block(b)
    ensures forall l :: l in b ==> Clean(l)
  {
    var n := |b| - 1;
    assert b == b[..n] + [b[n]];
    assert forall l :: l in b[..n] ==> exists k :: 0 <= k < n && b[..n][k] == l;
  }

  lemma {:induction false} RunWrapped(s: Scan, pre: seq<string>, blocks: seq<seq<string>>, post: seq<string>)
    requires !s.inEvent && s.current == [] && Neutral(pre) && Neutral(post)
    requires forall b :: b in blocks ==> Block(b)
    ensures Run(s, Wrapped(pre, blocks, post)) == s.(blocks := s.blocks + blocks)
    decreases |blocks|
  {
    if blocks == [] {
      assert s.blocks + blocks == s.blocks;
    } else {
      var b, rest := blocks[0], Wrapped(pre, blocks[1..], post);
      RunAppend(s, pre + b + post, rest);
      RunAppend(s, pre + b, post);
      RunAppend(s, pre, b);
      RunNeutral(s, pre);
      RunBlock(s, b);
      var t := s.(blocks := s.blocks + [b]);
      RunNeutral(t, post);
      RunWrapped(t, pre, blocks[1..], post);
      AppendAssoc(s.blocks, [b], blocks[1..]);
      assert [b] + blocks[1..] == blocks;
    }
  }

  /**
   For every body: its blocks, written out again one by one between any neutral lines, in a
   document with any neutral head and foot, split into the same blocks.
   */
  lemma SplitAgain(text: string, head: seq<string>, pre: seq<string>, post: seq<string>, foot: seq<string>)
    requires Neutral(head) && Neutral(pre) && Neutral(post) && Neutral(foot)
    ensures Blocks(Render(head) + Render(Wrapped(pre, Blocks(text), post)) + Render(foot)) == Blocks(text)
  {
    var blocks := Blocks(text);
    BlocksWellFormed(text);
    var middle := Wrapped(pre, blocks, post);
    WrappedClean(pre, blocks, post);
    RenderAppend(head, middle);
    RenderAppend(head + middle, foot);
    var doc := head + middle + foot;
    ReadBack(doc);
    RunAppend(START, doc, [""]);
    RunAppend(START, head + middle, foot);
    RunAppend(START, head, middle);
    RunNeutral(START, head);
    RunWrapped(START, pre, blocks, post);
    var t := START.(blocks := START.blocks + blocks);
    assert START.blocks + blocks == blocks;
    RunNeutral(t, foot);
    EmptyNeutral();
    RunNeutral(t, [""]);
  }

  lemma EmptyNeutral()
    ensures Neutral([""])
  {
    assert TrimStart("") == "";
  }

  // ----- the VCALENDAR shell of a stored row

  const SHELL: seq<string> := ["BEGIN:VCALENDAR", "VERSION:2.0", "PRODID:-//OxiCloud//NONSGML Calendar//EN"]
  const SHELL_END: seq<string> := ["END:VCALENDAR"]

  /** A line that starts with neither whitespace nor the letters of a tag is neutral. */
  lemma PlainNeutral(line: string)
    requires |line| >= 8 && Clean(line) && !IsWhitespace(line[0])
    requires UpperChar(line[0]) == 'B' ==> UpperChar(line[7]) != 'E'
    requires UpperChar(line[0]) == 'E' ==> UpperChar(line[5]) != 'E'
    ensures Neutral([line])
  {
    assert TrimStart(line) == line;
    var u := Upper(line);
    assert u[0] == UpperChar(line[0]) && u[5] == UpperChar(line[5]) && u[7] == UpperChar(line[7]);
    assert |u| >= |BEGIN_TAG| ==> u[..|BEGIN_TAG|][0] == u[0] && u[..|BEGIN_TAG|][7] == u[7];
    assert |u| >= |END_TAG| ==> u[..|END_TAG|][0] == u[0] && u[..|END_TAG|][5] == u[5];
  }

  lemma ShellNeutral()
    ensures Neutral(SHELL) && Neutral(SHELL_END)
  {
    PlainNeutral(SHELL[0]);
    PlainNeutral(SHELL[1]);
    PlainNeutral(SHELL[2]);
    PlainNeutral(SHELL_END[0]);
    forall l | l in SHELL ensures Neutral([l]) {
      assert l == SHELL[0] || l == SHELL[1] || l == SHELL[2];
    }
    assert forall l :: l in SHELL ==> l in [l];
    assert SHELL_END[0] in SHELL_END;
  }

  /** Rows as stored, one shell around each block, split into the blocks they were made from. */
  lemma StoredRowsSplit(text: string)
    ensures Blocks(Render(Wrapped(SHELL, Blocks(text), SHELL_END))) == Blocks(text)
  {
    ShellNeutral();
    SplitAgain(text, [], SHELL, SHELL_END, []);
    assert Render([]) == "";
    assert "" + Render(Wrapped(SHELL, Blocks(text), SHELL_END)) + "" == Render(Wrapped(SHELL, Blocks(text), SHELL_END));
  }

  // ----- slicing the VEVENT out of a stored row

  function Stored(lines: seq<string>): string {
    Render(SHELL) + (Render(lines) + Render(SHELL_END))
  }
}
