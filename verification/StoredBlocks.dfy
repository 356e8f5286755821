/** A VEVENT block stored in a calendar shell of its own, and sliced out of it again. */
module StoredBlocks {
  import opened ICalendar
  import opened Sequences
  import opened Strings
  import opened Wrappers

  /** No occurrence of a tag crosses the end of a line. */
  ghost predicate OneLine(tag: string) {
    tag != [] && '\r' !in tag && '\n' !in tag
  }

  lemma AtPrefix(a: string, b: string, tag: string, i: nat)
    requires i + |tag| <= |a|
    ensures At(Upper(a + b), tag, i) <==> At(Upper(a), tag, i)
  {
    assert Upper(a + b)[i..i + |tag|] == Upper(a)[i..i + |tag|];
  }

  lemma AtSuffix(a: string, b: string, tag: string, k: nat)
    ensures At(Upper(a + b), tag, |a| + k) <==> At(Upper(b), tag, k)
  {
    if k + |tag| <= |b| {
      assert Upper(a + b)[|a| + k..|a| + k + |tag|] == Upper(b)[k..k + |tag|];
    }
  }

  lemma AtLineEnd(a: string, b: string, tag: string, i: nat)
    requires OneLine(tag) && i < |a| + 2 && |a| < i + |tag| <= |a| + 2 + |b|
    ensures !At(Upper(a + (CRLF + b)), tag, i)
  {
    var w := a + (CRLF + b);
    var k := if i <= |a| then |a| else |a| + 1;
    assert w[|a|] == '\r' && w[|a| + 1] == '\n';
    assert Upper(w)[i..i + |tag|][k - i] == w[k];
  }

  lemma AtAcrossLines(a: string, b: string, tag: string, i: nat)
    requires OneLine(tag)
    ensures At(Upper(a + CRLF + b), tag, i) <==>
              (i + |tag| <= |a| && At(Upper(a), tag, i)) || (i >= |a| + 2 && At(Upper(b), tag, i - |a| - 2))
  {
    AppendAssoc(a, CRLF, b);
    if i + |tag| <= |a| {
      AtPrefix(a, CRLF + b, tag, i);
    } else if i >= |a| + 2 {
      AtSuffix(a + CRLF, b, tag, i - |a| - 2);
    } else if i + |tag| <= |a| + 2 + |b| {
      AtLineEnd(a, b, tag, i);
    }
  }

  ghost predicate Free(line: string, tag: string) {
    forall i: nat :: !At(Upper(line), tag, i)
  }

  /** Lines without the tag are passed over. */
  lemma {:induction false} SkipLines(lines: seq<string>, rest: string, tag: string, i: nat)
    requires OneLine(tag) && (forall l :: l in lines ==> Free(l, tag)) && i < |Render(lines)|
    ensures !At(Upper(Render(lines) + rest), tag, i)
  {
    if lines != [] {
      var line, later := lines[0], Render(lines[1..]);
      AppendAssoc(line + CRLF, later, rest);
      AtAcrossLines(line, later + rest, tag, i);
      assert Free(line, tag);
      if i >= |line| + 2 {
        SkipLines(lines[1..], rest, tag, i - |line| - 2);
      }
    }
  }

  lemma TagsOneLine()
    ensures OneLine(BEGIN_TAG) && OneLine(END_TAG)
  {
  }

  lemma FreeOfBegin(line: string)
    requires forall i :: 1 <= i < |line| ==> line[i] != 'B' && line[i] != 'b'
    requires |line| >= 8 ==> UpperChar(line[0]) != 'B' || UpperChar(line[7]) != 'E'
    ensures Free(line, BEGIN_TAG)
  {
    forall i: nat ensures !At(Upper(line), BEGIN_TAG, i) {
      if At(Upper(line), BEGIN_TAG, i) {
        BeginChars(line, i);
      }
    }
  }

  lemma BeginChars(line: string, i: nat)
    requires At(Upper(line), BEGIN_TAG, i)
    ensures i + 7 < |line| && UpperChar(line[i]) == 'B' && UpperChar(line[i + 7]) == 'E'
  {
    TagChars(Upper(line), BEGIN_TAG, i);
    assert Upper(line)[i] == BEGIN_TAG[0] && Upper(line)[i + 7] == BEGIN_TAG[7];
  }

  lemma ShellFree()
    ensures forall l :: l in SHELL ==> Free(l, BEGIN_TAG)
  {
    FreeOfBegin("BEGIN:VCALENDAR");
    FreeOfBegin("VERSION:2.0");
    FreeOfBegin("PRODID:-//OxiCloud//NONSGML Calendar//EN");
    assert forall l :: l in SHELL ==> l == SHELL[0] || l == SHELL[1] || l == SHELL[2];
  }

  /** A line whose tag is not indented. */
  predicate Unindented(line: string) { StartsWith(Upper(line), BEGIN_TAG) }

  /** A block's text: all but its last line end. */
  lemma BlockText(lines: seq<string>) returns (text: string)
    requires lines != []
    ensures Render(lines) == text + CRLF
  {
    var n := |lines| - 1;
    RenderLine(lines[..n], lines[n]);
    assert lines == lines[..n] + [lines[n]];
    text := Render(lines[..n]) + lines[n];
  }

  lemma BeginsAtOnce(lines: seq<string>)
    requires lines != [] && Unindented(lines[0])
    ensures At(Upper(Render(lines)), BEGIN_TAG, 0)
  {
    assert Upper(Render(lines))[0..|BEGIN_TAG|] == Upper(lines[0])[..|BEGIN_TAG|];
  }

  lemma MiddlePart(a: string, b: string, c: string)
    ensures |a + b + c| == |a| + |b| + |c| && (a + b + c)[|a|..|a| + |b|] == b
    ensures a + (b + c) == a + b + c
  {
  }

  /** A written block starts with the tag only if its first line does. */
  lemma BeginShows(lines: seq<string>)
    requires lines != [] && StartsWith(Upper(Render(lines)), BEGIN_TAG)
    ensures Unindented(lines[0])
  {
    TagsOneLine();
    assert At(Upper(Render(lines)), BEGIN_TAG, 0);
    AtAcrossLines(lines[0], Render(lines[1..]), BEGIN_TAG, 0);
  }

  // ----- the shell has no tags of its own

  lemma FreeOfEnd(line: string)
    requires forall i :: 1 <= i && i + |END_TAG| <= |line| ==> UpperChar(line[i]) != 'E'
    requires |line| >= 6 ==> UpperChar(line[5]) != 'E'
    ensures Free(line, END_TAG)
  {
    forall i: nat ensures !At(Upper(line), END_TAG, i) {
      if At(Upper(line), END_TAG, i) {
        EndChars(line, i);
      }
    }
  }

  lemma EndChars(line: string, i: nat)
    requires At(Upper(line), END_TAG, i)
    ensures i + |END_TAG| <= |line| && UpperChar(line[i]) == 'E' && UpperChar(line[i + 5]) == 'E'
  {
    TagChars(Upper(line), END_TAG, i);
    assert Upper(line)[i] == END_TAG[0] && Upper(line)[i + 5] == END_TAG[5];
  }

  predicate IsTag(tag: string) {
    tag == BEGIN_TAG || tag == END_TAG
  }

  lemma ShellEndFree(tag: string)
    requires IsTag(tag)
    ensures forall l :: l in SHELL_END ==> Free(l, tag)
  {
    FreeOfBegin("END:VCALENDAR");
    FreeOfEnd("END:VCALENDAR");
    assert forall l :: l in SHELL_END ==> l == SHELL_END[0];
  }

  lemma TagsUpper(tag: string)
    requires IsTag(tag)
    ensures OneLine(tag) && Upper(tag) == tag
  {
    TagsOneLine();
  }

  // ----- a text that holds a block and no other tags

  /** From `h` on, the tag stands in `w` where it stands in `b`, in any case and exactly. */
  ghost predicate Mirrors(w: string, h: nat, b: string, tag: string) {
    Shifted(Upper(w), Upper(b), tag, h) && Shifted(w, b, tag, h)
  }

  /** `w` holds the block `b`, with its last line end, at `h`. */
  ghost predicate Placed(w: string, h: nat, b: string) {
    && h + |b| <= |w| && w[h..h + |b|] == b
    && |b| >= 2 && b[|b| - 2..] == CRLF
  }

  lemma SameSlice(a: string, b: string, c: string, i: nat, n: nat)
    requires i + n <= |b|
    ensures (a + (b + c))[|a| + i..|a| + i + n] == b[i..i + n]
  {
  }

  /** Text around a block whose lines show no tags leaves its searches alone. */
  lemma AroundAnyCase(a: string, text: string, c: seq<string>, tag: string, i: nat)
    requires OneLine(tag) && forall l :: l in c ==> Free(l, tag)
    ensures At(Upper(a + (text + CRLF + Render(c))), tag, |a| + i) <==> At(Upper(text + CRLF), tag, i)
  {
    var b := text + CRLF;
    AtSuffix(a, b + Render(c), tag, i);
    if i < |b| {
      AtAcrossLines(text, Render(c), tag, i);
      AtAcrossLines(text, "", tag, i);
      assert b + "" == b;
    } else {
      AtSuffix(b, Render(c), tag, i - |b|);
      if i - |b| < |Render(c)| {
        SkipLines(c, "", tag, i - |b|);
        assert Render(c) + "" == Render(c);
      }
    }
  }

  lemma AroundExact(a: string, b: string, c: string, tag: string, i: nat)
    requires Upper(tag) == tag && (At(Upper(a + (b + c)), tag, |a| + i) <==> At(Upper(b), tag, i))
    ensures At(a + (b + c), tag, |a| + i) <==> At(b, tag, i)
  {
    if At(a + (b + c), tag, |a| + i) {
      ExactIsAnyCase(a + (b + c), tag, |a| + i);
      SameSlice(a, b, c, i, |tag|);
    }
    if At(b, tag, i) {
      SameSlice(a, b, c, i, |tag|);
    }
  }

  lemma AroundUpper(a: string, text: string, c: seq<string>, tag: string)
    requires OneLine(tag) && forall l :: l in c ==> Free(l, tag)
    ensures Shifted(Upper(a + (text + CRLF + Render(c))), Upper(text + CRLF), tag, |a|)
  {
    forall i: nat
      ensures At(Upper(a + (text + CRLF + Render(c))), tag, |a| + i) <==> At(Upper(text + CRLF), tag, i)
    {
      AroundAnyCase(a, text, c, tag, i);
    }
  }

  lemma AroundMirrors(a: string, b: string, c: string, tag: string)
    requires Upper(tag) == tag && Shifted(Upper(a + (b + c)), Upper(b), tag, |a|)
    ensures Mirrors(a + (b + c), |a|, b, tag)
  {
    forall i: nat ensures At(a + (b + c), tag, |a| + i) <==> At(b, tag, i) {
      assert At(Upper(a + (b + c)), tag, |a| + i) <==> At(Upper(b), tag, i);
      AroundExact(a, b, c, tag, i);
    }
  }

  /** A block between other lines. */
  function Framed(head: seq<string>, lines: seq<string>, foot: seq<string>): string {
    Render(head) + (Render(lines) + Render(foot))
  }

  lemma FramedMirrors(head: seq<string>, lines: seq<string>, foot: seq<string>, tag: string)
    requires lines != [] && OneLine(tag) && Upper(tag) == tag && forall l :: l in foot ==> Free(l, tag)
    ensures Mirrors(Framed(head, lines, foot), |Render(head)|, Render(lines), tag)
  {
    var text := BlockText(lines);
    AroundUpper(Render(head), text, foot, tag);
    AroundMirrors(Render(head), text + CRLF, Render(foot), tag);
  }

  lemma FramedPlaced(head: seq<string>, lines: seq<string>, foot: seq<string>)
    requires lines != []
    ensures Placed(Framed(head, lines, foot), |Render(head)|, Render(lines))
  {
    var text := BlockText(lines);
    MiddlePart(Render(head), Render(lines), Render(foot));
    assert (text + CRLF)[|text|..] == CRLF;
  }

  lemma NoneInHead(head: seq<string>, lines: seq<string>, foot: seq<string>, tag: string)
    requires OneLine(tag) && forall l :: l in head ==> Free(l, tag)
    ensures NoneIn(Upper(Framed(head, lines, foot)), tag, 0, |Render(head)|)
  {
    forall j: nat | 0 <= j < |Render(head)| ensures !At(Upper(Framed(head, lines, foot)), tag, j) {
      SkipLines(head, Render(lines) + Render(foot), tag, j);
    }
  }

  // ----- searches

  function Shift(r: Option<nat>, h: nat): Option<nat> {
    match r
    case None => None
    case Some(i) => Some(h + i)
  }

  /** An occurrence in `w` at or after `h` is one in `b`. */
  ghost predicate Shifted(w: string, b: string, tag: string, h: nat) {
    forall i: nat :: At(w, tag, h + i) <==> At(b, tag, i)
  }

  ghost predicate NoneIn(hay: string, tag: string, lo: nat, hi: nat) {
    forall j: nat :: lo <= j < hi ==> !At(hay, tag, j)
  }

  /** What a search from `lo` returns. */
  ghost predicate Finds(hay: string, tag: string, lo: nat, r: Option<nat>) {
    match r
    case None => forall j: nat :: lo <= j ==> !At(hay, tag, j)
    case Some(i) => lo <= i && At(hay, tag, i) && NoneIn(hay, tag, lo, i)
  }

  lemma FoundIs(hay: string, tag: string, lo: nat, r: Option<nat>)
    requires Finds(hay, tag, lo, r)
    ensures Find(hay, tag, lo) == r
  {
  }

  lemma FirstShifted(w: string, b: string, tag: string, h: nat, lo: nat, from: nat, i: nat)
    requires lo <= h + from && NoneIn(w, tag, lo, h + from) && Shifted(w, b, tag, h)
    requires from <= i && At(b, tag, i) && NoneIn(b, tag, from, i)
    ensures Finds(w, tag, lo, Some(h + i))
  {
    assert At(w, tag, h + i) <==> At(b, tag, i);
    forall j: nat | lo <= j < h + i ensures !At(w, tag, j) {
      if j >= h + from {
        var k := j - h;
        assert At(w, tag, h + k) <==> At(b, tag, k);
      }
    }
  }

  lemma NoneShifted(w: string, b: string, tag: string, h: nat, lo: nat, from: nat)
    requires lo <= h + from && NoneIn(w, tag, lo, h + from) && Shifted(w, b, tag, h)
    requires Finds(b, tag, from, None)
    ensures Finds(w, tag, lo, None)
  {
    forall j: nat | lo <= j ensures !At(w, tag, j) {
      if j >= h + from {
        var k := j - h;
        assert At(w, tag, h + k) <==> At(b, tag, k);
      }
    }
  }

  lemma FindShifted(w: string, b: string, tag: string, h: nat, lo: nat, from: nat, x: Option<nat>)
    requires lo <= h + from && NoneIn(w, tag, lo, h + from) && Shifted(w, b, tag, h)
    requires Finds(b, tag, from, x)
    ensures Finds(w, tag, lo, Shift(x, h))
  {
    match x
    case None => NoneShifted(w, b, tag, h, lo, from);
    case Some(i) => FirstShifted(w, b, tag, h, lo, from, i);
  }

  lemma SearchShifted(w: string, b: string, tag: string, h: nat, lo: nat, from: nat)
    requires lo <= h + from && NoneIn(w, tag, lo, h + from) && Shifted(w, b, tag, h)
    ensures Find(w, tag, lo) == Shift(Find(b, tag, from), h)
  {
    var x := Find(b, tag, from);
    FindShifted(w, b, tag, h, lo, from, x);
    FoundIs(w, tag, lo, Shift(x, h));
  }

  /** Either search in the text is that search in the block. */
  lemma LookShifted(exactFirst: bool, w: string, b: string, tag: string, h: nat, lo: nat, from: nat)
    requires Upper(tag) == tag && Mirrors(w, h, b, tag)
    requires lo <= h + from && NoneIn(Upper(w), tag, lo, h + from)
    ensures Look(exactFirst, w, tag, lo) == Shift(Look(exactFirst, b, tag, from), h)
  {
    SearchShifted(Upper(w), Upper(b), tag, h, lo, from);
    if exactFirst {
      forall j: nat | lo <= j < h + from ensures !At(w, tag, j) {
        if At(w, tag, j) {
          ExactIsAnyCase(w, tag, j);
        }
      }
      SearchShifted(w, b, tag, h, lo, from);
    }
  }

  // ----- the slice

  /** A tag does not reach into the last line end. */
  lemma TagInside(b: string, tag: string, e: nat)
    requires |b| >= 2 && b[|b| - 2..] == CRLF && OneLine(tag) && At(Upper(b), tag, e)
    ensures e + |tag| <= |b| - 2
  {
    TagChars(Upper(b), tag, e);
    var last := e + |tag| - 1;
    assert tag[|tag| - 1] in tag && Upper(b)[last] == tag[|tag| - 1];
    assert b[|b| - 2] == b[|b| - 2..][0] == '\r' && b[|b| - 1] == b[|b| - 2..][1] == '\n';
    assert Upper(b)[|b| - 2] == '\r' && Upper(b)[|b| - 1] == '\n';
  }

  /** The line end taken along is the block's last exactly right before it. */
  lemma StopIff(w: string, h: nat, b: string, stop: nat)
    requires Placed(w, h, b) && stop <= |b| - 2
    ensures PastLineEnd(w, h + stop) <= h + |b|
    ensures stop == |b| - 2 ==> PastLineEnd(w, h + stop) == h + |b|
    ensures stop < |b| - 2 ==> PastLineEnd(w, h + stop) < h + |b|
  {
    assert b[|b| - 2] == b[|b| - 2..][0] == '\r' && b[|b| - 1] == b[|b| - 2..][1] == '\n';
    assert w[h + |b| - 2] == b[|b| - 2] && w[h + |b| - 1] == b[|b| - 1];
  }

  /** Cut from `i` to the line end past `stop`, the slice is the block exactly when both stand at its ends. */
  lemma SliceIff(w: string, h: nat, b: string, i: nat, stop: nat)
    requires Placed(w, h, b) && i <= stop <= |b| - 2
    ensures w[h + i..PastLineEnd(w, h + stop)] == b <==> i == 0 && stop == |b| - 2
  {
    StopIff(w, h, b, stop);
  }

  /** A text around a block gives the block exactly when the cut is at the block's ends. */
  lemma CutIff(w: string, h: nat, b: string, n: nat, i: Option<nat>, e: Option<nat>)
    requires Placed(w, h, b)
    requires i.Some? && e.Some? ==> i.value <= e.value && e.value + n <= |b| - 2
    ensures i.Some? && e.Some? ==> h + e.value + n <= |w|
    ensures Slice(w, Shift(i, h), Shift(e, h), n) == Some(b) <==> i == Some(0) && e == Some(|b| - n - 2)
  {
    if i.Some? && e.Some? {
      SliceIff(w, h, b, i.value, e.value + n);
    }
  }

  lemma LookedAt(exactFirst: bool, hay: string, tag: string, from: nat)
    requires Upper(tag) == tag && Look(exactFirst, hay, tag, from).Some?
    ensures At(Upper(hay), tag, Look(exactFirst, hay, tag, from).value)
  {
    if exactFirst && Find(hay, tag, from).Some? {
      ExactIsAnyCase(hay, tag, Find(hay, tag, from).value);
    }
  }

  /** The search for the END tag goes on from the BEGIN found at `i`. */
  ghost predicate LooksOn(exactFirst: bool, hay: string, et: string, i: Option<nat>, e: Option<nat>) {
    if i.Some? then Look(exactFirst, hay, et, i.value) == e else e.None?
  }

  lemma EndThere(exactFirst: bool, b: string, et: string, i: Option<nat>, e: Option<nat>)
    requires |b| >= 2 && b[|b| - 2..] == CRLF && OneLine(et) && Upper(et) == et
    requires LooksOn(exactFirst, b, et, i, e)
    ensures i.Some? && e.Some? ==> i.value <= e.value && e.value + |et| <= |b| - 2
  {
    if i.Some? && e.Some? {
      LookedAt(exactFirst, b, et, i.value);
      TagInside(b, et, e.value);
    }
  }

  lemma ChunkIs(exactFirst: bool, w: string, bt: string, et: string, i: Option<nat>, e: Option<nat>)
    requires Look(exactFirst, w, bt, 0) == i
    requires LooksOn(exactFirst, w, et, i, e)
    ensures i.Some? && e.Some? ==> i.value <= e.value && e.value + |et| <= |w|
    ensures Chunk(exactFirst, w, bt, et) == Slice(w, i, e, |et|)
  {
  }

  lemma ChunkIff(
    exactFirst: bool, w: string, h: nat, b: string, bt: string, et: string, i: Option<nat>, e: Option<nat>
  )
    requires Placed(w, h, b)
    requires Look(exactFirst, w, bt, 0) == Shift(i, h) && LooksOn(exactFirst, w, et, Shift(i, h), Shift(e, h))
    requires i.Some? && e.Some? ==> i.value <= e.value && e.value + |et| <= |b| - 2
    ensures Chunk(exactFirst, w, bt, et) == Some(b) <==> i == Some(0) && e == Some(|b| - |et| - 2)
  {
    ChunkIs(exactFirst, w, bt, et, Shift(i, h), Shift(e, h));
    CutIff(w, h, b, |et|, i, e);
  }

  /** The block `b` stands at `h` in `w`, and no tag is found around it before its own. */
  ghost predicate Around(w: string, h: nat, b: string, bt: string, et: string) {
    && Placed(w, h, b)
    && OneLine(et) && Upper(bt) == bt && Upper(et) == et
    && Mirrors(w, h, b, bt) && Mirrors(w, h, b, et)
    && NoneIn(Upper(w), bt, 0, h)
  }

  lemma EndLooked(exactFirst: bool, w: string, h: nat, b: string, et: string, i: Option<nat>, e: Option<nat>)
    requires LooksOn(exactFirst, b, et, i, e)
    requires i.Some? ==> Look(exactFirst, w, et, h + i.value) == Shift(Look(exactFirst, b, et, i.value), h)
    ensures LooksOn(exactFirst, w, et, Shift(i, h), Shift(e, h))
  {
  }

  lemma EndShifted(exactFirst: bool, w: string, h: nat, b: string, et: string, i: Option<nat>, e: Option<nat>)
    requires Upper(et) == et && Mirrors(w, h, b, et) && LooksOn(exactFirst, b, et, i, e)
    ensures LooksOn(exactFirst, w, et, Shift(i, h), Shift(e, h))
  {
    if i.Some? {
      LookShifted(exactFirst, w, b, et, h, h + i.value, i.value);
      EndLooked(exactFirst, w, h, b, et, i, e);
    }
  }

  /** The slice of `w` is `b` exactly when the search finds BEGIN at its start and END before its last line end. */
  ghost predicate CutAtEnds(exactFirst: bool, w: string, b: string, bt: string, et: string) {
    Chunk(exactFirst, w, bt, et) == Some(b) <==>
      && Look(exactFirst, b, bt, 0) == Some(0)
      && Look(exactFirst, b, et, 0) == Some(|b| - |et| - 2)
  }

  lemma BlockIff(exactFirst: bool, w: string, h: nat, b: string, bt: string, et: string)
    requires Around(w, h, b, bt, et)
    ensures CutAtEnds(exactFirst, w, b, bt, et)
  {
    var i := Look(exactFirst, b, bt, 0);
    var e := if i.Some? then Look(exactFirst, b, et, i.value) else None;
    LookShifted(exactFirst, w, b, bt, h, 0, 0);
    EndShifted(exactFirst, w, h, b, et, i, e);
    EndThere(exactFirst, b, et, i, e);
    ChunkIff(exactFirst, w, h, b, bt, et, i, e);
  }

  /** No tag stands in the lines after a block, and no BEGIN in those before it. */
  ghost predicate Quiet(head: seq<string>, foot: seq<string>) {
    && (forall l :: l in head ==> Free(l, BEGIN_TAG))
    && (forall l :: l in foot ==> Free(l, BEGIN_TAG))
    && (forall l :: l in foot ==> Free(l, END_TAG))
  }

  lemma FramedAround(head: seq<string>, lines: seq<string>, foot: seq<string>)
    requires lines != [] && Quiet(head, foot)
    ensures Around(Framed(head, lines, foot), |Render(head)|, Render(lines), BEGIN_TAG, END_TAG)
  {
    TagsUpper(BEGIN_TAG);
    TagsUpper(END_TAG);
    FramedPlaced(head, lines, foot);
    FramedMirrors(head, lines, foot, BEGIN_TAG);
    FramedMirrors(head, lines, foot, END_TAG);
    NoneInHead(head, lines, foot, BEGIN_TAG);
  }

  lemma FramedIff(exactFirst: bool, head: seq<string>, lines: seq<string>, foot: seq<string>)
    requires lines != [] && Quiet(head, foot)
    ensures CutAtEnds(exactFirst, Framed(head, lines, foot), Render(lines), BEGIN_TAG, END_TAG)
  {
    FramedAround(head, lines, foot);
    BlockIff(exactFirst, Framed(head, lines, foot), |Render(head)|, Render(lines), BEGIN_TAG, END_TAG);
  }

  lemma StoredIff(exactFirst: bool, lines: seq<string>)
    requires lines != []
    ensures CutAtEnds(exactFirst, Stored(lines), Render(lines), BEGIN_TAG, END_TAG)
  {
    ShellFree();
    ShellEndFree(BEGIN_TAG);
    ShellEndFree(END_TAG);
    FramedIff(exactFirst, SHELL, lines, SHELL_END);
  }

  /** The first BEGIN of the block is its first line's. */
  ghost predicate OpensAtOnce(exactFirst: bool, b: string) {
    Look(exactFirst, b, BEGIN_TAG, 0) == Some(0)
  }

  /** The first END of the block is the one that closes its last line. */
  ghost predicate ClosesOnce(exactFirst: bool, b: string) {
    Look(exactFirst, b, END_TAG, 0) == Some(|b| - |END_TAG| - 2)
  }

  lemma ExtractCut(w: string, b: string)
    requires CutAtEnds(false, w, b, BEGIN_TAG, END_TAG)
    ensures ExtractChunk(w) == Some(b) <==> OpensAtOnce(false, b) && ClosesOnce(false, b)
  {
  }

  lemma ShippedCut(w: string, b: string)
    requires CutAtEnds(true, w, b, BEGIN_TAG, END_TAG)
    ensures ShippedChunk(w) == Some(b) <==> OpensAtOnce(true, b) && ClosesOnce(true, b)
  {
  }

  lemma BeginIffUnindented(lines: seq<string>)
    requires lines != []
    ensures OpensAtOnce(false, Render(lines)) <==> Unindented(lines[0])
  {
    if Unindented(lines[0]) {
      BeginsAtOnce(lines);
      FindIs(Upper(Render(lines)), BEGIN_TAG, 0, 0);
    } else if OpensAtOnce(false, Render(lines)) {
      BeginShows(lines);
    }
  }

  /**
   The older slice of a stored block is that block exactly when its BEGIN is not indented and
   the first END in it is the one that closes its last line. An END inside a property value
   cuts the block short.
   */
  lemma ExtractStoredIff(lines: seq<string>)
    requires lines != []
    ensures ExtractChunk(Stored(lines)) == Some(Render(lines)) <==>
              Unindented(lines[0]) && ClosesOnce(false, Render(lines))
  {
    StoredIff(false, lines);
    ExtractCut(Stored(lines), Render(lines));
    BeginIffUnindented(lines);
  }

  /**
   The shipped slice of a stored block is that block exactly when the exact-first search finds
   BEGIN at its start and END before its last line end. A tag in another case is passed over
   for a later exact one.
   */
  lemma ShippedStoredIff(lines: seq<string>)
    requires lines != []
    ensures ShippedChunk(Stored(lines)) == Some(Render(lines)) <==>
              OpensAtOnce(true, Render(lines)) && ClosesOnce(true, Render(lines))
  {
    StoredIff(true, lines);
    ShippedCut(Stored(lines), Render(lines));
  }

  /** The same for a block between any quiet lines, such as a shell with time zones. */
  lemma ShippedFramedIff(head: seq<string>, lines: seq<string>, foot: seq<string>)
    requires lines != [] && Quiet(head, foot)
    ensures ShippedChunk(Framed(head, lines, foot)) == Some(Render(lines)) <==>
              OpensAtOnce(true, Render(lines)) && ClosesOnce(true, Render(lines))
  {
    FramedIff(true, head, lines, foot);
    ShippedCut(Framed(head, lines, foot), Render(lines));
  }
}
