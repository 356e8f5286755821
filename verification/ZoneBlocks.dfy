/**
 Which VTIMEZONE blocks of a body are found.  The search takes an exact tag anywhere ahead
 over one in another case, so a block in another case before an exact one is passed over.
 */
module ZoneBlocks {
  import opened CalDavBundles
  import opened CalDavStream
  import opened CalDavZones
  import opened ICalendar
  import opened Sequences
  import opened StoredBlocks
  import opened Strings
  import opened Wrappers

  // ----- every body

  /** `i` is the first exact tag at or after `from`, or the first in any case if there is no exact one. */
  ghost predicate FirstTag(body: string, tag: string, from: nat, i: nat) {
    && from <= i && At(Upper(body), tag, i)
    && if exists k: nat :: from <= k && At(body, tag, k) then At(body, tag, i) && NoneIn(body, tag, from, i)
       else NoneIn(Upper(body), tag, from, i)
  }

  lemma FoundFirst(body: string, tag: string, from: nat, i: nat)
    requires Upper(tag) == tag && FindAnyCase(body, tag, from) == Some(i)
    ensures FirstTag(body, tag, from, i)
  {
    if Find(body, tag, from).Some? {
      ExactIsAnyCase(body, tag, i);
    }
  }

  lemma FoundNone(body: string, tag: string, from: nat)
    requires FindAnyCase(body, tag, from) == None
    ensures forall k: nat :: from <= k ==> !At(Upper(body), tag, k)
  {
  }

  lemma FirstTagOnce(body: string, tag: string, from: nat, i: nat, j: nat)
    requires FirstTag(body, tag, from, i) && FirstTag(body, tag, from, j)
    ensures i == j
  {
  }

  /** A slice of a body from a BEGIN, with the END that closes it at `close`. */
  datatype Span = Span(begin: nat, close: nat, end: nat)

  /** The first BEGIN from `from` on, the first END after it, and the line end of that. */
  ghost predicate IsSpan(body: string, bt: string, et: string, from: nat, s: Span) {
    && FirstTag(body, bt, from, s.begin) && FirstTag(body, et, s.begin, s.close)
    && s.close + |et| <= |body| && s.end == PastLineEnd(body, s.close + |et|)
  }

  /** The search is over: there is no BEGIN, or the one found has no END after it. */
  ghost predicate Over(body: string, bt: string, et: string, from: nat) {
    forall i: nat, e: nat :: FirstTag(body, bt, from, i) && i <= e ==> !At(Upper(body), et, e)
  }

  ghost predicate Spans(body: string, bt: string, et: string, from: nat, spans: seq<Span>)
    decreases |spans|
  {
    if spans == [] then Over(body, bt, et, from)
    else IsSpan(body, bt, et, from, spans[0]) && Spans(body, bt, et, spans[0].end, spans[1..])
  }

  function CutOut(body: string, s: Span): string {
    if s.begin <= s.end <= |body| then body[s.begin..s.end] else ""
  }

  function CutsOut(body: string, spans: seq<Span>): seq<string> {
    if spans == [] then [] else [CutOut(body, spans[0])] + CutsOut(body, spans[1..])
  }

  lemma NoEndOver(body: string, bt: string, et: string, from: nat, begin: nat)
    requires FirstTag(body, bt, from, begin) && forall k: nat :: begin <= k ==> !At(Upper(body), et, k)
    ensures Over(body, bt, et, from)
  {
    forall i: nat, e: nat | FirstTag(body, bt, from, i) && i <= e ensures !At(Upper(body), et, e) {
      FirstTagOnce(body, bt, from, i, begin);
    }
  }

  lemma NextIsAt(w: string, bt: string, et: string, from: nat, begin: nat, close: nat)
    requires et != [] && FindAnyCase(w, bt, from) == Some(begin) && FindAnyCase(w, et, begin) == Some(close)
    ensures close + |et| <= |w| && NextChunk(w, bt, et, from) == Some((begin, PastLineEnd(w, close + |et|)))
  {
  }

  lemma SpanFound(body: string, bt: string, et: string, from: nat, begin: nat, close: nat)
    requires FirstTag(body, bt, from, begin) && FirstTag(body, et, begin, close) && close + |et| <= |body|
    ensures IsSpan(body, bt, et, from, Span(begin, close, PastLineEnd(body, close + |et|)))
  {
  }

  lemma NextFound(body: string, bt: string, et: string, from: nat, begin: nat, close: nat)
    requires et != [] && Upper(bt) == bt && Upper(et) == et
    requires FindAnyCase(body, bt, from) == Some(begin) && FindAnyCase(body, et, begin) == Some(close)
    ensures close + |et| <= |body|
    ensures var end := PastLineEnd(body, close + |et|);
            NextChunk(body, bt, et, from) == Some((begin, end)) && IsSpan(body, bt, et, from, Span(begin, close, end))
  {
    NextIsAt(body, bt, et, from, begin, close);
    FoundFirst(body, bt, from, begin);
    FoundFirst(body, et, begin, close);
    SpanFound(body, bt, et, from, begin, close);
  }

  lemma NextUnclosed(body: string, bt: string, et: string, from: nat, begin: nat)
    requires et != [] && Upper(bt) == bt
    requires FindAnyCase(body, bt, from) == Some(begin) && FindAnyCase(body, et, begin) == None
    ensures NextChunk(body, bt, et, from) == None && Over(body, bt, et, from)
  {
    FoundFirst(body, bt, from, begin);
    FoundNone(body, et, begin);
    NoEndOver(body, bt, et, from, begin);
  }

  lemma NextNone(body: string, bt: string, et: string, from: nat)
    requires et != [] && FindAnyCase(body, bt, from) == None
    ensures NextChunk(body, bt, et, from) == None && Over(body, bt, et, from)
  {
    FoundNone(body, bt, from);
  }

  /** What the next chunk is. */
  ghost predicate NextIs(body: string, bt: string, et: string, from: nat, next: Option<(nat, nat)>, close: nat) {
    match next
    case None => Over(body, bt, et, from)
    case Some((begin, end)) => IsSpan(body, bt, et, from, Span(begin, close, end))
  }

  lemma NextIsSpan(body: string, bt: string, et: string, from: nat) returns (close: nat)
    requires et != [] && Upper(bt) == bt && Upper(et) == et
    ensures NextIs(body, bt, et, from, NextChunk(body, bt, et, from), close)
  {
    close := 0;
    var begin := FindAnyCase(body, bt, from);
    if begin.None? {
      NextNone(body, bt, et, from);
    } else {
      var end := FindAnyCase(body, et, begin.value);
      if end.None? {
        NextUnclosed(body, bt, et, from, begin.value);
      } else {
        close := end.value;
        NextFound(body, bt, et, from, begin.value, close);
      }
    }
  }

  lemma SpansCons(body: string, bt: string, et: string, from: nat, s: Span, rest: seq<Span>)
    requires IsSpan(body, bt, et, from, s) && Spans(body, bt, et, s.end, rest)
    ensures Spans(body, bt, et, from, [s] + rest)
    ensures CutsOut(body, [s] + rest) == [CutOut(body, s)] + CutsOut(body, rest)
  {
    assert ([s] + rest)[1..] == rest;
  }

  /** For every body the chunks are its slices from a first BEGIN to the first END after it, until none is left. */
  lemma {:induction false} ChunksAreSpans(body: string, bt: string, et: string, from: nat) returns (spans: seq<Span>)
    requires et != [] && Upper(bt) == bt && Upper(et) == et
    ensures Spans(body, bt, et, from, spans) && Chunks(body, bt, et, from) == CutsOut(body, spans)
    decreases |body| - from
  {
    var next := NextChunk(body, bt, et, from);
    var close := NextIsSpan(body, bt, et, from);
    ChunksNext(body, bt, et, from, next);
    if next.None? {
      spans := [];
    } else {
      var s := Span(next.value.0, close, next.value.1);
      var rest := ChunksAreSpans(body, bt, et, s.end);
      SpansCons(body, bt, et, from, s, rest);
      spans := [s] + rest;
    }
  }

  /** The slices are disjoint and in order. */
  lemma {:induction false} SpansApart(body: string, bt: string, et: string, from: nat, spans: seq<Span>)
    requires et != [] && Spans(body, bt, et, from, spans)
    ensures forall k :: 0 <= k < |spans| ==> from <= spans[k].begin < spans[k].end <= |body|
    ensures forall j, k :: 0 <= j < k < |spans| ==> spans[j].end <= spans[k].begin
    decreases |spans|
  {
    if spans != [] {
      SpansApart(body, bt, et, spans[0].end, spans[1..]);
      assert forall k :: 0 < k < |spans| ==> spans[k] == spans[1..][k - 1];
    }
  }

  // ----- what is left outside

  ghost predicate Inside(spans: seq<Span>, p: nat) {
    spans != [] && (spans[0].begin <= p < spans[0].end || Inside(spans[1..], p))
  }

  /** A BEGIN in any case that has an END after it. */
  ghost predicate Opens(body: string, bt: string, et: string, p: nat) {
    At(Upper(body), bt, p) && HasFrom(Upper(body), et, p)
  }

  ghost predicate HasFrom(hay: string, tag: string, from: nat) {
    exists k: nat :: from <= k && At(hay, tag, k)
  }

  ghost predicate NothingLeft(body: string, bt: string, et: string, from: nat, spans: seq<Span>) {
    forall p: nat :: from <= p && Opens(body, bt, et, p) ==> Inside(spans, p)
  }

  /** The first BEGIN in any case that has an END after it, and where its chunk would end. */
  function Candidate(body: string, bt: string, et: string, from: nat): (r: Option<(nat, nat)>)
    requires et != []
    ensures r.Some? ==> from <= r.value.0 < r.value.1 <= |body|
  {
    match Find(Upper(body), bt, from)
    case None => None
    case Some(p) =>
      match FindAnyCase(body, et, p)
      case None => None
      case Some(close) => Some((p, PastLineEnd(body, close + |et|)))
  }

  /** The tag at `p` is exact, or no exact one follows it. */
  predicate Alike(body: string, tag: string, p: nat) {
    At(body, tag, p) || Find(body, tag, p).None?
  }

  /** Wherever the search stands, the first BEGIN in any case is exact or no exact one follows it. */
  predicate BeginsAlike(body: string, bt: string, et: string, from: nat)
    requires et != []
    decreases |body| - from
  {
    match Candidate(body, bt, et, from)
    case None => true
    case Some((p, end)) => Alike(body, bt, p) && BeginsAlike(body, bt, et, end)
  }

  /** The first BEGIN in any case is where the search goes exactly when it is exact or no exact one follows. */
  lemma FirstAnyCase(body: string, bt: string, from: nat, p: nat)
    requires Upper(bt) == bt && from <= p && At(Upper(body), bt, p) && NoneIn(Upper(body), bt, from, p)
    ensures FirstTag(body, bt, from, p) <==> Alike(body, bt, p)
    ensures !FirstTag(body, bt, from, p) ==> forall i: nat :: FirstTag(body, bt, from, i) ==> p < i
  {
    forall k: nat | from <= k && At(body, bt, k) ensures p <= k {
      ExactIsAnyCase(body, bt, k);
    }
  }

  lemma {:induction false} NoneInsideBefore(body: string, bt: string, et: string, from: nat, spans: seq<Span>, p: nat)
    requires et != [] && Spans(body, bt, et, from, spans) && p < from
    ensures !Inside(spans, p)
    decreases |spans|
  {
    if spans != [] {
      NoneInsideBefore(body, bt, et, spans[0].end, spans[1..], p);
    }
  }

  /** Nothing opens: no span, and nothing to leave. */
  lemma NothingOpens(body: string, bt: string, et: string, from: nat, spans: seq<Span>)
    requires Spans(body, bt, et, from, spans) && forall p: nat :: from <= p ==> !Opens(body, bt, et, p)
    ensures NothingLeft(body, bt, et, from, spans)
  {
  }

  /** The first BEGIN starts the first span: what is left is left after that span. */
  lemma LeftAfterFirst(body: string, bt: string, et: string, from: nat, spans: seq<Span>)
    requires et != [] && spans != [] && Spans(body, bt, et, from, spans)
    requires NoneIn(Upper(body), bt, from, spans[0].begin)
    ensures NothingLeft(body, bt, et, from, spans) <==> NothingLeft(body, bt, et, spans[0].end, spans[1..])
  {
    var s, rest := spans[0], spans[1..];
    if NothingLeft(body, bt, et, from, spans) {
      forall p: nat | s.end <= p && Opens(body, bt, et, p) ensures Inside(rest, p) {
        assert Inside(spans, p);
      }
    }
    if NothingLeft(body, bt, et, s.end, rest) {
      forall p: nat | from <= p && Opens(body, bt, et, p) ensures Inside(spans, p) {
        assert p >= s.end ==> Inside(rest, p);
      }
    }
  }

  /** A BEGIN before all that the search would go to is left. */
  lemma LeftFirst(body: string, bt: string, et: string, from: nat, spans: seq<Span>, p: nat)
    requires et != [] && Spans(body, bt, et, from, spans) && from <= p && Opens(body, bt, et, p)
    requires forall i: nat :: FirstTag(body, bt, from, i) ==> p < i
    ensures !NothingLeft(body, bt, et, from, spans)
  {
    if spans != [] {
      NoneInsideBefore(body, bt, et, spans[0].end, spans[1..], p);
    }
    assert !Inside(spans, p);
  }

  lemma NotOver(body: string, bt: string, et: string, from: nat, p: nat, close: nat)
    requires FirstTag(body, bt, from, p) && FirstTag(body, et, p, close)
    ensures !Over(body, bt, et, from)
  {
    assert p <= close && At(Upper(body), et, close);
  }

  lemma SpanOnce(body: string, bt: string, et: string, from: nat, s: Span, p: nat, close: nat)
    requires IsSpan(body, bt, et, from, s) && FirstTag(body, bt, from, p) && FirstTag(body, et, p, close)
    ensures close + |et| <= |body| && s == Span(p, close, PastLineEnd(body, close + |et|))
  {
    FirstTagOnce(body, bt, from, p, s.begin);
    FirstTagOnce(body, et, p, close, s.close);
  }

  /** The span that the search goes to is the first one. */
  lemma SpanIs(body: string, bt: string, et: string, from: nat, spans: seq<Span>, p: nat, close: nat)
    requires Spans(body, bt, et, from, spans) && FirstTag(body, bt, from, p) && FirstTag(body, et, p, close)
    requires close + |et| <= |body|
    ensures spans != [] && spans[0] == Span(p, close, PastLineEnd(body, close + |et|))
  {
    NotOver(body, bt, et, from, p, close);
    SpanOnce(body, bt, et, from, spans[0], p, close);
  }

  lemma NoCandidate(body: string, bt: string, et: string, from: nat)
    requires et != [] && Candidate(body, bt, et, from) == None
    ensures forall k: nat :: from <= k ==> !Opens(body, bt, et, k)
  {
    var p := Find(Upper(body), bt, from);
    if p.Some? {
      FoundNone(body, et, p.value);
    }
  }

  lemma CandidateFound(body: string, bt: string, et: string, from: nat, p: nat, end: nat) returns (close: nat)
    requires et != [] && Candidate(body, bt, et, from) == Some((p, end))
    ensures Find(Upper(body), bt, from) == Some(p) && FindAnyCase(body, et, p) == Some(close)
    ensures close + |et| <= |body| && end == PastLineEnd(body, close + |et|)
  {
    close := FindAnyCase(body, et, p).value;
  }

  lemma CandidateOpens(body: string, bt: string, et: string, from: nat, p: nat, end: nat) returns (close: nat)
    requires et != [] && Upper(et) == et && Candidate(body, bt, et, from) == Some((p, end))
    ensures from <= p && NoneIn(Upper(body), bt, from, p) && Opens(body, bt, et, p)
    ensures close + |et| <= |body| && FirstTag(body, et, p, close) && end == PastLineEnd(body, close + |et|)
  {
    close := CandidateFound(body, bt, et, from, p, end);
    FoundFirst(body, et, p, close);
    FirstOpens(body, bt, et, p, close);
  }

  lemma FirstOpens(body: string, bt: string, et: string, p: nat, close: nat)
    requires At(Upper(body), bt, p) && FirstTag(body, et, p, close)
    ensures Opens(body, bt, et, p)
  {
    assert p <= close && At(Upper(body), et, close);
  }

  lemma AlikeSpan(body: string, bt: string, et: string, from: nat, spans: seq<Span>, p: nat, close: nat)
    requires et != [] && Upper(bt) == bt && Spans(body, bt, et, from, spans)
    requires from <= p && NoneIn(Upper(body), bt, from, p) && FirstTag(body, et, p, close) && At(Upper(body), bt, p)
    requires close + |et| <= |body| && Alike(body, bt, p)
    ensures spans != [] && spans[0].end == PastLineEnd(body, close + |et|)
    ensures NothingLeft(body, bt, et, from, spans) <==> NothingLeft(body, bt, et, spans[0].end, spans[1..])
  {
    FirstAnyCase(body, bt, from, p);
    SpanIs(body, bt, et, from, spans, p, close);
    LeftAfterFirst(body, bt, et, from, spans);
  }

  lemma UnlikeLeft(body: string, bt: string, et: string, from: nat, spans: seq<Span>, p: nat)
    requires et != [] && Upper(bt) == bt && Spans(body, bt, et, from, spans)
    requires from <= p && NoneIn(Upper(body), bt, from, p) && Opens(body, bt, et, p) && !Alike(body, bt, p)
    ensures !NothingLeft(body, bt, et, from, spans)
  {
    FirstAnyCase(body, bt, from, p);
    LeftFirst(body, bt, et, from, spans, p);
  }

  /**
   Every BEGIN that has an END after it lies in a chunk if and only if, wherever the search
   stands, the first BEGIN in any case is exact or no exact one follows it.
   */
  lemma {:induction false} NothingLeftIff(body: string, bt: string, et: string, from: nat, spans: seq<Span>)
    requires et != [] && Upper(bt) == bt && Upper(et) == et && Spans(body, bt, et, from, spans)
    ensures NothingLeft(body, bt, et, from, spans) <==> BeginsAlike(body, bt, et, from)
    decreases |spans|
  {
    var first := Candidate(body, bt, et, from);
    if first.None? {
      NoCandidate(body, bt, et, from);
      NothingOpens(body, bt, et, from, spans);
    } else {
      var (p, end) := first.value;
      var close := CandidateOpens(body, bt, et, from, p, end);
      if Alike(body, bt, p) {
        AlikeSpan(body, bt, et, from, spans, p, close);
        NothingLeftIff(body, bt, et, spans[0].end, spans[1..]);
      } else {
        UnlikeLeft(body, bt, et, from, spans, p);
      }
    }
  }

  // ----- documents of blocks

  /** The line shows the tag nowhere, in the case it is written in. */
  ghost predicate Lacks(line: string, tag: string) {
    forall i: nat :: !At(line, tag, i)
  }

  lemma ExactPrefix(a: string, b: string, tag: string, i: nat)
    requires i + |tag| <= |a|
    ensures At(a + b, tag, i) <==> At(a, tag, i)
  {
    assert (a + b)[i..i + |tag|] == a[i..i + |tag|];
  }

  lemma ExactSuffix(a: string, b: string, tag: string, k: nat)
    ensures At(a + b, tag, |a| + k) <==> At(b, tag, k)
  {
    if k + |tag| <= |b| {
      assert (a + b)[|a| + k..|a| + k + |tag|] == b[k..k + |tag|];
    }
  }

  lemma ExactLineEnd(a: string, b: string, tag: string, i: nat)
    requires OneLine(tag) && i < |a| + 2 && |a| < i + |tag| <= |a| + 2 + |b|
    ensures !At(a + (CRLF + b), tag, i)
  {
    var w := a + (CRLF + b);
    var k := if i <= |a| then |a| else |a| + 1;
    assert w[|a|] == '\r' && w[|a| + 1] == '\n';
    assert w[i..i + |tag|][k - i] == w[k];
  }

  /** Lines without the tag are passed over. */
  lemma {:induction false} SkipExact(lines: seq<string>, rest: string, tag: string, i: nat)
    requires OneLine(tag) && (forall l :: l in lines ==> Lacks(l, tag)) && i < |Render(lines)|
    ensures !At(Render(lines) + rest, tag, i)
  {
    if lines != [] {
      var line, later := lines[0], Render(lines[1..]) + rest;
      AppendAssoc(line + CRLF, Render(lines[1..]), rest);
      AppendAssoc(line, CRLF, later);
      assert Lacks(line, tag);
      if i + |tag| <= |line| {
        ExactPrefix(line, CRLF + later, tag, i);
      } else if i >= |line| + 2 {
        ExactSuffix(line + CRLF, later, tag, i - |line| - 2);
        SkipExact(lines[1..], rest, tag, i - |line| - 2);
      } else if i + |tag| <= |line| + 2 + |later| {
        ExactLineEnd(line, later, tag, i);
      }
    }
  }

  /** A block and the lines before it. */
  datatype Part = Part(before: seq<string>, inner: seq<string>)

  function BlockOf(part: Part, bt: string, et: string): string {
    Render([bt] + part.inner) + (et + CRLF)
  }

  function Document(parts: seq<Part>, tail: seq<string>, bt: string, et: string): string {
    if parts == [] then Render(tail)
    else Render(parts[0].before) + (BlockOf(parts[0], bt, et) + Document(parts[1..], tail, bt, et))
  }

  function BlocksOf(parts: seq<Part>, bt: string, et: string): seq<string> {
    if parts == [] then [] else [BlockOf(parts[0], bt, et)] + BlocksOf(parts[1..], bt, et)
  }

  /** No exact BEGIN before the block and no exact END inside it. */
  ghost predicate CleanPart(part: Part, bt: string, et: string) {
    && (forall l :: l in part.before ==> Lacks(l, bt))
    && (forall l :: l in part.inner ==> Lacks(l, et))
  }

  ghost predicate Tags(bt: string, et: string) {
    OneLine(bt) && OneLine(et) && Upper(bt) == bt && Upper(et) == et && Lacks(bt, et)
  }

  /** The first exact tag at or after `from` stands at `i`. */
  ghost predicate FirstExact(w: string, tag: string, from: nat, i: nat) {
    from <= i && At(w, tag, i) && NoneIn(w, tag, from, i)
  }

  lemma FoundExact(w: string, tag: string, from: nat, i: nat)
    requires FirstExact(w, tag, from, i)
    ensures FindAnyCase(w, tag, from) == Some(i)
  {
    FindIs(w, tag, from, i);
  }

  lemma NextByExact(w: string, bt: string, et: string, from: nat, begin: nat, close: nat)
    requires et != [] && FirstExact(w, bt, from, begin) && FirstExact(w, et, begin, close)
    ensures close + |et| <= |w| && NextChunk(w, bt, et, from) == Some((begin, PastLineEnd(w, close + |et|)))
  {
    FoundExact(w, bt, from, begin);
    FoundExact(w, et, begin, close);
    NextIsAt(w, bt, et, from, begin, close);
  }

  lemma NonePast(a: string, lines: seq<string>, later: string, tag: string)
    requires OneLine(tag) && forall l :: l in lines ==> Lacks(l, tag)
    ensures NoneIn(a + (Render(lines) + later), tag, |a|, |a| + |Render(lines)|)
  {
    forall j: nat | |a| <= j < |a| + |Render(lines)| ensures !At(a + (Render(lines) + later), tag, j) {
      ExactSuffix(a, Render(lines) + later, tag, j - |a|);
      SkipExact(lines, later, tag, j - |a|);
    }
  }

  lemma StandsNext(a: string, b: string, later: string, tag: string)
    requires At(later, tag, 0)
    ensures At(a + (b + later), tag, |a| + |b|)
  {
    ExactSuffix(b, later, tag, 0);
    ExactSuffix(a, b + later, tag, |b|);
  }

  /** Past lines that lack the tag it is found where the next text begins with it. */
  lemma FoundPast(a: string, lines: seq<string>, later: string, tag: string)
    requires OneLine(tag) && (forall l :: l in lines ==> Lacks(l, tag)) && At(later, tag, 0)
    ensures FirstExact(a + (Render(lines) + later), tag, |a|, |a| + |Render(lines)|)
  {
    NonePast(a, lines, later, tag);
    StandsNext(a, Render(lines), later, tag);
  }

  lemma LineEndPast(a: string, rest: string)
    ensures PastLineEnd(a + (CRLF + rest), |a|) == |a| + 2
  {
    var w := a + (CRLF + rest);
    assert w[|a|] == '\r' && w[|a| + 1] == '\n';
  }

  lemma BlockStarts(part: Part, rest: string, bt: string, et: string)
    ensures At(BlockOf(part, bt, et) + rest, bt, 0)
  {
    var w := BlockOf(part, bt, et) + rest;
    assert ([bt] + part.inner)[0] == bt;
    assert w[0..|bt|] == bt;
  }

  /** The text of a block and what follows it, cut before its END tag or before its last line end. */
  lemma Regrouped(a: string, open: string, et: string, rest: string)
    ensures a + ((open + (et + CRLF)) + rest) == a + (open + (et + (CRLF + rest)))
    ensures a + ((open + (et + CRLF)) + rest) == (a + open + et) + (CRLF + rest)
  {
  }

  lemma EndFound(w: string, a: string, part: Part, rest: string, bt: string, et: string, close: nat, end: nat)
    requires Tags(bt, et) && CleanPart(part, bt, et) && w == a + (BlockOf(part, bt, et) + rest)
    requires close == |a| + |Render([bt] + part.inner)| && end == |a| + |BlockOf(part, bt, et)|
    ensures FirstExact(w, et, |a|, close) && close + |et| <= |w| && PastLineEnd(w, close + |et|) == end
  {
    var open := Render([bt] + part.inner);
    Regrouped(a, open, et, rest);
    assert (et + (CRLF + rest))[0..|et|] == et;
    FoundPast(a, [bt] + part.inner, et + (CRLF + rest), et);
    LineEndPast(a + open + et, rest);
  }

  /** In `w` the part stands after `a`, its block from `h` to `end` with its END tag at `close`. */
  ghost predicate Lies(w: string, a: string, part: Part, rest: string, bt: string, et: string,
                       h: nat, close: nat, end: nat)
  {
    && w == a + (Render(part.before) + (BlockOf(part, bt, et) + rest))
    && w == (a + Render(part.before)) + (BlockOf(part, bt, et) + rest)
    && h == |a| + |Render(part.before)| && close == h + |Render([bt] + part.inner)|
    && end == h + |BlockOf(part, bt, et)|
  }

  lemma PartBegins(w: string, a: string, part: Part, rest: string, bt: string, et: string, h: nat, close: nat, end: nat)
    requires Tags(bt, et) && CleanPart(part, bt, et) && Lies(w, a, part, rest, bt, et, h, close, end)
    ensures FirstExact(w, bt, |a|, h)
  {
    BlockStarts(part, rest, bt, et);
    FoundPast(a, part.before, BlockOf(part, bt, et) + rest, bt);
  }

  lemma PartEnds(w: string, a: string, part: Part, rest: string, bt: string, et: string, h: nat, close: nat, end: nat)
    requires Tags(bt, et) && CleanPart(part, bt, et) && Lies(w, a, part, rest, bt, et, h, close, end)
    ensures FirstExact(w, et, h, close) && close + |et| <= |w| && PastLineEnd(w, close + |et|) == end
  {
    EndFound(w, a + Render(part.before), part, rest, bt, et, close, end);
  }

  lemma PartFound(w: string, a: string, part: Part, rest: string, bt: string, et: string, h: nat, close: nat, end: nat)
    requires Tags(bt, et) && CleanPart(part, bt, et) && Lies(w, a, part, rest, bt, et, h, close, end)
    ensures NextChunk(w, bt, et, |a|) == Some((h, end))
  {
    PartBegins(w, a, part, rest, bt, et, h, close, end);
    PartEnds(w, a, part, rest, bt, et, h, close, end);
    NextByExact(w, bt, et, |a|, h, close);
  }

  lemma PartText(w: string, a: string, before: string, block: string, rest: string)
    requires w == a + (before + (block + rest))
    ensures w == a + before + block + rest && w[|a| + |before|..|a| + |before| + |block|] == block
  {
    AppendAssoc(a, before, block + rest);
    MiddlePart(a + before, block, rest);
  }

  lemma TailOver(a: string, tail: seq<string>, bt: string, et: string)
    requires Tags(bt, et) && forall l :: l in tail ==> Free(l, bt)
    ensures NextChunk(a + Render(tail), bt, et, |a|) == None
  {
    var w := a + Render(tail);
    forall j: nat | |a| <= j ensures !At(Upper(w), bt, j) {
      AtSuffix(a, Render(tail), bt, j - |a|);
      if j - |a| < |Render(tail)| {
        SkipLines(tail, "", bt, j - |a|);
        assert Render(tail) + "" == Render(tail);
      }
    }
    if Find(w, bt, |a|).Some? {
      ExactIsAnyCase(w, bt, Find(w, bt, |a|).value);
    }
  }

  /** Blocks written between other lines are found again, all of them and in order. */
  lemma {:induction false} BlocksFound(a: string, parts: seq<Part>, tail: seq<string>, bt: string, et: string)
    requires Tags(bt, et) && (forall part :: part in parts ==> CleanPart(part, bt, et))
    requires forall l :: l in tail ==> Free(l, bt)
    ensures Chunks(a + Document(parts, tail, bt, et), bt, et, |a|) == BlocksOf(parts, bt, et)
    decreases |parts|
  {
    var w := a + Document(parts, tail, bt, et);
    if parts == [] {
      TailOver(a, tail, bt, et);
    } else {
      var before, block := Render(parts[0].before), BlockOf(parts[0], bt, et);
      var rest := Document(parts[1..], tail, bt, et);
      assert CleanPart(parts[0], bt, et);
      AppendAssoc(a, before, block + rest);
      var h := |a| + |before|;
      PartFound(w, a, parts[0], rest, bt, et, h, h + |Render([bt] + parts[0].inner)|, h + |block|);
      PartText(w, a, before, block, rest);
      ChunksNext(w, bt, et, |a|, NextChunk(w, bt, et, |a|));
      BlocksFound(a + before + block, parts[1..], tail, bt, et);
    }
  }

  // ----- time zones

  lemma FirstChars(line: string, tag: string, i: nat)
    requires At(line, tag, i) && tag != []
    ensures i + |tag| <= |line| && line[i] == tag[0] && (|tag| >= 2 ==> line[i + 1] == tag[1])
  {
    TagChars(line, tag, i);
    assert line[i] == tag[i - i] && (|tag| >= 2 ==> line[i + 1] == tag[i + 1 - i]);
  }

  /** A tag that begins with a character the line does not show early enough is not in it. */
  lemma LacksByFirst(line: string, tag: string)
    requires tag != [] && forall i :: 0 <= i && i + |tag| <= |line| ==> line[i] != tag[0]
    ensures Lacks(line, tag)
  {
    forall i: nat ensures !At(line, tag, i) {
      if At(line, tag, i) {
        FirstChars(line, tag, i);
      }
    }
  }

  lemma ZoneTagsApart()
    ensures Lacks(ZONE_BEGIN, ZONE_END)
  {
    forall i: nat ensures !At(ZONE_BEGIN, ZONE_END, i) {
      if At(ZONE_BEGIN, ZONE_END, i) {
        FirstChars(ZONE_BEGIN, ZONE_END, i);
      }
    }
  }

  lemma ZoneTags()
    ensures Tags(ZONE_BEGIN, ZONE_END)
  {
    ZoneTagsApart();
  }

  /** For every body: where its zones are found, and exactly when none is left outside. */
  lemma ZonesAreSpans(body: string) returns (spans: seq<Span>)
    ensures Spans(body, ZONE_BEGIN, ZONE_END, 0, spans) && ZoneChunks(body) == CutsOut(body, spans)
    ensures forall k :: 0 <= k < |spans| ==> spans[k].begin < spans[k].end <= |body|
    ensures forall j, k :: 0 <= j < k < |spans| ==> spans[j].end <= spans[k].begin
    ensures NothingLeft(body, ZONE_BEGIN, ZONE_END, 0, spans) <==> BeginsAlike(body, ZONE_BEGIN, ZONE_END, 0)
  {
    ZoneTags();
    spans := ChunksAreSpans(body, ZONE_BEGIN, ZONE_END, 0);
    SpansApart(body, ZONE_BEGIN, ZONE_END, 0, spans);
    NothingLeftIff(body, ZONE_BEGIN, ZONE_END, 0, spans);
  }

  /** Zones written between other lines are found again, all of them and in order. */
  lemma ZonesFound(parts: seq<Part>, tail: seq<string>)
    requires forall part :: part in parts ==> CleanPart(part, ZONE_BEGIN, ZONE_END)
    requires forall l :: l in tail ==> Free(l, ZONE_BEGIN)
    ensures ZoneChunks(Document(parts, tail, ZONE_BEGIN, ZONE_END)) == BlocksOf(parts, ZONE_BEGIN, ZONE_END)
  {
    ZoneTags();
    BlocksFound("", parts, tail, ZONE_BEGIN, ZONE_END);
    assert "" + Document(parts, tail, ZONE_BEGIN, ZONE_END) == Document(parts, tail, ZONE_BEGIN, ZONE_END);
  }

  /** A zone in another case before an exact one is passed over. */
  lemma LowerCaseLost(lower: seq<string>, inner: seq<string>)
    requires (forall l :: l in lower ==> Lacks(l, ZONE_BEGIN)) && forall l :: l in inner ==> Lacks(l, ZONE_END)
    ensures var before := ["begin:vtimezone"] + lower + ["end:vtimezone"];
            var zone := Part(before, inner);
            ZoneChunks(Document([zone], [], ZONE_BEGIN, ZONE_END)) == [BlockOf(zone, ZONE_BEGIN, ZONE_END)]
  {
    var zone := Part(["begin:vtimezone"] + lower + ["end:vtimezone"], inner);
    LacksByFirst("begin:vtimezone", ZONE_BEGIN);
    LacksByFirst("end:vtimezone", ZONE_BEGIN);
    ZonesFound([zone], []);
    assert [zone][1..] == [];
    assert BlocksOf([zone], ZONE_BEGIN, ZONE_END) ==
           [BlockOf(zone, ZONE_BEGIN, ZONE_END)] + BlocksOf([], ZONE_BEGIN, ZONE_END);
  }

  // ----- what a zone is told apart by

  ghost predicate Bare(v: string) {
    v != "" && !IsWhitespace(v[0]) && !IsWhitespace(v[|v| - 1])
  }

  lemma {:induction false} EndTrimmed(v: string, pad: string)
    requires Blank(pad) && v != "" && !IsWhitespace(v[|v| - 1])
    ensures TrimEnd(v + pad) == v
    decreases |pad|
  {
    if pad == "" {
      assert v + pad == v;
    } else {
      var n := |pad| - 1;
      EndTrimmed(v, pad[..n]);
      assert (v + pad)[..|v| + n] == v + pad[..n];
    }
  }

  lemma CleanedTwice(line: string)
    ensures TrimEndCr(TrimEndCr(line)) == TrimEndCr(line)
  {
  }

  lemma {:induction false} TzidCleaned(raw: seq<string>)
    ensures Tzid(Cleaned(raw)) == Tzid(raw)
  {
    if raw != [] {
      CleanedTwice(raw[0]);
      TzidCleaned(raw[1..]);
      assert Cleaned(raw)[1..] == Cleaned(raw[1..]);
    }
  }

  lemma {:induction false} TzidPast(head: seq<string>, rest: seq<string>)
    requires forall l :: l in head ==> Clean(l) && !StartsWith(Upper(l), "TZID:")
    ensures Tzid(head + rest) == Tzid(rest)
  {
    if head == [] {
      assert head + rest == rest;
    } else {
      assert head[0] in head;
      TailAppend(head, rest);
      TzidPast(head[1..], rest);
    }
  }

  lemma Trimmed(pad: string, v: string, pad': string)
    requires Blank(pad) && Bare(v) && Blank(pad')
    ensures TrimEnd(TrimStart(pad + (v + pad'))) == v
  {
    StartTrimmed(pad, v + pad');
    EndTrimmed(v, pad');
  }

  lemma TzidFirst(line: string, v: string, rest: seq<string>)
    requires Clean(line) && StartsWith(Upper(line), "TZID:") && v != "" && TrimEnd(TrimStart(line[5..])) == v
    ensures Tzid([line] + rest) == Some(v)
  {
  }

  lemma NamePrefix(name: string, value: string)
    requires Upper(name) == "TZID:"
    ensures StartsWith(Upper(name + value), "TZID:") && (name + value)[5..] == value
  {
    assert Upper(name + value)[..5] == Upper(name);
  }

  lemma TzidRead(name: string, pad: string, v: string, pad': string, rest: seq<string>)
    requires Upper(name) == "TZID:" && Blank(pad) && Bare(v) && Blank(pad') && Clean(name + (pad + (v + pad')))
    ensures Tzid([name + (pad + (v + pad'))] + rest) == Some(v)
  {
    NamePrefix(name, pad + (v + pad'));
    Trimmed(pad, v, pad');
    TzidFirst(name + (pad + (v + pad')), v, rest);
  }

  /** A zone is told apart by the value of its first TZID line, without the spaces around it. */
  lemma KeyIsTzid(head: seq<string>, name: string, pad: string, v: string, pad': string, rest: seq<string>)
    requires forall l :: l in head ==> Clean(l) && !StartsWith(Upper(l), "TZID:")
    requires forall l :: l in rest ==> Clean(l)
    requires Upper(name) == "TZID:" && Blank(pad) && Bare(v) && Blank(pad') && Clean(name + (pad + (v + pad')))
    ensures ZoneKey(Render(head + ([name + (pad + (v + pad'))] + rest))) == v
  {
    var line := name + (pad + (v + pad'));
    var lines := head + ([line] + rest);
    ReadBack(lines);
    TzidCleaned(Lines(Render(lines)));
    AppendAssoc(head, [line] + rest, [""]);
    AppendAssoc([line], rest, [""]);
    TzidPast(head, [line] + (rest + [""]));
    TzidRead(name, pad, v, pad', rest + [""]);
  }

  /** Without a TZID line it is told apart by its whole text. */
  lemma KeyIsText(lines: seq<string>)
    requires forall l :: l in lines ==> Clean(l) && !StartsWith(Upper(l), "TZID:")
    ensures ZoneKey(Render(lines)) == Render(lines)
  {
    ReadBack(lines);
    TzidCleaned(Lines(Render(lines)));
    TzidPast(lines, [""]);
    assert [""][1..] == [];
    assert Tzid([""]) == Tzid([]);
  }

  // ----- the event of a row

  /** A row whose block stands between quiet lines, time zones included, is exported as that block. */
  lemma EventIsBlock(e: Event, head: seq<string>, lines: seq<string>, foot: seq<string>)
    requires lines != [] && Quiet(head, foot) && e.icalData == Framed(head, lines, foot)
    requires OpensAtOnce(true, Render(lines)) && ClosesOnce(true, Render(lines))
    ensures EventText(e) == Render(lines)
  {
    ShippedFramedIff(head, lines, foot);
    var text := BlockText(lines);
    assert (text + CRLF)[|text| + 1] == '\n';
  }
}
