/**
 Storage paths kept as one joined string, against the list of segments they stand for.
 */
module StoragePath {
  import opened Wrappers
  import opened Sequences
  import opened Strings

  // ----- text cut at slashes

  predicate NoSlash(s: string) {
    '/' !in s
  }

  /** The pieces between slashes: at least one, the empty ones included. */
  function Split(s: string): (r: seq<string>)
    ensures |r| > 0
  {
    if s == [] then [""]
    else
      var rest := Split(s[1..]);
      if s[0] == '/' then [""] + rest else [[s[0]] + rest[0]] + rest[1..]
  }

  lemma {:induction false} SplitPieces(s: string)
    ensures forall seg :: seg in Split(s) ==> NoSlash(seg)
  {
    if s != [] {
      SplitPieces(s[1..]);
      assert Split(s[1..])[0] in Split(s[1..]);
    }
  }

  /** Text without slashes goes into the first piece. */
  lemma {:induction false} SplitFront(a: string, b: string)
    requires NoSlash(a)
    ensures Split(a + b) == [a + Split(b)[0]] + Split(b)[1..]
  {
    if a == [] {
      assert a + b == b && a + Split(b)[0] == Split(b)[0];
    } else {
      SplitFront(a[1..], b);
      TailAppend(a, b);
      var r := Split(a[1..] + b);
      assert r[1..] == Split(b)[1..];
      AppendAssoc([a[0]], a[1..], Split(b)[0]);
      assert a == [a[0]] + a[1..];
    }
  }

  lemma SplitSlash(b: string)
    ensures Split("/" + b) == [""] + Split(b)
  {
    assert ("/" + b)[1..] == b;
  }

  lemma Prepend(x: char, r: seq<string>, t: seq<string>)
    requires r != []
    ensures [[x] + (r + t)[0]] + (r + t)[1..] == [[x] + r[0]] + r[1..] + t
  {
  }

  lemma {:induction false} SplitAround(a: string, b: string)
    ensures Split(a + ("/" + b)) == Split(a) + Split(b)
  {
    if a == [] {
      assert a + ("/" + b) == "/" + b;
      SplitSlash(b);
    } else {
      TailAppend(a, "/" + b);
      SplitAround(a[1..], b);
      if a[0] == '/' {
        AppendAssoc([""], Split(a[1..]), Split(b));
      } else {
        Prepend(a[0], Split(a[1..]), Split(b));
      }
    }
  }

  /** Joining with a slash joins the pieces. */
  lemma SplitJoin(a: string, b: string)
    ensures Split(a + "/" + b) == Split(a) + Split(b)
  {
    AppendAssoc(a, "/", b);
    SplitAround(a, b);
  }

  // ----- lists of segments

  predicate IsSafe(seg: string) {
    seg != "" && seg != "." && seg != ".." && NoSlash(seg)
  }

  ghost predicate AllSafe(segs: seq<string>) {
    forall seg :: seg in segs ==> IsSafe(seg)
  }

  function Joined(segs: seq<string>): string {
    if segs == [] then "" else "/" + segs[0] + Joined(segs[1..])
  }

  /** The path of a list of segments. */
  function Display(segs: seq<string>): string {
    if segs == [] then "/" else Joined(segs)
  }

  lemma {:induction false} JoinedAppend(a: seq<string>, b: seq<string>)
    ensures Joined(a + b) == Joined(a) + Joined(b)
  {
    if a == [] {
      assert a + b == b;
    } else {
      JoinedAppend(a[1..], b);
      TailAppend(a, b);
      AppendAssoc("/" + a[0], Joined(a[1..]), Joined(b));
    }
  }

  lemma {:induction false} SplitJoined(segs: seq<string>)
    requires forall seg :: seg in segs ==> NoSlash(seg)
    ensures Split(Joined(segs)) == [""] + segs
  {
    if segs != [] {
      SplitJoined(segs[1..]);
      SplitFront(segs[0], Joined(segs[1..]));
      assert segs[0] + "" == segs[0];
      assert ([""] + segs[1..])[1..] == segs[1..];
      assert segs == [segs[0]] + segs[1..];
      SplitSlash(segs[0] + Joined(segs[1..]));
      AppendAssoc("/", segs[0], Joined(segs[1..]));
    }
  }

  // ----- the joined form

  /** Builds the joined form in one pass, dropping unsafe segments. */
  method Build(raw: seq<string>) returns (joined: string)
    ensures joined == Display(Filter(IsSafe, raw)) && NoTraversal(joined)
  {
    BuiltNoTraversal(raw);
    joined := "";
    for i := 0 to |raw|
      invariant joined == Joined(Filter(IsSafe, raw[..i]))
    {
      BuildStep(raw, i);
      if IsSafe(raw[i]) {
        joined := joined + ("/" + raw[i]);
      } else {
        assert joined + "" == joined;
      }
    }
    assert raw[..|raw|] == raw;
    JoinedEmpty(Filter(IsSafe, raw));
    if joined == "" {
      joined := "/";
    }
  }

  lemma JoinedEmpty(segs: seq<string>)
    ensures Joined(segs) == "" <==> segs == []
  {
  }

  lemma BuildStep(raw: seq<string>, i: nat)
    requires i < |raw|
    ensures Joined(Filter(IsSafe, raw[..i + 1])) ==
            Joined(Filter(IsSafe, raw[..i])) + if IsSafe(raw[i]) then "/" + raw[i] else ""
  {
    SliceSnoc(raw, i);
    FilterAppend(IsSafe, raw[..i], [raw[i]]);
    assert [raw[i]][1..] == [];
    JoinedAppend(Filter(IsSafe, raw[..i]), Filter(IsSafe, [raw[i]]));
    if IsSafe(raw[i]) {
      assert Joined([raw[i]]) == "/" + raw[i] + Joined([]);
    }
  }

  /** The path a text names. */
  function FromString(path: string): string {
    Display(Filter(IsSafe, Split(path)))
  }

  /** Built from a folder's path and a name, or from the two joined by a slash. */
  method FromFolderAndName(folder: Option<string>, name: string) returns (joined: string)
    ensures joined == FromString((if folder.Some? then folder.value else "") + "/" + name)
  {
    var fp := if folder.Some? then folder.value else "";
    joined := Build(Split(fp) + Split(name));
    SplitJoin(fp, name);
  }

  /** The segments of a joined path. */
  function Segments(joined: string): seq<string> {
    Filter(NonEmpty, Split(if joined == "/" || joined == "" then "" else joined[1..]))
  }

  predicate NonEmpty(s: string) {
    s != ""
  }

  lemma SplitDisplay(segs: seq<string>)
    requires AllSafe(segs)
    ensures Split(Display(segs)) == if segs == [] then ["", ""] else [""] + segs
    ensures segs != [] ==> Display(segs) != "/" && Display(segs) != "" && Split(Display(segs)[1..]) == segs
  {
    SplitJoined(segs);
    if segs == [] {
      assert "/" == "/" + "";
      SplitSlash("");
    } else {
      var rest := segs[0] + Joined(segs[1..]);
      AppendAssoc("/", segs[0], Joined(segs[1..]));
      assert ("/" + rest)[1..] == rest;
      SplitSlash(rest);
      assert Split(rest) == ([""] + Split(rest))[1..] == ([""] + segs)[1..] == segs;
      assert segs[0] in segs;
    }
  }

  /** The segments come back out of the joined form. */
  lemma SegmentsOfDisplay(segs: seq<string>)
    requires AllSafe(segs)
    ensures Segments(Display(segs)) == segs
  {
    SplitDisplay(segs);
    if segs == [] {
      assert [""][1..] == [];
    } else {
      FilterAll(NonEmpty, segs);
    }
  }

  /** Rebuilding a joined path changes nothing. */
  lemma FromDisplay(segs: seq<string>)
    requires AllSafe(segs)
    ensures FromString(Display(segs)) == Display(segs)
  {
    SplitDisplay(segs);
    FilterAppend(IsSafe, [""], if segs == [] then [""] else segs);
    assert [""][1..] == [];
    assert [""] + [""] == ["", ""];
    FilterAll(IsSafe, segs);
  }

  /** Whatever the text, the path it names has only safe segments and is stable. */
  lemma FromStringSafe(path: string)
    ensures AllSafe(Segments(FromString(path))) && FromString(FromString(path)) == FromString(path)
    ensures Segments(FromString(path)) == Filter(IsSafe, Split(path))
  {
    var segs := Filter(IsSafe, Split(path));
    SegmentsOfDisplay(segs);
    FromDisplay(segs);
  }

  /** A path without empty, single-dot or double-dot pieces. */
  ghost predicate NoTraversal(path: string) {
    || path == "/"
    || (path != "" && path[0] == '/'
        && "" !in Split(path[1..]) && "." !in Split(path[1..]) && ".." !in Split(path[1..]))
  }

  /** Whatever the segments, none of the pieces of the built path leads elsewhere, and all others are kept in order. */
  lemma BuiltNoTraversal(raw: seq<string>)
    ensures NoTraversal(Display(Filter(IsSafe, raw)))
    ensures var kept := Filter((seg: string) => seg != "" && seg != "." && seg != ".." && '/' !in seg, raw);
            Split(Display(Filter(IsSafe, raw))) == if kept == [] then ["", ""] else [""] + kept
  {
    FilterAgree(IsSafe, (seg: string) => seg != "" && seg != "." && seg != ".." && '/' !in seg, raw);
    SplitDisplay(Filter(IsSafe, raw));
    if Filter(IsSafe, raw) != [] {
      LastOfJoined(Filter(IsSafe, raw));
    }
  }

  // ----- adopting a path as it is

  predicate IsCanonical(path: string) {
    path == "/"
    || (StartsWith(path, "/") && !EndsWith(path, "/") && forall seg :: seg in Split(path[1..]) ==> IsSafe(seg))
  }

  lemma {:induction false} JoinedSplit(s: string)
    ensures Joined(Split(s)) == "/" + s
  {
    if s == [] {
      assert [""][1..] == [];
      assert Joined([""]) == "/" + "" + Joined([]);
    } else {
      JoinedSplit(s[1..]);
      var r := Split(s[1..]);
      assert r == [r[0]] + r[1..];
      assert s == [s[0]] + s[1..];
      if s[0] == '/' {
        assert ([""] + r)[1..] == r;
      } else {
        var first := [s[0]] + r[0];
        assert ([first] + r[1..])[1..] == r[1..];
        assert "/" + r[0] + Joined(r[1..]) == "/" + s[1..];
        assert (r[0] + Joined(r[1..])) == ("/" + r[0] + Joined(r[1..]))[1..] == s[1..];
        AppendAssoc([s[0]], r[0], Joined(r[1..]));
        AppendAssoc("/", first, Joined(r[1..]));
      }
    }
  }

  /** The check accepts exactly the paths that rebuilding would leave alone. */
  lemma CanonicalIff(path: string)
    ensures IsCanonical(path) <==> FromString(path) == path
  {
    if IsCanonical(path) && path != "/" {
      var segs := Split(path[1..]);
      JoinedSplit(path[1..]);
      assert path == "/" + path[1..];
      FromDisplay(segs);
    } else if path == "/" {
      FromDisplay([]);
    } else if FromString(path) == path {
      var segs := Filter(IsSafe, Split(path));
      SplitDisplay(segs);
      LastOfJoined(segs);
    }
  }

  lemma {:induction false} LastOfJoined(segs: seq<string>)
    requires AllSafe(segs) && segs != []
    ensures Joined(segs) != "" && Joined(segs)[0] == '/' && !EndsWith(Joined(segs), "/")
  {
    assert segs[0] in segs;
    var head := "/" + segs[0];
    if |segs| == 1 {
      assert Joined(segs) == head + Joined([]) == head;
      assert head[|head| - 1] in segs[0];
    } else {
      LastOfJoined(segs[1..]);
      var tail := Joined(segs[1..]);
      assert (head + tail)[|head + tail| - 1] == tail[|tail| - 1];
      assert tail[|tail| - 1..] != "/";
    }
  }

  /** A canonical path is adopted; any other is rebuilt.  Either way it is the path the text names. */
  method FromJoined(path: string) returns (joined: string)
    ensures joined == FromString(path)
  {
    CanonicalIff(path);
    if IsCanonical(path) {
      return path;
    }
    joined := Build(Split(path));
  }

  // ----- moving about

  /** Canonical paths are exactly the paths of safe segments. */
  lemma CanonicalDisplay(path: string)
    requires IsCanonical(path)
    ensures AllSafe(Segments(path)) && path == Display(Segments(path))
  {
    CanonicalIff(path);
    FromStringSafe(path);
  }

  lemma DisplayCanonical(segs: seq<string>)
    requires AllSafe(segs)
    ensures IsCanonical(Display(segs)) && Segments(Display(segs)) == segs
  {
    FromDisplay(segs);
    CanonicalIff(Display(segs));
    SegmentsOfDisplay(segs);
  }

  /** Appends a segment to a path; an unsafe one is ignored. */
  method Join(joined: string, seg: string) returns (joined': string)
    requires IsCanonical(joined)
    ensures IsCanonical(joined')
    ensures Segments(joined') == if IsSafe(seg) then Segments(joined) + [seg] else Segments(joined)
  {
    ghost var segs := Segments(joined);
    CanonicalDisplay(joined);
    joined' := joined;
    if IsSafe(seg) {
      SplitDisplay(segs);
      if joined' == "/" {
        joined' := "";
      }
      joined' := joined' + ("/" + seg);
      JoinedAppend(segs, [seg]);
      assert Joined([seg]) == "/" + seg + Joined([]) == "/" + seg;
      DisplayCanonical(segs + [seg]);
    }
  }

  function Last(segs: seq<string>): Option<string> {
    if segs == [] then None else Some(segs[|segs| - 1])
  }

  /** The text after the last slash. */
  method FileName(joined: string) returns (name: Option<string>)
    requires IsCanonical(joined)
    ensures name == Last(Segments(joined))
  {
    ghost var segs := Segments(joined);
    CanonicalDisplay(joined);
    SplitDisplay(segs);
    if joined == "/" {
      return None;
    }
    var pieces := Split(joined);
    return Some(pieces[|pieces| - 1]);
  }

  lemma SlashesIn(front: string, seg: string)
    requires NoSlash(seg)
    ensures FindLast(front + "/" + seg, "/") == Some(|front|)
  {
    var path := front + "/" + seg;
    forall j: nat | |front| < j ensures !At(path, "/", j) {
      if j < |path| {
        assert path[j] == seg[j - |front| - 1];
        assert path[j] in seg;
        assert path[j..j + 1][0] == path[j];
      }
    }
    assert At(path, "/", |front|);
    FindLastIs(path, "/", |front|);
  }

  /** Everything before the last slash. */
  method Parent(joined: string) returns (parent: Option<string>)
    requires IsCanonical(joined)
    ensures parent.None? <==> Segments(joined) == []
    ensures parent.Some? ==>
              IsCanonical(parent.value) && Segments(parent.value) == Segments(joined)[..|Segments(joined)| - 1]
  {
    ghost var segs := Segments(joined);
    CanonicalDisplay(joined);
    SplitDisplay(segs);
    if joined == "/" {
      return None;
    }
    LastSlash(segs);
    var cut := FindLast(joined, "/").value;
    return Some(if cut == 0 then "/" else joined[..cut]);
  }

  /** The last slash of a path stands before its last segment. */
  lemma LastSlash(segs: seq<string>)
    requires AllSafe(segs) && segs != []
    ensures var front := segs[..|segs| - 1];
            && FindLast(Display(segs), "/") == Some(|Joined(front)|)
            && |Joined(front)| <= |Display(segs)| && Display(segs)[..|Joined(front)|] == Joined(front)
            && (Joined(front) == "" <==> front == [])
            && IsCanonical(Display(front)) && Segments(Display(front)) == front
  {
    var front, last := segs[..|segs| - 1], segs[|segs| - 1];
    assert segs == front + [last] && last in segs;
    DisplayCanonical(front);
    JoinedAppend(front, [last]);
    assert Joined([last]) == "/" + last + Joined([]) == "/" + last;
    AppendAssoc(Joined(front), "/", last);
    SlashesIn(Joined(front), last);
  }
}
