/** The bare tag inside the output of `git describe`. */
module DescribeSuffix {
  import opened Wrappers
  import opened Strings

  const DIRTY := "-dirty"

  predicate IsDigit(c: char) {
    '0' <= c <= '9'
  }

  predicate IsHex(c: char) {
    IsDigit(c) || 'a' <= c <= 'f' || 'A' <= c <= 'F'
  }

  predicate Digits(s: string) {
    s != "" && forall i :: 0 <= i < |s| ==> IsDigit(s[i])
  }

  predicate Hex(s: string) {
    s != "" && forall i :: 0 <= i < |s| ==> IsHex(s[i])
  }

  function Peel(v: string): string {
    if EndsWith(v, DIRTY) then v[..|v| - |DIRTY|] else v
  }

  function StripSuffix(v: string): string {
    var peeled := Peel(v);
    var g := FindLast(peeled, "-g");
    if g.None? || !Hex(peeled[g.value + 2..]) then peeled else
    var left := peeled[..g.value];
    var dash := FindLast(left, "-");
    if dash.None? || !Digits(left[dash.value + 1..]) then peeled else left[..dash.value]
  }

  /** The leading `v` of a tag goes first. */
  function BareTag(version: string): string {
    StripSuffix(if StartsWith(version, "v") then version[1..] else version)
  }

  // ----- the shape of a description

  /** `p` is a tag, a count of commits past it, and an abbreviated hash. */
  predicate Described(p: string, tag: string, ahead: string, hash: string) {
    Digits(ahead) && Hex(hash) && p == tag + "-" + ahead + "-g" + hash
  }

  ghost predicate IsDescription(p: string) {
    exists tag, ahead, hash :: Described(p, tag, ahead, hash)
  }

  /** Nothing after a separator looks like it. */
  lemma LastAt(front: string, mark: string, rest: string)
    requires mark != "" && mark[0] == '-' && '-' !in mark[1..] && '-' !in rest
    ensures FindLast(front + mark + rest, mark) == Some(|front|)
  {
    var s := front + mark + rest;
    assert s[|front|..|front| + |mark|] == mark;
    forall j: nat | |front| < j ensures !At(s, mark, j) {
      if j < |s| {
        assert s[j] == (mark + rest)[j - |front|];
        assert s[j] in mark[1..] || s[j] in rest;
        assert j + |mark| <= |s| ==> s[j..j + |mark|][0] == s[j];
      }
    }
    FindLastIs(s, mark, |front|);
  }

  /** A description is cut at its tag. */
  lemma CutAt(p: string, tag: string, ahead: string, hash: string)
    requires Described(p, tag, ahead, hash) && Peel(p) == p
    ensures StripSuffix(p) == tag
  {
    var left := tag + "-" + ahead;
    assert p == left + "-g" + hash;
    LastAt(left, "-g", hash);
    assert p[|left| + 2..] == hash && p[..|left|] == left;
    LastAt(tag, "-", ahead);
    assert left[|tag| + 1..] == ahead && left[..|tag|] == tag;
  }

  lemma NotDirty(p: string, tag: string, ahead: string, hash: string)
    requires Described(p, tag, ahead, hash)
    ensures !EndsWith(p, DIRTY)
  {
    assert p[|p| - 1] == hash[|hash| - 1];
    assert |DIRTY| <= |p| ==> p[|p| - |DIRTY|..][|DIRTY| - 1] == p[|p| - 1];
  }

  /** Of `tag-N-gHASH` and of `tag-N-gHASH-dirty` exactly the tag is left. */
  lemma DescribedStripped(tag: string, ahead: string, hash: string)
    requires Digits(ahead) && Hex(hash)
    ensures var p := tag + "-" + ahead + "-g" + hash; StripSuffix(p) == tag && StripSuffix(p + DIRTY) == tag
  {
    var p := tag + "-" + ahead + "-g" + hash;
    assert Described(p, tag, ahead, hash);
    NotDirty(p, tag, ahead, hash);
    CutAt(p, tag, ahead, hash);
    assert (p + DIRTY)[|p|..] == DIRTY && (p + DIRTY)[..|p|] == p;
  }

  /** When something is cut beyond `-dirty`, it was a description. */
  lemma CutWasDescription(v: string)
    requires StripSuffix(v) != Peel(v)
    ensures IsDescription(Peel(v))
  {
    var p := Peel(v);
    var g := FindLast(p, "-g").value;
    var left, hash := p[..g], p[g + 2..];
    var dash := FindLast(left, "-").value;
    var tag, ahead := left[..dash], left[dash + 1..];
    assert p == left + "-g" + hash;
    assert left == tag + "-" + ahead;
    assert Described(p, tag, ahead, hash);
  }

  /** The result is a prefix, and the whole input exactly when there is nothing to cut. */
  lemma UnchangedIff(v: string)
    ensures StripSuffix(v) <= v
    ensures StripSuffix(v) == v <==> !EndsWith(v, DIRTY) && !IsDescription(v)
  {
    if StripSuffix(v) != Peel(v) {
      CutWasDescription(v);
    }
    if !EndsWith(v, DIRTY) && IsDescription(v) {
      var tag, ahead, hash :| Described(v, tag, ahead, hash);
      CutAt(v, tag, ahead, hash);
      assert |tag| < |v|;
    }
  }

  /** One `-dirty` never matters, so `unknown-dirty` becomes `unknown`. */
  lemma DirtyPeeled(v: string)
    requires !EndsWith(v, DIRTY)
    ensures StripSuffix(v + DIRTY) == StripSuffix(v)
  {
    assert (v + DIRTY)[|v|..] == DIRTY && (v + DIRTY)[..|v|] == v;
  }

  /** Of a described tag that begins with `v`, dirty or not, the bare tag is left. */
  lemma BareTagOf(tag: string, ahead: string, hash: string, p: string)
    requires Digits(ahead) && Hex(hash) && p == tag + "-" + ahead + "-g" + hash
    ensures BareTag("v" + p) == tag && BareTag("v" + (p + DIRTY)) == tag
  {
    DescribedStripped(tag, ahead, hash);
    AfterV(p, tag);
    AfterV(p + DIRTY, tag);
  }

  lemma AfterV(p: string, tag: string)
    requires StripSuffix(p) == tag
    ensures BareTag("v" + p) == tag
  {
    assert ("v" + p)[1..] == p;
  }
}
