/** Searching in text. */
module Strings {
  import opened Wrappers

  predicate StartsWith(s: string, prefix: string) {
    |prefix| <= |s| && s[..|prefix|] == prefix
  }

  predicate EndsWith(s: string, suffix: string) {
    |suffix| <= |s| && s[|s| - |suffix|..] == suffix
  }

  /** `needle` stands at index `i` of `hay`. */
  predicate At(hay: string, needle: string, i: nat) {
    i + |needle| <= |hay| && hay[i..i + |needle|] == needle
  }

  /** The first occurrence at or after `from`. */
  function Find(hay: string, needle: string, from: nat): (r: Option<nat>)
    ensures r.Some? ==> from <= r.value && At(hay, needle, r.value)
    ensures r.Some? ==> forall i :: from <= i < r.value ==> !At(hay, needle, i)
    ensures r.None? ==> forall i :: from <= i ==> !At(hay, needle, i)
    decreases |hay| - from
  {
    if from > |hay| then None
    else if At(hay, needle, from) then Some(from)
    else Find(hay, needle, from + 1)
  }

  lemma FindIs(hay: string, needle: string, from: nat, i: nat)
    requires from <= i && At(hay, needle, i)
    requires forall j :: from <= j < i ==> !At(hay, needle, j)
    ensures Find(hay, needle, from) == Some(i)
  {
  }

  /** The last occurrence that begins before `until`. */
  function FindLastBefore(hay: string, needle: string, until: nat): (r: Option<nat>)
    ensures r.Some? ==> r.value < until && At(hay, needle, r.value)
    ensures r.Some? ==> forall i :: r.value < i < until ==> !At(hay, needle, i)
    ensures r.None? ==> forall i :: 0 <= i < until ==> !At(hay, needle, i)
  {
    if until == 0 then None
    else if At(hay, needle, until - 1) then Some(until - 1)
    else FindLastBefore(hay, needle, until - 1)
  }

  /** The last occurrence. */
  function FindLast(hay: string, needle: string): (r: Option<nat>)
    ensures r.Some? ==> At(hay, needle, r.value) && forall i :: r.value < i ==> !At(hay, needle, i)
    ensures r.None? ==> forall i :: 0 <= i ==> !At(hay, needle, i)
  {
    FindLastBefore(hay, needle, |hay| + 1)
  }

  lemma FindLastIs(hay: string, needle: string, i: nat)
    requires At(hay, needle, i) && forall j :: i < j ==> !At(hay, needle, j)
    ensures FindLast(hay, needle) == Some(i)
  {
  }
}
