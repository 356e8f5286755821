/** Facts about sequences that several parts of the model share. */
module Sequences {

  /** The subsequence of the elements that satisfy a predicate, in order. */
  function Filter<T>(p: T -> bool, s: seq<T>): (r: seq<T>)
    ensures |r| <= |s|
    ensures forall x :: x in r ==> x in s && p(x)
    ensures forall x :: x in s && p(x) ==> x in r
  {
    if s == [] then []
    else if p(s[0]) then [s[0]] + Filter(p, s[1..])
    else Filter(p, s[1..])
  }

  function Map<T, R>(f: T -> R, s: seq<T>): (r: seq<R>)
    ensures |r| == |s|
    ensures forall i :: 0 <= i < |s| ==> r[i] == f(s[i])
  {
    seq(|s|, i requires 0 <= i < |s| => f(s[i]))
  }

  /** At most the first `k` elements: SQL's LIMIT. */
  function Take<T>(k: nat, s: seq<T>): (r: seq<T>)
    ensures |r| == if k <= |s| then k else |s|
    ensures r <= s
  {
    if k <= |s| then s[..k] else s
  }

  /** The elements after the first `k`: SQL's OFFSET. */
  function Drop<T>(k: nat, s: seq<T>): (r: seq<T>)
    ensures Take(k, s) + r == s
  {
    if k <= |s| then s[k..] else []
  }

  function Flatten<T>(ss: seq<seq<T>>): seq<T> {
    if ss == [] then [] else ss[0] + Flatten(ss[1..])
  }

  ghost predicate Distinct<T>(s: seq<T>) {
    forall i, j :: 0 <= i < j < |s| ==> s[i] != s[j]
  }

  lemma AppendAssoc<T>(a: seq<T>, b: seq<T>, c: seq<T>)
    ensures a + (b + c) == (a + b) + c
  {
  }

  lemma SliceSnoc<T>(s: seq<T>, i: nat)
    requires i < |s|
    ensures s[..i + 1] == s[..i] + [s[i]]
  {
  }

  lemma LastSnoc<T>(s: seq<T>)
    requires s != []
    ensures s == s[..|s| - 1] + [s[|s| - 1]]
  {
  }

  lemma TailAppend<T>(a: seq<T>, b: seq<T>)
    requires a != []
    ensures a + b != [] && (a + b)[0] == a[0] && (a + b)[1..] == a[1..] + b
  {
  }

  lemma {:induction false} FilterAppend<T>(p: T -> bool, a: seq<T>, b: seq<T>)
    ensures Filter(p, a + b) == Filter(p, a) + Filter(p, b)
  {
    if a == [] {
      assert a + b == b;
    } else {
      FilterAppend(p, a[1..], b);
      TailAppend(a, b);
      if p(a[0]) {
        AppendAssoc([a[0]], Filter(p, a[1..]), Filter(p, b));
      }
    }
  }

  lemma {:induction false} FilterAgree<T>(p: T -> bool, q: T -> bool, s: seq<T>)
    requires forall x :: x in s ==> p(x) == q(x)
    ensures Filter(p, s) == Filter(q, s)
  {
    if s != [] {
      FilterAgree(p, q, s[1..]);
    }
  }

  lemma {:induction false} FilterFilter<T>(p: T -> bool, q: T -> bool, both: T -> bool, s: seq<T>)
    requires forall x :: x in s ==> both(x) == (p(x) && q(x))
    ensures Filter(p, Filter(q, s)) == Filter(both, s)
  {
    if s != [] {
      FilterFilter(p, q, both, s[1..]);
      if q(s[0]) {
        assert ([s[0]] + Filter(q, s[1..]))[1..] == Filter(q, s[1..]);
      }
    }
  }

  lemma {:induction false} FilterAll<T>(p: T -> bool, s: seq<T>)
    requires forall x :: x in s ==> p(x)
    ensures Filter(p, s) == s
  {
    if s != [] {
      FilterAll(p, s[1..]);
    }
  }

  lemma {:induction false} FilterNone<T>(p: T -> bool, s: seq<T>)
    requires forall x :: x in s ==> !p(x)
    ensures Filter(p, s) == []
  {
    if s != [] {
      FilterNone(p, s[1..]);
    }
  }

  lemma {:induction false} FilterDrops<T>(p: T -> bool, s: seq<T>, x: T)
    requires x in s && !p(x)
    ensures |Filter(p, s)| < |s|
  {
    if s[0] != x {
      FilterDrops(p, s[1..], x);
    }
  }

  /** Filtering keeps the multiplicity of what it keeps. */
  lemma {:induction false} FilterMultiset<T>(p: T -> bool, s: seq<T>, x: T)
    ensures multiset(Filter(p, s))[x] == if p(x) then multiset(s)[x] else 0
  {
    if s != [] {
      FilterMultiset(p, s[1..], x);
      assert s == [s[0]] + s[1..];
    }
  }

  lemma {:induction false} FilterSameMultiset<T(!new)>(p: T -> bool, s: seq<T>, t: seq<T>)
    requires multiset(s) == multiset(t)
    ensures multiset(Filter(p, s)) == multiset(Filter(p, t))
  {
    forall x ensures multiset(Filter(p, s))[x] == multiset(Filter(p, t))[x] {
      FilterMultiset(p, s, x);
      FilterMultiset(p, t, x);
    }
  }

  lemma TakeCons<T>(k: nat, x: T, s: seq<T>)
    requires k > 0
    ensures Take(k, [x] + s) == [x] + Take(k - 1, s)
  {
  }

  lemma SameMembers<T>(s: seq<T>, t: seq<T>, x: T)
    requires multiset(s) == multiset(t)
    ensures x in s <==> x in t
  {
    assert x in s <==> x in multiset(s);
    assert x in t <==> x in multiset(t);
  }

  lemma {:induction false} FlattenAppend<T>(a: seq<seq<T>>, b: seq<seq<T>>)
    ensures Flatten(a + b) == Flatten(a) + Flatten(b)
  {
    if a == [] {
      assert a + b == b;
    } else {
      FlattenAppend(a[1..], b);
      TailAppend(a, b);
      AppendAssoc(a[0], Flatten(a[1..]), Flatten(b));
    }
  }

  lemma FlattenSnoc<T>(a: seq<seq<T>>, b: seq<T>)
    ensures Flatten(a + [b]) == Flatten(a) + b
  {
    FlattenAppend(a, [b]);
    assert [b][1..] == [];
    assert Flatten([b]) == b + Flatten([]);
  }

  lemma MapAppend<T, R>(f: T -> R, a: seq<T>, b: seq<T>)
    ensures Map(f, a + b) == Map(f, a) + Map(f, b)
  {
  }

  /** Rendering a concatenation piece by piece. */
  lemma {:induction false} FlatMapFlatten<T, R>(f: T -> seq<R>, g: seq<T> -> seq<R>, tss: seq<seq<T>>)
    requires forall ts :: ts in tss ==> g(ts) == Flatten(Map(f, ts))
    ensures Flatten(Map(g, tss)) == Flatten(Map(f, Flatten(tss)))
  {
    if tss != [] {
      FlatMapFlatten(f, g, tss[1..]);
      assert Map(g, tss)[1..] == Map(g, tss[1..]);
      MapAppend(f, tss[0], Flatten(tss[1..]));
      FlattenAppend(Map(f, tss[0]), Map(f, Flatten(tss[1..])));
    }
  }

  lemma FlatMapSnoc<T, R>(f: T -> seq<R>, ts: seq<T>, t: T)
    ensures Flatten(Map(f, ts + [t])) == Flatten(Map(f, ts)) + f(t)
  {
    MapAppend(f, ts, [t]);
    FlattenAppend(Map(f, ts), Map(f, [t]));
    assert Map(f, [t])[1..] == [];
    assert Flatten(Map(f, [t])) == f(t) + Flatten([]);
  }

  lemma MapAgree<T, R>(f: T -> R, g: T -> R, s: seq<T>)
    requires forall x :: x in s ==> f(x) == g(x)
    ensures Map(f, s) == Map(g, s)
  {
  }

  /** A sequence without repeats has each of its members once. */
  lemma {:induction false} DistinctCounts<T>(s: seq<T>)
    requires Distinct(s)
    ensures forall x :: multiset(s)[x] == if x in s then 1 else 0
  {
    if s != [] {
      DistinctCounts(s[1..]);
      assert s == [s[0]] + s[1..];
      assert s[0] !in s[1..];
    }
  }

  lemma {:induction false} CountsDistinct<T>(s: seq<T>)
    requires forall x :: multiset(s)[x] <= 1
    ensures Distinct(s)
  {
    if s != [] {
      assert s == [s[0]] + s[1..];
      forall x ensures multiset(s[1..])[x] <= 1 {
        assert multiset(s)[x] <= 1;
      }
      CountsDistinct(s[1..]);
      assert multiset(s)[s[0]] <= 1;
      assert s[0] !in multiset(s[1..]);
    }
  }

  lemma DistinctSameMembers<T>(s: seq<T>, t: seq<T>)
    requires Distinct(s) && Distinct(t)
    requires forall x :: x in s <==> x in t
    ensures multiset(s) == multiset(t)
  {
    DistinctCounts(s);
    DistinctCounts(t);
  }

  // ----- exchanging two elements

  function Swapped<T>(r: seq<T>, i: nat, j: nat): (t: seq<T>)
    requires i < j < |r|
    ensures |t| == |r|
    ensures t[i] == r[j] && t[j] == r[i]
    ensures forall k :: 0 <= k < |r| && k != i && k != j ==> t[k] == r[k]
  {
    r[i := r[j]][j := r[i]]
  }

  lemma ExchangedMultiset<T>(a: seq<T>, x: T, m: seq<T>, y: T, c: seq<T>)
    ensures multiset(a + [x] + m + [y] + c) == multiset(a + [y] + m + [x] + c)
  {
  }

  lemma SwappedParts<T>(r: seq<T>, i: nat, j: nat)
    requires i < j < |r|
    ensures r == r[..i] + [r[i]] + r[i + 1..j] + [r[j]] + r[j + 1..]
    ensures Swapped(r, i, j) == r[..i] + [r[j]] + r[i + 1..j] + [r[i]] + r[j + 1..]
  {
  }

  lemma SwappedMultiset<T>(r: seq<T>, i: nat, j: nat)
    requires i < j < |r|
    ensures multiset(Swapped(r, i, j)) == multiset(r)
  {
    SwappedParts(r, i, j);
    ExchangedMultiset(r[..i], r[i], r[i + 1..j], r[j], r[j + 1..]);
  }
}
