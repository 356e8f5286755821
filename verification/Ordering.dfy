/**
 Tables under a strict order, and the meaning of ORDER BY and LIMIT over them.
 A relation is taken as it is on the rows of one table: the columns of an ORDER BY
 list order the rows of the table without ties exactly when their values are distinct.
 */
module Ordering {
  import opened Sequences

  /** `lt` is irreflexive, transitive and total on the elements of `s`. */
  ghost predicate StrictOrderOn<T>(lt: (T, T) -> bool, s: set<T>) {
    && (forall a :: a in s ==> !lt(a, a))
    && (forall a, b, c :: a in s && b in s && c in s && lt(a, b) && lt(b, c) ==> lt(a, c))
    && (forall a, b :: a in s && b in s && a != b ==> lt(a, b) || lt(b, a))
  }

  /** A database collation: a strict order on all strings. */
  ghost predicate Collation(lt: (string, string) -> bool) {
    && (forall a: string :: !lt(a, a))
    && (forall a: string, b: string, c: string :: lt(a, b) && lt(b, c) ==> lt(a, c))
    && (forall a: string, b: string :: a != b ==> lt(a, b) || lt(b, a))
  }

  function Elements<T>(s: seq<T>): set<T> {
    set x | x in s
  }

  lemma {:induction false} DistinctElements<T>(s: seq<T>)
    requires Distinct(s)
    ensures |Elements(s)| == |s|
  {
    if s != [] {
      DistinctElements(s[1..]);
      assert s[0] !in s[1..];
      assert Elements(s) == {s[0]} + Elements(s[1..]);
    }
  }

  ghost predicate SortedBy<T>(lt: (T, T) -> bool, s: seq<T>) {
    forall i, j :: 0 <= i < j < |s| ==> lt(s[i], s[j])
  }

  function Insert<T>(lt: (T, T) -> bool, x: T, s: seq<T>): (r: seq<T>)
    ensures |r| == |s| + 1
  {
    if s == [] || lt(x, s[0]) then [x] + s else [s[0]] + Insert(lt, x, s[1..])
  }

  lemma {:induction false} InsertMultiset<T>(lt: (T, T) -> bool, x: T, s: seq<T>)
    ensures multiset(Insert(lt, x, s)) == multiset(s) + multiset{x}
  {
    if s != [] {
      InsertMultiset(lt, x, s[1..]);
      assert s == [s[0]] + s[1..];
    }
  }

  /** ORDER BY: the rows of `s`, each as often as it occurs, smallest first. */
  function OrderBy<T>(lt: (T, T) -> bool, s: seq<T>): (r: seq<T>)
    ensures |r| == |s|
  {
    if s == [] then [] else Insert(lt, s[0], OrderBy(lt, s[1..]))
  }

  lemma {:induction false} OrderByRows<T(!new)>(lt: (T, T) -> bool, s: seq<T>)
    ensures multiset(OrderBy(lt, s)) == multiset(s)
    ensures forall x :: x in OrderBy(lt, s) <==> x in s
  {
    if s != [] {
      OrderByRows(lt, s[1..]);
      InsertMultiset(lt, s[0], OrderBy(lt, s[1..]));
      assert s == [s[0]] + s[1..];
      forall x ensures x in OrderBy(lt, s) <==> x in s {
        SameMembers(OrderBy(lt, s), s, x);
      }
    }
  }

  lemma {:induction false} InsertSorted<T(!new)>(lt: (T, T) -> bool, x: T, s: seq<T>, u: set<T>)
    requires StrictOrderOn(lt, u)
    requires x in u && x !in s && (forall y :: y in s ==> y in u)
    requires SortedBy(lt, s)
    ensures SortedBy(lt, Insert(lt, x, s))
  {
    if s != [] && !lt(x, s[0]) {
      InsertSorted(lt, x, s[1..], u);
      var r := Insert(lt, x, s[1..]);
      InsertMultiset(lt, x, s[1..]);
      forall j | 0 <= j < |r| ensures lt(s[0], r[j]) {
        assert r[j] in multiset(r);
        assert r[j] in s[1..] || r[j] == x;
      }
    }
  }

  lemma {:induction false} OrderBySorted<T(!new)>(lt: (T, T) -> bool, s: seq<T>, u: set<T>)
    requires StrictOrderOn(lt, u)
    requires Distinct(s) && (forall y :: y in s ==> y in u)
    ensures SortedBy(lt, OrderBy(lt, s))
  {
    if s != [] {
      OrderBySorted(lt, s[1..], u);
      OrderByRows(lt, s[1..]);
      InsertSorted(lt, s[0], OrderBy(lt, s[1..]), u);
    }
  }

  lemma TailMultiset<T(!new)>(s: seq<T>, t: seq<T>)
    requires s != [] && t != [] && s[0] == t[0] && multiset(s) == multiset(t)
    ensures multiset(s[1..]) == multiset(t[1..])
  {
    assert s == [s[0]] + s[1..] && t == [t[0]] + t[1..];
    assert multiset(s[1..]) == multiset(s) - multiset{s[0]};
    assert multiset(t[1..]) == multiset(t) - multiset{t[0]};
  }

  lemma SameHead<T>(lt: (T, T) -> bool, s: seq<T>, t: seq<T>)
    requires SortedBy(lt, s) && SortedBy(lt, t) && s != [] && t != []
    requires StrictOrderOn(lt, Elements(s)) && multiset(s) == multiset(t)
    ensures s[0] == t[0]
  {
    SameMembers(s, t, s[0]);
    SameMembers(s, t, t[0]);
    assert s[0] in Elements(s) && t[0] in Elements(s);
  }

  /** A table has one sorted listing. */
  lemma {:induction false} SortedUnique<T(!new)>(lt: (T, T) -> bool, s: seq<T>, t: seq<T>)
    requires SortedBy(lt, s) && SortedBy(lt, t)
    requires StrictOrderOn(lt, Elements(s))
    requires multiset(s) == multiset(t)
    ensures s == t
  {
    assert |multiset(s)| == |multiset(t)| == |s| == |t|;
    if s != [] {
      SameHead(lt, s, t);
      TailMultiset(s, t);
      SortedUnique(lt, s[1..], t[1..]);
      assert s == [s[0]] + s[1..] && t == [t[0]] + t[1..];
    }
  }

  /** Selecting and ordering commute. */
  lemma {:induction false} FilterSorted<T>(lt: (T, T) -> bool, p: T -> bool, s: seq<T>)
    requires SortedBy(lt, s)
    ensures SortedBy(lt, Filter(p, s))
  {
    if s != [] {
      FilterSorted(lt, p, s[1..]);
      var r := Filter(p, s[1..]);
      forall j | 0 <= j < |r| ensures lt(s[0], r[j]) {
        assert r[j] in s[1..];
      }
    }
  }

  lemma FilterOrderBy<T(!new)>(lt: (T, T) -> bool, p: T -> bool, s: seq<T>)
    requires StrictOrderOn(lt, Elements(s)) && Distinct(s)
    ensures Filter(p, OrderBy(lt, s)) == OrderBy(lt, Filter(p, s))
  {
    var u := Elements(s);
    FilterDistinct(p, s);
    OrderBySorted(lt, s, u);
    OrderBySorted(lt, Filter(p, s), u);
    OrderByRows(lt, s);
    OrderByRows(lt, Filter(p, s));
    FilterSorted(lt, p, OrderBy(lt, s));
    FilterSameMultiset(p, OrderBy(lt, s), s);
    SortedUnique(lt, Filter(p, OrderBy(lt, s)), OrderBy(lt, Filter(p, s)));
  }

  lemma {:induction false} FilterDistinct<T>(p: T -> bool, s: seq<T>)
    requires Distinct(s)
    ensures Distinct(Filter(p, s))
  {
    if s != [] {
      FilterDistinct(p, s[1..]);
      assert s[0] !in s[1..];
    }
  }

  /** A page of an insertion needs only a page of what was there. */
  lemma {:induction false} TakeInsert<T>(lt: (T, T) -> bool, k: nat, x: T, s: seq<T>)
    ensures Take(k, Insert(lt, x, s)) == Take(k, Insert(lt, x, Take(k, s)))
  {
    if k != 0 && s != [] {
      var t := Take(k, s);
      assert t == [s[0]] + Take(k - 1, s[1..]) by {
        TakeCons(k, s[0], s[1..]);
        assert s == [s[0]] + s[1..];
      }
      if lt(x, s[0]) {
        TakeCons(k, x, s);
        TakeCons(k, x, t);
      } else {
        TakeInsert(lt, k - 1, x, s[1..]);
        TakeCons(k, s[0], Insert(lt, x, s[1..]));
        TakeCons(k, s[0], Insert(lt, x, t[1..]));
        assert t[1..] == Take(k - 1, s[1..]);
      }
    }
  }

  /** Inserting the rows of `a`, last one first, into a listing. */
  function InsertAll<T>(lt: (T, T) -> bool, a: seq<T>, base: seq<T>): seq<T> {
    if a == [] then base else Insert(lt, a[0], InsertAll(lt, a[1..], base))
  }

  lemma {:induction false} OrderByAppend<T>(lt: (T, T) -> bool, a: seq<T>, b: seq<T>)
    ensures OrderBy(lt, a + b) == InsertAll(lt, a, OrderBy(lt, b))
  {
    if a == [] {
      assert a + b == b;
    } else {
      OrderByAppend(lt, a[1..], b);
      assert (a + b)[1..] == a[1..] + b;
    }
  }

  lemma {:induction false} TakeInsertAll<T>(lt: (T, T) -> bool, k: nat, a: seq<T>, base: seq<T>)
    ensures Take(k, InsertAll(lt, a, base)) == Take(k, InsertAll(lt, a, Take(k, base)))
  {
    if a == [] {
      assert Take(k, Take(k, base)) == Take(k, base);
    } else {
      TakeInsertAll(lt, k, a[1..], base);
      TakeInsert(lt, k, a[0], InsertAll(lt, a[1..], base));
      TakeInsert(lt, k, a[0], InsertAll(lt, a[1..], Take(k, base)));
    }
  }

  /** Ordering an ordered listing changes nothing. */
  lemma {:induction false} OrderBySortedId<T>(lt: (T, T) -> bool, s: seq<T>)
    requires SortedBy(lt, s)
    ensures OrderBy(lt, s) == s
  {
    if s != [] {
      OrderBySortedId(lt, s[1..]);
      assert s == [s[0]] + s[1..];
    }
  }

  /** The listing does not depend on the order in which the table stores its rows. */
  lemma OrderByPermutation<T(!new)>(lt: (T, T) -> bool, s: seq<T>, t: seq<T>)
    requires multiset(s) == multiset(t)
    requires StrictOrderOn(lt, Elements(s)) && Distinct(s)
    ensures OrderBy(lt, s) == OrderBy(lt, t)
  {
    DistinctCounts(s);
    CountsDistinct(t);
    forall x ensures x in s <==> x in t {
      SameMembers(s, t, x);
    }
    OrderBySorted(lt, s, Elements(s));
    OrderBySorted(lt, t, Elements(s));
    OrderByRows(lt, s);
    OrderByRows(lt, t);
    assert Elements(OrderBy(lt, s)) == Elements(s);
    SortedUnique(lt, OrderBy(lt, s), OrderBy(lt, t));
  }

  /** The best `k` of a union are the best `k` of one part with the best `k` of the other. */
  lemma TopOfUnion<T(!new)>(lt: (T, T) -> bool, k: nat, a: seq<T>, b: seq<T>)
    requires StrictOrderOn(lt, Elements(a + b)) && Distinct(a + b)
    ensures Take(k, OrderBy(lt, a + Take(k, OrderBy(lt, b)))) == Take(k, OrderBy(lt, a + b))
  {
    var u := Elements(a + b);
    forall i, j | 0 <= i < j < |b| ensures b[i] != b[j] {
      assert (a + b)[|a| + i] != (a + b)[|a| + j];
    }
    OrderBySorted(lt, b, u);
    var t := Take(k, OrderBy(lt, b));
    OrderByAppend(lt, a, b);
    OrderByAppend(lt, a, t);
    OrderBySortedId(lt, t);
    TakeInsertAll(lt, k, a, OrderBy(lt, b));
  }

  lemma TopOfLeft<T(!new)>(lt: (T, T) -> bool, k: nat, a: seq<T>, b: seq<T>, u: set<T>)
    requires StrictOrderOn(lt, u) && Distinct(a + b) && (forall y :: y in a + b ==> y in u)
    ensures Take(k, OrderBy(lt, Take(k, OrderBy(lt, a)) + b)) == Take(k, OrderBy(lt, a + b))
  {
    var top := Take(k, OrderBy(lt, a));
    assert forall y :: y in a || y in b ==> y in a + b;
    DistinctParts(a, b);
    TopRows(lt, k, a, u);
    DistinctJoin(top, b);
    DistinctJoin(b, a);
    Swap(lt, top, b);
    TopOfUnion(lt, k, b, a);
    Swap(lt, b, a);
  }

  /** LIMIT may be pushed into both branches of a union. */
  lemma TopOfBoth<T(!new)>(lt: (T, T) -> bool, k: nat, a: seq<T>, b: seq<T>)
    requires StrictOrderOn(lt, Elements(a + b)) && Distinct(a + b)
    ensures Take(k, OrderBy(lt, Take(k, OrderBy(lt, a)) + Take(k, OrderBy(lt, b)))) == Take(k, OrderBy(lt, a + b))
  {
    var t, u := Take(k, OrderBy(lt, b)), Elements(a + b);
    assert forall x :: x in a || x in b ==> x in u;
    DistinctParts(a, b);
    TopRows(lt, k, b, u);
    DistinctJoin(a, t);
    TopOfLeft(lt, k, a, t, u);
    TopOfUnion(lt, k, a, b);
  }

  lemma OrderedRows<T(!new)>(lt: (T, T) -> bool, k: nat, s: seq<T>)
    ensures forall x :: x in Take(k, OrderBy(lt, s)) ==> x in s
  {
    OrderByRows(lt, s);
  }

  /** The best `k` rows of a table are rows of it, without repeats. */
  lemma TopRows<T(!new)>(lt: (T, T) -> bool, k: nat, s: seq<T>, u: set<T>)
    requires StrictOrderOn(lt, u)
    requires Distinct(s) && (forall y :: y in s ==> y in u)
    ensures Distinct(Take(k, OrderBy(lt, s)))
    ensures forall y :: y in Take(k, OrderBy(lt, s)) ==> y in s
  {
    OrderBySorted(lt, s, u);
    OrderByRows(lt, s);
    SortedDistinct(lt, Take(k, OrderBy(lt, s)), u);
  }

  lemma SortedDistinct<T>(lt: (T, T) -> bool, s: seq<T>, u: set<T>)
    requires StrictOrderOn(lt, u) && SortedBy(lt, s) && (forall y :: y in s ==> y in u)
    ensures Distinct(s)
  {
  }

  lemma DistinctJoin<T>(a: seq<T>, b: seq<T>)
    requires Distinct(a) && Distinct(b) && (forall x :: x in a ==> x !in b)
    ensures Distinct(a + b)
  {
    var c := a + b;
    forall i, j | 0 <= i < j < |c| ensures c[i] != c[j] {
      if i < |a| <= j {
        assert c[i] in a && c[j] in b;
      }
    }
  }

  lemma DistinctParts<T>(a: seq<T>, b: seq<T>)
    requires Distinct(a + b)
    ensures Distinct(a) && Distinct(b)
    ensures forall x :: x in a ==> x !in b
  {
    forall i, j | 0 <= i < j < |a| ensures a[i] != a[j] {
      assert (a + b)[i] != (a + b)[j];
    }
    forall i, j | 0 <= i < j < |b| ensures b[i] != b[j] {
      assert (a + b)[|a| + i] != (a + b)[|a| + j];
    }
    forall i, j | 0 <= i < |a| && 0 <= j < |b| ensures a[i] != b[j] {
      assert (a + b)[i] != (a + b)[|a| + j];
    }
  }

  lemma Swap<T(!new)>(lt: (T, T) -> bool, a: seq<T>, b: seq<T>)
    requires StrictOrderOn(lt, Elements(a + b)) && Distinct(a + b)
    ensures OrderBy(lt, a + b) == OrderBy(lt, b + a)
  {
    assert multiset(a + b) == multiset(a) + multiset(b) == multiset(b + a);
    OrderByPermutation(lt, a + b, b + a);
  }

  /** Orders that agree on the rows of a table list it alike. */
  lemma {:induction false} OrderByAgree<T(!new)>(lt: (T, T) -> bool, lt': (T, T) -> bool, s: seq<T>)
    requires forall a, b :: a in s && b in s ==> lt(a, b) == lt'(a, b)
    ensures OrderBy(lt, s) == OrderBy(lt', s)
  {
    if s != [] {
      OrderByAgree(lt, lt', s[1..]);
      OrderByRows(lt, s[1..]);
      InsertAgree(lt, lt', s[0], OrderBy(lt, s[1..]));
    }
  }

  lemma {:induction false} InsertAgree<T(!new)>(lt: (T, T) -> bool, lt': (T, T) -> bool, x: T, s: seq<T>)
    requires forall y :: y in s ==> lt(x, y) == lt'(x, y)
    ensures Insert(lt, x, s) == Insert(lt', x, s)
  {
    if s != [] {
      InsertAgree(lt, lt', x, s[1..]);
    }
  }

  lemma NotAfter<T>(lt: (T, T) -> bool, s: seq<T>, m: nat, u: set<T>, x: T)
    requires StrictOrderOn(lt, u) && SortedBy(lt, s) && (forall y :: y in s ==> y in u)
    requires 0 < m <= |s| && x in s[..m]
    ensures !lt(s[m - 1], x)
  {
    var i :| 0 <= i < m && s[i] == x;
    assert i < m - 1 ==> lt(s[i], s[m - 1]);
    assert s[i] in u && s[m - 1] in u;
  }

  lemma FilterSuffix<T>(p: T -> bool, s: seq<T>, m: nat)
    requires m <= |s| && (forall x :: x in s[..m] ==> !p(x)) && (forall x :: x in s[m..] ==> p(x))
    ensures Filter(p, s) == s[m..]
  {
    FilterNone(p, s[..m]);
    FilterAll(p, s[m..]);
    assert s[..m] + s[m..] == s;
    FilterAppend(p, s[..m], s[m..]);
  }

  /** Keyset: what follows row `m - 1` of a listing is the listing from row `m` on. */
  lemma KeysetIsSuffix<T(!new)>(lt: (T, T) -> bool, after: T -> bool, s: seq<T>, m: nat, u: set<T>)
    requires StrictOrderOn(lt, u) && SortedBy(lt, s) && (forall y :: y in s ==> y in u)
    requires 0 < m <= |s|
    requires forall x :: x in s ==> after(x) == lt(s[m - 1], x)
    ensures Filter(after, s) == s[m..]
  {
    forall x | x in s[..m] ensures !after(x) {
      NotAfter(lt, s, m, u, x);
    }
    forall x | x in s[m..] ensures after(x) {
      var j :| m <= j < |s| && s[j] == x;
    }
    FilterSuffix(after, s, m);
  }

  /** The best `k` rows of every part. */
  function TopEach<T>(lt: (T, T) -> bool, k: nat, parts: seq<seq<T>>): (r: seq<seq<T>>)
    ensures |r| == |parts|
  {
    if parts == [] then [] else [Take(k, OrderBy(lt, parts[0]))] + TopEach(lt, k, parts[1..])
  }

  lemma {:induction false} TopEachRows<T(!new)>(lt: (T, T) -> bool, k: nat, parts: seq<seq<T>>, u: set<T>)
    requires StrictOrderOn(lt, u)
    requires Distinct(Flatten(parts)) && (forall y :: y in Flatten(parts) ==> y in u)
    ensures Distinct(Flatten(TopEach(lt, k, parts)))
    ensures forall y :: y in Flatten(TopEach(lt, k, parts)) ==> y in Flatten(parts)
  {
    if parts != [] {
      var rest := Flatten(parts[1..]);
      DistinctParts(parts[0], rest);
      assert forall y :: y in rest || y in parts[0] ==> y in Flatten(parts);
      TopEachRows(lt, k, parts[1..], u);
      TopRows(lt, k, parts[0], u);
      var top, tops := Take(k, OrderBy(lt, parts[0])), Flatten(TopEach(lt, k, parts[1..]));
      DistinctJoin(top, tops);
      assert TopEach(lt, k, parts)[1..] == TopEach(lt, k, parts[1..]);
    }
  }

  /** LIMIT may be pushed into every part of a union, however many there are. */
  lemma {:induction false} TopOfMany<T(!new)>(lt: (T, T) -> bool, k: nat, parts: seq<seq<T>>)
    requires StrictOrderOn(lt, Elements(Flatten(parts))) && Distinct(Flatten(parts))
    ensures Take(k, OrderBy(lt, Flatten(TopEach(lt, k, parts)))) == Take(k, OrderBy(lt, Flatten(parts)))
  {
    if parts != [] {
      var u := Elements(Flatten(parts));
      var part, rest := parts[0], Flatten(parts[1..]);
      assert Flatten(parts) == part + rest;
      DistinctParts(part, rest);
      assert forall y :: y in rest || y in part ==> y in Flatten(parts);
      var top, tops := Take(k, OrderBy(lt, part)), Flatten(TopEach(lt, k, parts[1..]));
      assert TopEach(lt, k, parts)[1..] == TopEach(lt, k, parts[1..]);
      TopEachRows(lt, k, parts[1..], u);
      TopRows(lt, k, part, u);
      DistinctJoin(top, tops);
      TopOfMany(lt, k, parts[1..]);
      TopOfUnion(lt, k, top, tops);
      TopOfBoth(lt, k, part, rest);
    }
  }
}
