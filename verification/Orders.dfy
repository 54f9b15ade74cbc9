/** Orders and sorting as the Python built-ins define them. */
module Orders {

  /** Python's `<` on strings: lexicographic by code point. */
  predicate StrLess(a: string, b: string)
    decreases |a|
  {
    if b == [] then false
    else if a == [] then true
    else if a[0] != b[0] then a[0] < b[0]
    else StrLess(a[1..], b[1..])
  }

  lemma {:induction false} StrLessIrreflexive(a: string)
    ensures !StrLess(a, a)
  {
    if a != [] {
      StrLessIrreflexive(a[1..]);
    }
  }

  lemma {:induction false} StrLessTransitive(a: string, b: string, c: string)
    requires StrLess(a, b) && StrLess(b, c)
    ensures StrLess(a, c)
  {
    if a != [] && b != [] && c != [] && a[0] == b[0] == c[0] {
      StrLessTransitive(a[1..], b[1..], c[1..]);
    }
  }

  lemma {:induction false} StrLessTotal(a: string, b: string)
    ensures a == b || StrLess(a, b) || StrLess(b, a)
  {
    if a != [] && b != [] && a[0] == b[0] {
      StrLessTotal(a[1..], b[1..]);
      assert a == [a[0]] + a[1..] && b == [b[0]] + b[1..];
    }
  }

  /** `a` and `b` agree in front of position `n`, where `a` ends or has the smaller character. */
  predicate SmallerAt(a: string, b: string, n: nat) {
    n < |b| && n <= |a| && a[..n] == b[..n] && (n == |a| || a[n] < b[n])
  }

  /** The order of strings is lexicographic, a prefix first. */
  lemma {:induction false} StrLessIsLexicographic(a: string, b: string)
    ensures StrLess(a, b) <==> exists n: nat :: SmallerAt(a, b, n)
  {
    if b == [] {
    } else if a == [] {
      assert SmallerAt(a, b, 0);
    } else if a[0] != b[0] {
      if a[0] < b[0] {
        assert SmallerAt(a, b, 0);
      }
      forall n: nat | 0 < n <= |a| && n <= |b|
        ensures a[..n] != b[..n]
      {
        assert a[..n][0] == a[0] && b[..n][0] == b[0];
      }
    } else {
      StrLessIsLexicographic(a[1..], b[1..]);
      SmallerBehind(a, b);
    }
  }

  lemma SmallerBehind(a: string, b: string)
    requires a != [] && b != [] && a[0] == b[0]
    ensures (exists n: nat :: SmallerAt(a, b, n)) <==> exists n: nat :: SmallerAt(a[1..], b[1..], n)
  {
    if n: nat :| SmallerAt(a, b, n) {
      assert n > 0;
      assert a[1..][..n - 1] == a[..n][1..] == b[..n][1..] == b[1..][..n - 1];
      assert SmallerAt(a[1..], b[1..], n - 1);
    }
    if n: nat :| SmallerAt(a[1..], b[1..], n) {
      assert a[..n + 1] == [a[0]] + a[1..][..n] && b[..n + 1] == [b[0]] + b[1..][..n];
      assert SmallerAt(a, b, n + 1);
    }
  }

  ghost predicate StrictOrder<T(!new)>(lt: (T, T) -> bool) {
    && (forall x :: !lt(x, x))
    && (forall x, y, z :: lt(x, y) && lt(y, z) ==> lt(x, z))
    // not comparable is an equivalence, as for the keys of a Python sort
    && (forall x, y, z :: lt(x, z) ==> lt(x, y) || lt(y, z))
  }

  ghost predicate Distinct<T>(s: seq<T>) {
    forall i, j | 0 <= i < j < |s| :: s[i] != s[j]
  }

  /** `sorted`: a stable sort by the strict order `lt` on keys. */
  function Sorted<T>(s: seq<T>, lt: (T, T) -> bool): seq<T> {
    if s == [] then [] else Insert(s[0], Sorted(s[1..], lt), lt)
  }

  function Insert<T>(x: T, s: seq<T>, lt: (T, T) -> bool): seq<T> {
    if s == [] || !lt(s[0], x) then [x] + s else [s[0]] + Insert(x, s[1..], lt)
  }

  ghost predicate Ascending<T>(s: seq<T>, lt: (T, T) -> bool) {
    forall i, j | 0 <= i < j < |s| :: !lt(s[j], s[i])
  }

  ghost predicate StrictlyAscending<T>(s: seq<T>, lt: (T, T) -> bool) {
    forall i, j | 0 <= i < j < |s| :: lt(s[i], s[j])
  }

  lemma NotLessChains<T(!new)>(a: T, b: T, c: T, lt: (T, T) -> bool)
    requires StrictOrder(lt) && !lt(b, a) && !lt(c, b)
    ensures !lt(c, a)
  {
  }

  lemma LessExcludes<T(!new)>(a: T, b: T, lt: (T, T) -> bool)
    requires StrictOrder(lt) && lt(a, b)
    ensures !lt(b, a)
  {
  }

  lemma {:induction false} InsertElements<T>(x: T, s: seq<T>, lt: (T, T) -> bool)
    ensures multiset(Insert(x, s, lt)) == multiset(s) + multiset{x}
  {
    if s != [] && lt(s[0], x) {
      InsertElements(x, s[1..], lt);
      assert s == [s[0]] + s[1..];
    }
  }

  lemma PrependAscends<T>(x: T, s: seq<T>, lt: (T, T) -> bool)
    requires Ascending(s, lt) && forall y | y in s :: !lt(y, x)
    ensures Ascending([x] + s, lt)
  {
    var r := [x] + s;
    forall i, j | 0 <= i < j < |r|
      ensures !lt(r[j], r[i])
    {
      assert r[j] == s[j - 1] && s[j - 1] in s;
    }
  }

  lemma {:induction false} InsertAscends<T(!new)>(x: T, s: seq<T>, lt: (T, T) -> bool)
    requires StrictOrder(lt) && Ascending(s, lt)
    ensures Ascending(Insert(x, s, lt), lt)
  {
    if s == [] {
    } else if !lt(s[0], x) {
      forall y | y in s
        ensures !lt(y, x)
      {
        var j :| 0 <= j < |s| && s[j] == y;
        NotLessChains(x, s[0], s[j], lt);
      }
      PrependAscends(x, s, lt);
    } else {
      InsertAscends(x, s[1..], lt);
      InsertElements(x, s[1..], lt);
      var t := Insert(x, s[1..], lt);
      LessExcludes(s[0], x, lt);
      forall y | y in t
        ensures !lt(y, s[0])
      {
        assert y in multiset(t);
        if y != x {
          assert y in s[1..];
        }
      }
      PrependAscends(s[0], t, lt);
    }
  }

  lemma {:induction false} SortedSorts<T(!new)>(s: seq<T>, lt: (T, T) -> bool)
    requires StrictOrder(lt)
    ensures Ascending(Sorted(s, lt), lt)
    ensures multiset(Sorted(s, lt)) == multiset(s)
  {
    if s != [] {
      SortedSorts(s[1..], lt);
      InsertAscends(s[0], Sorted(s[1..], lt), lt);
      InsertElements(s[0], Sorted(s[1..], lt), lt);
      assert s == [s[0]] + s[1..];
    }
  }

  lemma SameElements<T>(s: seq<T>, t: seq<T>)
    requires multiset(s) == multiset(t)
    ensures |s| == |t| && forall x :: x in s <==> x in t
  {
    assert |multiset(s)| == |s| && |multiset(t)| == |t|;
    forall x
      ensures x in s <==> x in t
    {
      assert x in s <==> x in multiset(s);
      assert x in t <==> x in multiset(t);
    }
  }

  lemma HeadsAgree<T>(s: seq<T>, t: seq<T>, lt: (T, T) -> bool)
    requires StrictlyAscending(s, lt) && Ascending(t, lt) && multiset(s) == multiset(t) && s != []
    ensures t != [] && s[0] == t[0]
  {
    SameElements(s, t);
    assert t[0] in s && s[0] in t;
    var i :| 0 <= i < |s| && s[i] == t[0];
    var j :| 0 <= j < |t| && t[j] == s[0];
  }

  /** Without ties there is one sorted arrangement only. */
  lemma {:induction false} SortedIsUnique<T>(s: seq<T>, t: seq<T>, lt: (T, T) -> bool)
    requires StrictlyAscending(s, lt) && Ascending(t, lt) && multiset(s) == multiset(t)
    ensures s == t
  {
    SameElements(s, t);
    if s != [] {
      HeadsAgree(s, t, lt);
      assert s == [s[0]] + s[1..] && t == [t[0]] + t[1..];
      assert multiset(s[1..]) == multiset(s) - multiset{s[0]};
      assert multiset(t[1..]) == multiset(t) - multiset{t[0]};
      SortedIsUnique(s[1..], t[1..], lt);
    }
  }

  lemma StringsOrdered()
    ensures StrictOrder(StrLess)
  {
    forall a: string
      ensures !StrLess(a, a)
    {
      StrLessIrreflexive(a);
    }
    forall a: string, b: string, c: string | StrLess(a, b) && StrLess(b, c)
      ensures StrLess(a, c)
    {
      StrLessTransitive(a, b, c);
    }
    forall a: string, b: string, c: string | StrLess(a, c)
      ensures StrLess(a, b) || StrLess(b, c)
    {
      StrLessTotal(a, b);
      StrLessTotal(b, c);
      if StrLess(b, a) {
        StrLessTransitive(b, a, c);
      }
    }
  }
}
