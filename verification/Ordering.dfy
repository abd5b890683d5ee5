/**
 * Sorting by a comparison, as Python's `sorted`, `list.sort` and SQL's ORDER BY do it, and why the
 * result does not depend on the order the elements arrive in.
 */
module Ordering {

  ghost predicate TotalPreorder<T(!new)>(le: (T, T) -> bool) {
    && (forall x, y :: le(x, y) || le(y, x))
    && (forall x, y, z :: le(x, y) && le(y, z) ==> le(x, z))
  }

  /** No two different elements of `s` compare equal. */
  ghost predicate Distinguishes<T(!new)>(le: (T, T) -> bool, s: multiset<T>) {
    forall x, y :: x in s && y in s && le(x, y) && le(y, x) ==> x == y
  }

  ghost predicate SortedBy<T(!new)>(le: (T, T) -> bool, s: seq<T>) {
    forall i, j :: 0 <= i < j < |s| ==> le(s[i], s[j])
  }

  function Insert<T>(le: (T, T) -> bool, x: T, s: seq<T>): seq<T> {
    if s == [] then [x]
    else if le(x, s[0]) then [x] + s
    else [s[0]] + Insert(le, x, s[1..])
  }

  function Sort<T>(le: (T, T) -> bool, s: seq<T>): seq<T> {
    if s == [] then [] else Insert(le, s[|s| - 1], Sort(le, s[..|s| - 1]))
  }

  lemma {:induction false} InsertKeeps<T>(le: (T, T) -> bool, x: T, s: seq<T>)
    ensures multiset(Insert(le, x, s)) == multiset(s) + multiset{x}
  {
    if s != [] && !le(x, s[0]) {
      assert s == [s[0]] + s[1..];
      InsertKeeps(le, x, s[1..]);
    }
  }

  lemma {:induction false} SortKeeps<T>(le: (T, T) -> bool, s: seq<T>)
    ensures multiset(Sort(le, s)) == multiset(s) && |Sort(le, s)| == |s|
  {
    if s != [] {
      assert s == s[..|s| - 1] + [s[|s| - 1]];
      SortKeeps(le, s[..|s| - 1]);
      InsertKeeps(le, s[|s| - 1], Sort(le, s[..|s| - 1]));
    }
    assert |multiset(Sort(le, s))| == |multiset(s)|;
  }

  lemma {:induction false} InsertSorts<T(!new)>(le: (T, T) -> bool, x: T, s: seq<T>)
    requires TotalPreorder(le) && SortedBy(le, s)
    ensures SortedBy(le, Insert(le, x, s))
  {
    if s != [] && !le(x, s[0]) {
      InsertSorts(le, x, s[1..]);
      InsertKeeps(le, x, s[1..]);
      var rest := Insert(le, x, s[1..]);
      forall j | 0 <= j < |rest| ensures le(s[0], rest[j]) {
        assert rest[j] in multiset(rest);
        assert rest[j] in multiset(s[1..]) + multiset{x};
      }
    } else if s != [] {
      forall j | 0 <= j < |s| ensures le(x, s[j]) {
        assert j > 0 ==> le(s[0], s[j]);
      }
    }
  }

  lemma {:induction false} SortSorts<T(!new)>(le: (T, T) -> bool, s: seq<T>)
    requires TotalPreorder(le)
    ensures SortedBy(le, Sort(le, s))
  {
    if s != [] {
      SortSorts(le, s[..|s| - 1]);
      InsertSorts(le, s[|s| - 1], Sort(le, s[..|s| - 1]));
    }
  }

  lemma HeadIsLeast<T(!new)>(le: (T, T) -> bool, s: seq<T>, x: T)
    requires TotalPreorder(le) && SortedBy(le, s) && x in s
    ensures le(s[0], x)
  {
    assert le(x, x);
  }

  lemma SameHead<T(!new)>(le: (T, T) -> bool, a: seq<T>, b: seq<T>)
    requires multiset(a) == multiset(b) && SortedBy(le, a) && SortedBy(le, b) && a != [] && b != []
    requires TotalPreorder(le) && Distinguishes(le, multiset(a))
    ensures a[0] == b[0]
  {
    assert a[0] in multiset(b) && b[0] in multiset(a);
    HeadIsLeast(le, a, b[0]);
    HeadIsLeast(le, b, a[0]);
  }

  lemma SameRest<T>(a: seq<T>, b: seq<T>)
    requires multiset(a) == multiset(b) && a != [] && b != [] && a[0] == b[0]
    ensures multiset(a[1..]) == multiset(b[1..]) && multiset(a[1..]) <= multiset(a)
  {
    assert a == [a[0]] + a[1..] && b == [b[0]] + b[1..];
    assert multiset(a[1..]) == multiset(a) - multiset{a[0]} == multiset(b[1..]);
  }

  /** Without their equal heads, the two sequences still meet the conditions. */
  lemma SameTails<T(!new)>(le: (T, T) -> bool, a: seq<T>, b: seq<T>)
    requires multiset(a) == multiset(b) && SortedBy(le, a) && SortedBy(le, b) && Distinguishes(le, multiset(a))
    requires a != [] && b != [] && a[0] == b[0]
    ensures multiset(a[1..]) == multiset(b[1..]) && SortedBy(le, a[1..]) && SortedBy(le, b[1..])
    ensures Distinguishes(le, multiset(a[1..]))
  {
    SameRest(a, b);
  }

  lemma {:induction false} SortedUnique<T(!new)>(le: (T, T) -> bool, a: seq<T>, b: seq<T>)
    requires multiset(a) == multiset(b) && SortedBy(le, a) && SortedBy(le, b)
    requires TotalPreorder(le) && Distinguishes(le, multiset(a))
    ensures a == b
  {
    assert |multiset(a)| == |a| && |multiset(b)| == |b|;
    if a != [] {
      SameHead(le, a, b);
      SameTails(le, a, b);
      SortedUnique(le, a[1..], b[1..]);
      assert a == [a[0]] + a[1..] && b == [b[0]] + b[1..];
    }
  }

  /** Sorting forgets the input order whenever the comparison tells all elements apart. */
  lemma SortIgnoresOrder<T(!new)>(le: (T, T) -> bool, a: seq<T>, b: seq<T>)
    requires multiset(a) == multiset(b) && TotalPreorder(le) && Distinguishes(le, multiset(a))
    ensures Sort(le, a) == Sort(le, b)
  {
    SortKeeps(le, a);
    SortKeeps(le, b);
    SortSorts(le, a);
    SortSorts(le, b);
    SortedUnique(le, Sort(le, a), Sort(le, b));
  }

  lemma {:induction false} InsertAgrees<T>(f: (T, T) -> bool, g: (T, T) -> bool, x: T, s: seq<T>)
    requires forall i :: 0 <= i < |s| ==> f(x, s[i]) == g(x, s[i])
    ensures Insert(f, x, s) == Insert(g, x, s)
  {
    if s != [] && !f(x, s[0]) {
      InsertAgrees(f, g, x, s[1..]);
    }
  }

  /** Comparisons that agree on the elements sort them alike. */
  lemma {:induction false} SortAgrees<T>(f: (T, T) -> bool, g: (T, T) -> bool, s: seq<T>)
    requires forall x, y :: x in s && y in s ==> f(x, y) == g(x, y)
    ensures Sort(f, s) == Sort(g, s)
  {
    if s != [] {
      var front, last := s[..|s| - 1], s[|s| - 1];
      SortAgrees(f, g, front);
      SortKeeps(f, front);
      forall i | 0 <= i < |Sort(f, front)| ensures f(last, Sort(f, front)[i]) == g(last, Sort(f, front)[i]) {
        assert Sort(f, front)[i] in multiset(Sort(f, front));
        assert Sort(f, front)[i] in front;
      }
      InsertAgrees(f, g, last, Sort(f, front));
    }
  }

  // ---------------------------------------------------------------- sorting images

  function Mapped<S, T>(f: S --> T, s: seq<S>): seq<T>
    requires forall x :: x in s ==> f.requires(x)
  {
    seq(|s|, i requires 0 <= i < |s| => f(s[i]))
  }

  lemma InsertMembers<T>(le: (T, T) -> bool, x: T, s: seq<T>, y: T)
    ensures y in Insert(le, x, s) <==> y == x || y in s
  {
    InsertKeeps(le, x, s);
    assert y in Insert(le, x, s) <==> y in multiset(Insert(le, x, s));
  }

  lemma SortMembers<T>(le: (T, T) -> bool, s: seq<T>, y: T)
    ensures y in Sort(le, s) <==> y in s
  {
    SortKeeps(le, s);
    assert y in Sort(le, s) <==> y in multiset(Sort(le, s));
  }

  lemma {:induction false} InsertMaps<S, T>(le: (S, S) -> bool, leT: (T, T) -> bool, f: S --> T, x: S, s: seq<S>)
    requires f.requires(x) && forall y :: y in s ==> f.requires(y)
    requires forall y :: y in s ==> le(x, y) == leT(f(x), f(y))
    ensures forall y :: y in Insert(le, x, s) ==> f.requires(y)
    ensures Insert(leT, f(x), Mapped(f, s)) == Mapped(f, Insert(le, x, s))
  {
    forall y | y in Insert(le, x, s) ensures f.requires(y) {
      InsertMembers(le, x, s, y);
    }
    if s != [] && !le(x, s[0]) {
      InsertMaps(le, leT, f, x, s[1..]);
      assert Mapped(f, s)[1..] == Mapped(f, s[1..]);
      assert Mapped(f, Insert(le, x, s)) == [f(s[0])] + Mapped(f, Insert(le, x, s[1..]));
    } else {
      assert Mapped(f, Insert(le, x, s)) == [f(x)] + Mapped(f, s);
    }
  }

  /** Sorting the images is taking the images of what was sorted. */
  lemma {:induction false} SortMaps<S, T>(le: (S, S) -> bool, leT: (T, T) -> bool, f: S --> T, s: seq<S>)
    requires forall y :: y in s ==> f.requires(y)
    requires forall x, y :: x in s && y in s ==> le(x, y) == leT(f(x), f(y))
    ensures forall y :: y in Sort(le, s) ==> f.requires(y)
    ensures Sort(leT, Mapped(f, s)) == Mapped(f, Sort(le, s))
  {
    if s != [] {
      var front, last := s[..|s| - 1], s[|s| - 1];
      SortMaps(le, leT, f, front);
      assert Mapped(f, s)[..|s| - 1] == Mapped(f, front);
      forall y | y in Sort(le, front) ensures le(last, y) == leT(f(last), f(y)) {
        SortMembers(le, front, y);
        assert y in s;
      }
      InsertMaps(le, leT, f, last, Sort(le, front));
    }
  }

  // ---------------------------------------------------------------- code-point order on strings

  predicate LexLe(a: string, b: string) {
    a == [] || (b != [] && (a[0] < b[0] || (a[0] == b[0] && LexLe(a[1..], b[1..]))))
  }

  lemma {:induction false} LexTotal(a: string, b: string)
    ensures LexLe(a, b) || LexLe(b, a)
  {
    if a != [] && b != [] && a[0] == b[0] {
      LexTotal(a[1..], b[1..]);
    }
  }

  lemma {:induction false} LexTransitive(a: string, b: string, c: string)
    requires LexLe(a, b) && LexLe(b, c)
    ensures LexLe(a, c)
  {
    if a != [] && b != [] && c != [] && a[0] == b[0] == c[0] {
      LexTransitive(a[1..], b[1..], c[1..]);
    }
  }

  lemma {:induction false} LexAntisymmetric(a: string, b: string)
    requires LexLe(a, b) && LexLe(b, a)
    ensures a == b
  {
    if a != [] && b != [] {
      LexAntisymmetric(a[1..], b[1..]);
    }
  }
}
