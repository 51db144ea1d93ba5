/** `sort_by`: the standard library's stable sort, as a function of the comparison, and what makes its
    result the only one possible. */
module StableSort {

  /** `le(a, b)`: the comparison of `a` with `b` does not give `Greater`. */
  function Insert<T>(le: (T, T) -> bool, x: T, s: seq<T>): seq<T> {
    if s == [] || le(x, s[0]) then [x] + s else [s[0]] + Insert(le, x, s[1..])
  }

  function Sort<T>(le: (T, T) -> bool, s: seq<T>): seq<T> {
    if s == [] then [] else Insert(le, s[0], Sort(le, s[1..]))
  }

  ghost predicate PreorderOn<T>(le: (T, T) -> bool, s: seq<T>) {
    && (forall a, b :: a in s && b in s ==> le(a, b) || le(b, a))
    && (forall a, b, c :: a in s && b in s && c in s && le(a, b) && le(b, c) ==> le(a, c))
  }

  ghost predicate AntisymmetricOn<T>(le: (T, T) -> bool, s: seq<T>) {
    forall a, b :: a in s && b in s && le(a, b) && le(b, a) ==> a == b
  }

  ghost predicate Sorted<T>(le: (T, T) -> bool, s: seq<T>) {
    forall i, j :: 0 <= i < j < |s| ==> le(s[i], s[j])
  }

  /** The elements that the comparison cannot tell from `p`, in their order. */
  function Ties<T>(le: (T, T) -> bool, p: T, s: seq<T>): seq<T> {
    if s == [] then []
    else (if le(p, s[0]) && le(s[0], p) then [s[0]] else []) + Ties(le, p, s[1..])
  }

  /** `r` is `s` put in order, elements that tie keeping their order. */
  ghost predicate IsStableSortOf<T>(le: (T, T) -> bool, r: seq<T>, s: seq<T>) {
    && multiset(r) == multiset(s)
    && Sorted(le, r)
    && forall p :: p in s ==> Ties(le, p, r) == Ties(le, p, s)
  }

  // --- the sort is a stable sort ---

  lemma {:induction false} InsertKeepsElements<T>(le: (T, T) -> bool, x: T, s: seq<T>)
    ensures multiset(Insert(le, x, s)) == multiset{x} + multiset(s)
    ensures |Insert(le, x, s)| == |s| + 1
  {
    if !(s == [] || le(x, s[0])) {
      InsertKeepsElements(le, x, s[1..]);
      assert s == [s[0]] + s[1..];
    }
  }

  lemma {:induction false} SortIsPermutation<T>(le: (T, T) -> bool, s: seq<T>)
    ensures multiset(Sort(le, s)) == multiset(s)
    ensures |Sort(le, s)| == |s|
  {
    if s != [] {
      SortIsPermutation(le, s[1..]);
      InsertKeepsElements(le, s[0], Sort(le, s[1..]));
      assert s == [s[0]] + s[1..];
    }
  }

  lemma SameElements<T>(a: seq<T>, b: seq<T>)
    requires multiset(a) == multiset(b)
    ensures forall x :: x in a <==> x in b
  {
    assert forall x :: x in a <==> x in multiset(a);
    assert forall x :: x in b <==> x in multiset(b);
  }

  lemma {:induction false} InsertKeepsSorted<T>(le: (T, T) -> bool, x: T, s: seq<T>)
    requires PreorderOn(le, [x] + s) && Sorted(le, s)
    ensures Sorted(le, Insert(le, x, s))
  {
    assert x in [x] + s && forall y :: y in s ==> y in [x] + s;
    if !(s == [] || le(x, s[0])) {
      assert forall y :: y in [x] + s[1..] ==> y in [x] + s;
      InsertKeepsSorted(le, x, s[1..]);
      var t := Insert(le, x, s[1..]);
      InsertKeepsElements(le, x, s[1..]);
      forall j | 0 <= j < |t|
        ensures le(s[0], t[j])
      {
        assert t[j] in multiset(t);
        assert t[j] == x || t[j] in multiset(s[1..]);
      }
    }
  }

  lemma {:induction false} SortIsSorted<T>(le: (T, T) -> bool, s: seq<T>)
    requires PreorderOn(le, s)
    ensures Sorted(le, Sort(le, s))
  {
    if s != [] {
      SortIsSorted(le, s[1..]);
      SortIsPermutation(le, s[1..]);
      var t := Sort(le, s[1..]);
      forall y | y in t
        ensures y in s[1..]
      {
        assert y in multiset(t);
      }
      assert forall y :: y in s[1..] ==> y in s;
      assert forall y :: y in [s[0]] + t ==> y == s[0] || y in t;
      InsertKeepsSorted(le, s[0], Sort(le, s[1..]));
    }
  }

  lemma {:induction false} InsertKeepsTies<T>(le: (T, T) -> bool, p: T, x: T, s: seq<T>)
    requires PreorderOn(le, [p, x] + s)
    ensures Ties(le, p, Insert(le, x, s)) == Ties(le, p, [x] + s)
  {
    if !(s == [] || le(x, s[0])) {
      assert forall y :: y in [p, x] + s[1..] ==> y in [p, x] + s;
      InsertKeepsTies(le, p, x, s[1..]);
      var t := Insert(le, x, s);
      assert t[1..] == Insert(le, x, s[1..]);
      assert ([x] + s)[1..] == s && ([x] + s[1..])[1..] == s[1..];
      assert p in [p, x] + s && x in [p, x] + s && s[0] in [p, x] + s;
    }
  }

  lemma {:induction false} SortKeepsTies<T>(le: (T, T) -> bool, p: T, s: seq<T>)
    requires PreorderOn(le, [p] + s)
    ensures Ties(le, p, Sort(le, s)) == Ties(le, p, s)
  {
    if s != [] {
      assert forall y :: y in [p] + s[1..] ==> y in [p] + s;
      SortKeepsTies(le, p, s[1..]);
      var t := Sort(le, s[1..]);
      SortIsPermutation(le, s[1..]);
      forall y | y in t
        ensures y in s[1..]
      {
        assert y in multiset(t);
      }
      assert forall y :: y in s[1..] ==> y in s;
      assert forall y :: y in [p, s[0]] + t ==> y == p || y == s[0] || y in t;
      InsertKeepsTies(le, p, s[0], t);
      assert ([s[0]] + t)[1..] == t;
    }
  }

  /** On a total preorder the sort puts in order, keeps the elements and keeps ties in place. */
  lemma SortIsStableSort<T>(le: (T, T) -> bool, s: seq<T>)
    requires PreorderOn(le, s)
    ensures IsStableSortOf(le, Sort(le, s), s)
  {
    SortIsPermutation(le, s);
    SortIsSorted(le, s);
    forall p | p in s
      ensures Ties(le, p, Sort(le, s)) == Ties(le, p, s)
    {
      assert forall y :: y in [p] + s ==> y in s;
      SortKeepsTies(le, p, s);
    }
  }

  // --- there is no other ---

  lemma FirstOfStableSorts<T>(le: (T, T) -> bool, a: seq<T>, b: seq<T>)
    requires PreorderOn(le, a) && multiset(a) == multiset(b) && Sorted(le, a) && Sorted(le, b) && a != []
    requires forall p :: p in a ==> Ties(le, p, a) == Ties(le, p, b)
    ensures b != [] && a[0] == b[0]
  {
    assert |multiset(a)| == |a| && |multiset(b)| == |b|;
    SameElements(a, b);
    var p := a[0];
    assert p in a && b[0] in b;
    var i :| 0 <= i < |a| && a[i] == b[0];
    var j :| 0 <= j < |b| && b[j] == p;
    assert le(p, p) && le(b[0], b[0]);
    assert le(p, b[0]) && le(b[0], p);
    assert Ties(le, p, a)[0] == a[0] && Ties(le, p, b)[0] == b[0];
  }

  /** Two stable sorts of the same elements are equal. */
  lemma {:induction false} StableSortsAreEqual<T>(le: (T, T) -> bool, a: seq<T>, b: seq<T>)
    requires PreorderOn(le, a) && multiset(a) == multiset(b) && Sorted(le, a) && Sorted(le, b)
    requires forall p :: p in a ==> Ties(le, p, a) == Ties(le, p, b)
    ensures a == b
  {
    assert |multiset(a)| == |a| && |multiset(b)| == |b|;
    if a != [] {
      FirstOfStableSorts(le, a, b);
      assert a == [a[0]] + a[1..] && b == [b[0]] + b[1..];
      assert multiset(a[1..]) == multiset(a) - multiset{a[0]};
      assert multiset(b[1..]) == multiset(b) - multiset{b[0]};
      forall p | p in a[1..]
        ensures Ties(le, p, a[1..]) == Ties(le, p, b[1..])
      {
        assert p in a;
        var tie: seq<T> := if le(p, a[0]) && le(a[0], p) then [a[0]] else [];
        assert Ties(le, p, a) == tie + Ties(le, p, a[1..]);
        assert Ties(le, p, b) == tie + Ties(le, p, b[1..]);
        assert Ties(le, p, a[1..]) == Ties(le, p, a)[|tie|..];
      }
      StableSortsAreEqual(le, a[1..], b[1..]);
    }
  }

  /** On a total preorder, a stable sort of `s` is what `Sort` gives, and nothing else. */
  lemma SortIsTheStableSort<T>(le: (T, T) -> bool, s: seq<T>, r: seq<T>)
    requires PreorderOn(le, s)
    ensures IsStableSortOf(le, r, s) <==> r == Sort(le, s)
  {
    SortIsStableSort(le, s);
    if IsStableSortOf(le, r, s) {
      SameElements(r, s);
      StableSortsAreEqual(le, r, Sort(le, s));
    }
  }

  lemma {:induction false} SortedTiesAreAll<T>(le: (T, T) -> bool, p: T, a: seq<T>, b: seq<T>)
    requires AntisymmetricOn(le, a + b + [p]) && multiset(a) == multiset(b)
    ensures Ties(le, p, a) == Ties(le, p, b)
  {
    TiesAreCopies(le, p, a);
    TiesAreCopies(le, p, b);
    assert forall x :: x in a || x in b || x == p ==> x in a + b + [p];
    TiesCount(le, p, a);
    TiesCount(le, p, b);
  }

  lemma {:induction false} TiesAreCopies<T>(le: (T, T) -> bool, p: T, s: seq<T>)
    ensures forall i :: 0 <= i < |Ties(le, p, s)| ==>
              Ties(le, p, s)[i] in s && le(p, Ties(le, p, s)[i]) && le(Ties(le, p, s)[i], p)
  {
    if s != [] { TiesAreCopies(le, p, s[1..]); }
  }

  lemma {:induction false} TiesCount<T>(le: (T, T) -> bool, p: T, s: seq<T>)
    requires forall y :: y in s && le(p, y) && le(y, p) ==> y == p
    ensures |Ties(le, p, s)| == if le(p, p) then multiset(s)[p] else 0
  {
    if s != [] {
      TiesCount(le, p, s[1..]);
      assert s == [s[0]] + s[1..];
    }
  }

  /** On a total order the result depends only on which elements there are. */
  lemma SortForgetsOrder<T>(le: (T, T) -> bool, a: seq<T>, b: seq<T>)
    requires PreorderOn(le, a) && AntisymmetricOn(le, a) && multiset(a) == multiset(b)
    ensures Sort(le, a) == Sort(le, b)
  {
    SameElements(a, b);
    SortIsStableSort(le, a);
    SortIsStableSort(le, b);
    var (x, y) := (Sort(le, a), Sort(le, b));
    SameElements(x, a);
    SameElements(y, b);
    hide Sort, Ties;
    forall p | p in x
      ensures Ties(le, p, x) == Ties(le, p, y)
    {
      assert forall z :: z in x + y + [p] ==> z in a;
      SortedTiesAreAll(le, p, x, y);
    }
    StableSortsAreEqual(le, x, y);
  }

  lemma {:induction false} SortOfSorted<T>(le: (T, T) -> bool, s: seq<T>)
    requires Sorted(le, s)
    ensures Sort(le, s) == s
  {
    if s != [] {
      SortOfSorted(le, s[1..]);
      assert s == [s[0]] + s[1..];
    }
  }

  // --- permutations under a function ---

  function Map<T, U>(f: T -> U, s: seq<T>): (r: seq<U>)
    ensures |r| == |s|
  {
    if s == [] then [] else [f(s[0])] + Map(f, s[1..])
  }

  lemma {:induction false} MapAt<T, U>(f: T -> U, s: seq<T>)
    ensures forall i :: 0 <= i < |s| ==> Map(f, s)[i] == f(s[i])
  {
    if s != [] { MapAt(f, s[1..]); }
  }

  lemma {:induction false} MapAppend<T, U>(f: T -> U, s: seq<T>, x: T)
    ensures Map(f, s + [x]) == Map(f, s) + [f(x)]
  {
    if s != [] {
      assert (s + [x])[1..] == s[1..] + [x];
      MapAppend(f, s[1..], x);
    }
  }

  lemma TakeOut<T>(s: seq<T>, i: nat)
    requires i < |s|
    ensures multiset(s) == multiset(s[..i] + s[i + 1..]) + multiset{s[i]}
  {
    assert s == s[..i] + [s[i]] + s[i + 1..];
  }

  lemma {:induction false} MapTakeOut<T, U>(f: T -> U, s: seq<T>, i: nat)
    requires i < |s|
    ensures multiset(Map(f, s)) == multiset(Map(f, s[..i] + s[i + 1..])) + multiset{f(s[i])}
  {
    MapAt(f, s);
    MapAt(f, s[..i] + s[i + 1..]);
    TakeOut(Map(f, s), i);
    assert Map(f, s)[..i] + Map(f, s)[i + 1..] == Map(f, s[..i] + s[i + 1..]);
  }

  lemma CancelOne<T>(x: multiset<T>, y: multiset<T>, e: T)
    requires x + multiset{e} == y + multiset{e}
    ensures x == y
  {
    assert x == (x + multiset{e}) - multiset{e} && y == (y + multiset{e}) - multiset{e};
  }

  /** A function takes a permutation to a permutation. */
  lemma {:induction false} MapOfPermutation<T, U>(f: T -> U, a: seq<T>, b: seq<T>)
    requires multiset(a) == multiset(b)
    ensures multiset(Map(f, a)) == multiset(Map(f, b))
    decreases |a|
  {
    if a != [] {
      var i := FirstElsewhere(a, b);
      MapOfPermutation(f, a[..0] + a[1..], b[..i] + b[i + 1..]);
      MapTakeOut(f, a, 0);
      MapTakeOut(f, b, i);
    } else {
      assert |multiset(a)| == |a| && |multiset(b)| == |b|;
    }
  }

  /** Where the first element of one permutation stands in the other. */
  lemma FirstElsewhere<T>(a: seq<T>, b: seq<T>) returns (i: nat)
    requires a != [] && multiset(a) == multiset(b)
    ensures i < |b| && b[i] == a[0]
    ensures multiset(a[..0] + a[1..]) == multiset(b[..i] + b[i + 1..])
  {
    assert a[0] in multiset(a);
    assert a[0] in multiset(b);
    i :| 0 <= i < |b| && b[i] == a[0];
    TakeOut(a, 0);
    TakeOut(b, i);
    CancelOne(multiset(a[..0] + a[1..]), multiset(b[..i] + b[i + 1..]), a[0]);
  }
}
