/** `Array.prototype.sort` with a comparator, as JavaScript engines have
    guaranteed it since ECMAScript 2019: the result is ordered by the
    comparator, is a permutation of the input, and is stable (elements the
    comparator ranks equal keep their relative order). The engine's own
    algorithm is not visible; it is stood for by a stable insertion sort,
    and the three properties above are proved of it. */
module Sorting {

  /** A comparator that is consistent in the sense the sort demands:
      swapping the arguments negates the answer, and "not after" is
      transitive. */
  ghost predicate IsComparator<T(!new)>(cmp: (T, T) -> int)
  {
    (forall a, b :: cmp(a, b) == -cmp(b, a)) &&
    (forall a, b, c :: cmp(a, b) <= 0 && cmp(b, c) <= 0 ==> cmp(a, c) <= 0)
  }

  ghost predicate SortedBy<T>(s: seq<T>, cmp: (T, T) -> int)
  {
    forall i, j :: 0 <= i < j < |s| ==> cmp(s[i], s[j]) <= 0
  }

  ghost predicate StrictlySortedBy<T>(s: seq<T>, cmp: (T, T) -> int)
  {
    forall i, j :: 0 <= i < j < |s| ==> cmp(s[i], s[j]) < 0
  }

  /** The elements of `s` that `cmp` ranks equal to `e`, in their order in `s`. */
  function Equivalents<T>(s: seq<T>, cmp: (T, T) -> int, e: T): seq<T>
  {
    if s == [] then []
    else (if cmp(s[0], e) == 0 then [s[0]] else []) + Equivalents(s[1..], cmp, e)
  }

  /** `r` is what a stable sort of `s` by `cmp` returns. */
  ghost predicate IsStableSortOf<T(!new)>(r: seq<T>, s: seq<T>, cmp: (T, T) -> int)
  {
    multiset(r) == multiset(s) &&
    SortedBy(r, cmp) &&
    forall e :: Equivalents(r, cmp, e) == Equivalents(s, cmp, e)
  }

  /** Places `x` before the first element it does not rank after. */
  function Insert<T>(x: T, s: seq<T>, cmp: (T, T) -> int): (r: seq<T>)
    ensures |r| == |s| + 1
  {
    if s == [] || cmp(x, s[0]) <= 0 then [x] + s
    else [s[0]] + Insert(x, s[1..], cmp)
  }

  function Sort<T>(s: seq<T>, cmp: (T, T) -> int): (r: seq<T>)
    ensures |r| == |s|
  {
    if s == [] then []
    else Insert(s[0], Sort(s[1..], cmp), cmp)
  }

  /** Insertion adds exactly the inserted element. */
  lemma {:induction false} InsertPermutation<T>(x: T, s: seq<T>, cmp: (T, T) -> int)
    ensures multiset(Insert(x, s, cmp)) == multiset(s) + multiset{x}
  {
    if s != [] && cmp(x, s[0]) > 0 {
      InsertPermutation(x, s[1..], cmp);
      assert s == [s[0]] + s[1..];
    }
  }

  /** The sort rearranges its input: nothing is lost or duplicated. */
  lemma {:induction false} SortPermutation<T>(s: seq<T>, cmp: (T, T) -> int)
    ensures multiset(Sort(s, cmp)) == multiset(s)
  {
    if s != [] {
      SortPermutation(s[1..], cmp);
      InsertPermutation(s[0], Sort(s[1..], cmp), cmp);
      assert s == [s[0]] + s[1..];
    }
  }

  /** One step of the sort: the head is inserted into the sorted rest. */
  lemma SortHead<T>(s: seq<T>, cmp: (T, T) -> int)
    requires s != []
    ensures Sort(s, cmp) == Insert(s[0], Sort(s[1..], cmp), cmp)
  {
  }

  /** An element that does not rank after the head is inserted in front. */
  lemma InsertBefore<T>(x: T, s: seq<T>, cmp: (T, T) -> int)
    requires s != [] && cmp(x, s[0]) <= 0
    ensures Insert(x, s, cmp) == [x] + s
  {
  }

  /** An element that ranks after the head is inserted past it. */
  lemma InsertPast<T>(x: T, s: seq<T>, cmp: (T, T) -> int)
    requires s != [] && cmp(x, s[0]) > 0
    ensures Insert(x, s, cmp) == [s[0]] + Insert(x, s[1..], cmp)
  {
  }

  /** The results of `Insert` and `Sort` on sequences of up to four
      elements, given how the elements compare; the seed-catalog listings
      are computed with them. */
  lemma InsertLast<T>(x: T, y: T, cmp: (T, T) -> int)
    requires cmp(x, y) > 0
    ensures Insert(x, [y], cmp) == [y, x]
  {
    assert [y][1..] == [];
  }

  lemma InsertPastTwo<T>(x: T, y: T, z: T, cmp: (T, T) -> int)
    requires cmp(x, y) > 0 && cmp(x, z) > 0
    ensures Insert(x, [y, z], cmp) == [y, z, x]
  {
    InsertPast(x, [y, z], cmp);
    assert [y, z][1..] == [z];
    InsertLast(x, z, cmp);
  }

  lemma SortLast<T>(s: seq<T>, cmp: (T, T) -> int)
    requires |s| == 1
    ensures Sort(s, cmp) == s
  {
    SortHead(s, cmp);
    assert s[1..] == [];
    assert s == [s[0]];
  }

  /** Sorting the last three of four elements when they are in reverse order. */
  lemma SortTailReversed<T>(s: seq<T>, cmp: (T, T) -> int)
    requires |s| == 3 && cmp(s[1], s[2]) > 0 && cmp(s[0], s[2]) > 0 && cmp(s[0], s[1]) > 0
    ensures Sort(s, cmp) == [s[2], s[1], s[0]]
  {
    var t := s[1..];
    SortHead(s, cmp);
    SortHead(t, cmp);
    SortLast(t[1..], cmp);
    assert t[1..] == [s[2]];
    InsertLast(s[1], s[2], cmp);
    InsertPastTwo(s[0], s[2], s[1], cmp);
  }

  lemma SortTailKept<T>(s: seq<T>, cmp: (T, T) -> int)
    requires |s| == 3 && cmp(s[1], s[2]) <= 0 && cmp(s[0], s[1]) <= 0
    ensures Sort(s, cmp) == s
  {
    var t := s[1..];
    SortHead(s, cmp);
    SortHead(t, cmp);
    SortLast(t[1..], cmp);
    assert t[1..] == [s[2]];
    InsertBefore(s[1], [s[2]], cmp);
    assert t == [s[1], s[2]];
    InsertBefore(s[0], t, cmp);
    assert s == [s[0]] + t;
  }

  lemma SortFourFirstThenReversed<T>(s: seq<T>, cmp: (T, T) -> int)
    requires |s| == 4
    requires cmp(s[2], s[3]) > 0 && cmp(s[1], s[3]) > 0 && cmp(s[1], s[2]) > 0 && cmp(s[0], s[3]) <= 0
    ensures Sort(s, cmp) == [s[0], s[3], s[2], s[1]]
  {
    var t := s[1..];
    assert t[0] == s[1] && t[1] == s[2] && t[2] == s[3];
    SortHead(s, cmp);
    SortTailReversed(t, cmp);
    var u := Sort(t, cmp);
    assert u == [s[3], s[2], s[1]];
    InsertBefore(s[0], u, cmp);
    assert [s[0]] + u == [s[0], s[3], s[2], s[1]];
  }

  lemma SortFourLastThenKept<T>(s: seq<T>, cmp: (T, T) -> int)
    requires |s| == 4
    requires cmp(s[2], s[3]) <= 0 && cmp(s[1], s[2]) <= 0
    requires cmp(s[0], s[1]) > 0 && cmp(s[0], s[2]) > 0 && cmp(s[0], s[3]) > 0
    ensures Sort(s, cmp) == [s[1], s[2], s[3], s[0]]
  {
    var t := s[1..];
    assert t[0] == s[1] && t[1] == s[2] && t[2] == s[3];
    SortHead(s, cmp);
    SortTailKept(t, cmp);
    InsertAtEnd(s[0], t, cmp);
    assert t + [s[0]] == [s[1], s[2], s[3], s[0]];
  }

  /** An element ranked after every element of `s` is inserted at the end. */
  lemma {:induction false} InsertAtEnd<T>(x: T, s: seq<T>, cmp: (T, T) -> int)
    requires forall k :: 0 <= k < |s| ==> cmp(x, s[k]) > 0
    ensures Insert(x, s, cmp) == s + [x]
  {
    if s != [] {
      InsertAtEnd(x, s[1..], cmp);
      assert [s[0]] + (s[1..] + [x]) == s + [x];
    }
  }

  /** Two elements the comparator ties stay in their order. */
  lemma SortTwoTied<T>(x: T, y: T, cmp: (T, T) -> int)
    requires cmp(x, y) == 0
    ensures Sort([x, y], cmp) == [x, y]
  {
    assert [x, y][1..] == [y];
    assert [y][1..] == [];
  }

  lemma ComparatorReflexive<T(!new)>(cmp: (T, T) -> int, a: T)
    requires IsComparator(cmp)
    ensures cmp(a, a) == 0
  {
    assert cmp(a, a) == -cmp(a, a);
  }

  /** Putting an element in front of an ordered sequence whose head it
      does not rank after keeps it ordered. */
  lemma PrependSorted<T(!new)>(x: T, s: seq<T>, cmp: (T, T) -> int)
    requires IsComparator(cmp) && SortedBy(s, cmp)
    requires s == [] || cmp(x, s[0]) <= 0
    ensures SortedBy([x] + s, cmp)
  {
    var r := [x] + s;
    forall i, j | 0 <= i < j < |r| ensures cmp(r[i], r[j]) <= 0 {
      if i == 0 {
        assert r[j] == s[j - 1];
        if j > 1 { assert cmp(s[0], s[j - 1]) <= 0; }
      } else {
        assert r[i] == s[i - 1] && r[j] == s[j - 1];
      }
    }
  }

  /** The head of `s` does not rank after anything `x` is inserted among
      the rest of `s`. */
  lemma HeadBeforeInserted<T(!new)>(x: T, s: seq<T>, cmp: (T, T) -> int)
    requires IsComparator(cmp) && SortedBy(s, cmp)
    requires s != [] && cmp(x, s[0]) > 0
    ensures forall y :: y in Insert(x, s[1..], cmp) ==> cmp(s[0], y) <= 0
  {
    InsertPermutation(x, s[1..], cmp);
    forall y | y in Insert(x, s[1..], cmp) ensures cmp(s[0], y) <= 0 {
      assert y in multiset(Insert(x, s[1..], cmp));
      if y == x {
        assert cmp(s[0], x) == -cmp(x, s[0]);
      } else {
        assert y in s[1..];
        var k :| 0 <= k < |s[1..]| && s[1..][k] == y;
        assert s[k + 1] == y;
      }
    }
  }

  /** The rest of an ordered sequence is ordered. */
  lemma TailSorted<T>(s: seq<T>, cmp: (T, T) -> int)
    requires s != [] && SortedBy(s, cmp)
    ensures SortedBy(s[1..], cmp)
  {
    forall i, j | 0 <= i < j < |s[1..]| ensures cmp(s[1..][i], s[1..][j]) <= 0 {
      assert s[1..][i] == s[i + 1] && s[1..][j] == s[j + 1];
    }
  }

  /** An element that ranks before every element of an ordered sequence
      can be put in front of it. */
  lemma ConsSorted<T>(h: T, t: seq<T>, cmp: (T, T) -> int)
    requires SortedBy(t, cmp)
    requires forall y :: y in t ==> cmp(h, y) <= 0
    ensures SortedBy([h] + t, cmp)
  {
    var r := [h] + t;
    forall i, j | 0 <= i < j < |r| ensures cmp(r[i], r[j]) <= 0 {
      if i == 0 {
        assert r[j] == t[j - 1] && t[j - 1] in t;
      } else {
        assert r[i] == t[i - 1] && r[j] == t[j - 1];
      }
    }
  }

  lemma {:induction false} InsertSorted<T(!new)>(x: T, s: seq<T>, cmp: (T, T) -> int)
    requires IsComparator(cmp) && SortedBy(s, cmp)
    ensures SortedBy(Insert(x, s, cmp), cmp)
  {
    if s == [] || cmp(x, s[0]) <= 0 {
      PrependSorted(x, s, cmp);
    } else {
      InsertPast(x, s, cmp);
      TailSorted(s, cmp);
      InsertSorted(x, s[1..], cmp);
      HeadBeforeInserted(x, s, cmp);
      ConsSorted(s[0], Insert(x, s[1..], cmp), cmp);
    }
  }

  lemma {:induction false} SortSorted<T(!new)>(s: seq<T>, cmp: (T, T) -> int)
    requires IsComparator(cmp)
    ensures SortedBy(Sort(s, cmp), cmp)
  {
    if s != [] {
      SortSorted(s[1..], cmp);
      InsertSorted(s[0], Sort(s[1..], cmp), cmp);
    }
  }

  lemma {:induction false} EquivalentsCons<T>(x: T, s: seq<T>, cmp: (T, T) -> int, e: T)
    ensures Equivalents([x] + s, cmp, e) ==
            (if cmp(x, e) == 0 then [x] else []) + Equivalents(s, cmp, e)
  {
    assert ([x] + s)[1..] == s;
  }

  /** Two elements ranked strictly apart are not both tied with a third. */
  lemma NotBothTied<T(!new)>(x: T, y: T, cmp: (T, T) -> int, e: T)
    requires IsComparator(cmp)
    requires cmp(x, y) > 0
    ensures cmp(x, e) != 0 || cmp(y, e) != 0
  {
  }

  /** Inserting `x` keeps the order within every class of equal elements,
      with `x` ahead of the elements of `s` it ties with. */
  lemma {:induction false} InsertStable<T(!new)>(x: T, s: seq<T>, cmp: (T, T) -> int, e: T)
    requires IsComparator(cmp)
    ensures Equivalents(Insert(x, s, cmp), cmp, e) == Equivalents([x] + s, cmp, e)
  {
    if s != [] && cmp(x, s[0]) > 0 {
      InsertPast(x, s, cmp);
      InsertStable(x, s[1..], cmp, e);
      assert s == [s[0]] + s[1..];
      NotBothTied(x, s[0], cmp, e);
      StepPastHead(x, s[0], s[1..], Insert(x, s[1..], cmp), cmp, e);
    }
  }

  /** Moving `x` past a head that is not in the same class of tied
      elements leaves that class in the same order. */
  lemma StepPastHead<T>(x: T, h: T, rest: seq<T>, t: seq<T>, cmp: (T, T) -> int, e: T)
    requires cmp(x, e) != 0 || cmp(h, e) != 0
    requires Equivalents(t, cmp, e) == Equivalents([x] + rest, cmp, e)
    ensures Equivalents([h] + t, cmp, e) == Equivalents([x] + ([h] + rest), cmp, e)
  {
    EquivalentsCons(h, t, cmp, e);
    EquivalentsCons(x, rest, cmp, e);
    EquivalentsCons(x, [h] + rest, cmp, e);
    EquivalentsCons(h, rest, cmp, e);
    var er := Equivalents(rest, cmp, e);
    if cmp(x, e) == 0 {
      assert Equivalents([h] + t, cmp, e) == [x] + er;
    } else if cmp(h, e) == 0 {
      assert Equivalents([h] + t, cmp, e) == [h] + er;
    } else {
      assert Equivalents([h] + t, cmp, e) == er;
    }
  }

  lemma {:induction false} SortStable<T(!new)>(s: seq<T>, cmp: (T, T) -> int, e: T)
    requires IsComparator(cmp)
    ensures Equivalents(Sort(s, cmp), cmp, e) == Equivalents(s, cmp, e)
  {
    if s != [] {
      SortStable(s[1..], cmp, e);
      InsertStable(s[0], Sort(s[1..], cmp), cmp, e);
      EquivalentsCons(s[0], Sort(s[1..], cmp), cmp, e);
    }
  }

  /** The sort meets the three promises of `Array.prototype.sort`. */
  lemma SortIsStableSort<T(!new)>(s: seq<T>, cmp: (T, T) -> int)
    requires IsComparator(cmp)
    ensures IsStableSortOf(Sort(s, cmp), s, cmp)
  {
    SortSorted(s, cmp);
    SortPermutation(s, cmp);
    forall e ensures Equivalents(Sort(s, cmp), cmp, e) == Equivalents(s, cmp, e) {
      SortStable(s, cmp, e);
    }
  }

  /** Two non-empty sequences ordered strictly by the same comparator and
      holding the same elements start with the same element. */
  lemma StrictlySortedSameHead<T(!new)>(a: seq<T>, b: seq<T>, cmp: (T, T) -> int)
    requires IsComparator(cmp)
    requires StrictlySortedBy(a, cmp) && StrictlySortedBy(b, cmp)
    requires multiset(a) == multiset(b) && a != []
    ensures b != [] && a[0] == b[0]
  {
    assert a[0] in multiset(b);
    assert b[0] in multiset(a);
    ComparatorReflexive(cmp, a[0]);
  }

  lemma SameTails<T>(a: seq<T>, b: seq<T>)
    requires a != [] && b != [] && a[0] == b[0]
    requires multiset(a) == multiset(b)
    ensures multiset(a[1..]) == multiset(b[1..])
  {
    assert a == [a[0]] + a[1..] && b == [b[0]] + b[1..];
    forall y ensures multiset(a[1..])[y] == multiset(b[1..])[y] {
      assert multiset(a)[y] == multiset{a[0]}[y] + multiset(a[1..])[y];
      assert multiset(b)[y] == multiset{a[0]}[y] + multiset(b[1..])[y];
    }
  }

  /** Two sequences ordered strictly by the same comparator and holding the
      same elements are equal. */
  lemma {:induction false} StrictlySortedUnique<T(!new)>(a: seq<T>, b: seq<T>, cmp: (T, T) -> int)
    requires IsComparator(cmp)
    requires StrictlySortedBy(a, cmp) && StrictlySortedBy(b, cmp)
    requires multiset(a) == multiset(b)
    ensures a == b
  {
    if a == [] {
      assert |b| == |multiset(b)| == 0;
    } else {
      StrictlySortedSameHead(a, b, cmp);
      var a', b' := a[1..], b[1..];
      SameTails(a, b);
      StrictlySortedUnique(a', b', cmp);
    }
  }

  /** The head of an ordered sequence ranks no later than any of its
      elements. */
  lemma HeadRanksFirst<T(!new)>(s: seq<T>, x: T, cmp: (T, T) -> int)
    requires IsComparator(cmp) && SortedBy(s, cmp) && x in s
    ensures cmp(s[0], x) <= 0
  {
    var k :| 0 <= k < |s| && s[k] == x;
    if k == 0 {
      ComparatorReflexive(cmp, x);
    }
  }

  /** A head tied with `e` is the first of the elements tied with `e`. */
  lemma HeadOfEquivalents<T>(s: seq<T>, cmp: (T, T) -> int, e: T)
    requires s != [] && cmp(s[0], e) == 0
    ensures Equivalents(s, cmp, e) != [] && Equivalents(s, cmp, e)[0] == s[0]
  {
  }

  /** Two ordered arrangements of the same elements that keep every class
      of tied elements in the same order start with the same element. */
  lemma StableSortedSameHead<T(!new)>(r: seq<T>, q: seq<T>, cmp: (T, T) -> int)
    requires IsComparator(cmp) && SortedBy(r, cmp) && SortedBy(q, cmp)
    requires multiset(r) == multiset(q) && r != []
    requires forall e :: Equivalents(r, cmp, e) == Equivalents(q, cmp, e)
    ensures q != [] && r[0] == q[0]
  {
    var x := r[0];
    assert x in multiset(q);
    var y := q[0];
    assert y in multiset(r);
    HeadRanksFirst(q, x, cmp);
    HeadRanksFirst(r, y, cmp);
    assert cmp(y, x) == 0 by {
      assert cmp(y, x) == -cmp(x, y);
    }
    ComparatorReflexive(cmp, x);
    HeadOfEquivalents(r, cmp, x);
    HeadOfEquivalents(q, cmp, x);
    assert Equivalents(r, cmp, x) == Equivalents(q, cmp, x);
  }

  /** Dropping a common head keeps the tied classes of two sequences equal. */
  lemma EquivalentsTails<T>(r: seq<T>, q: seq<T>, cmp: (T, T) -> int, e: T)
    requires r != [] && q != [] && r[0] == q[0]
    requires Equivalents(r, cmp, e) == Equivalents(q, cmp, e)
    ensures Equivalents(r[1..], cmp, e) == Equivalents(q[1..], cmp, e)
  {
    var h := if cmp(r[0], e) == 0 then [r[0]] else [];
    EquivalentsCons(r[0], r[1..], cmp, e);
    EquivalentsCons(q[0], q[1..], cmp, e);
    assert r == [r[0]] + r[1..] && q == [q[0]] + q[1..];
    assert Equivalents(r[1..], cmp, e) == (h + Equivalents(r[1..], cmp, e))[|h|..];
    assert Equivalents(q[1..], cmp, e) == (h + Equivalents(q[1..], cmp, e))[|h|..];
  }

  /** A stable sort by a consistent comparator has only one possible
      result. */
  lemma {:induction false} StableSortsAgree<T(!new)>(r: seq<T>, q: seq<T>, cmp: (T, T) -> int)
    requires IsComparator(cmp) && SortedBy(r, cmp) && SortedBy(q, cmp)
    requires multiset(r) == multiset(q)
    requires forall e :: Equivalents(r, cmp, e) == Equivalents(q, cmp, e)
    ensures r == q
  {
    if r == [] {
      assert |q| == |multiset(q)| == 0;
    } else {
      StableSortedSameHead(r, q, cmp);
      SameTails(r, q);
      TailSorted(r, cmp);
      TailSorted(q, cmp);
      forall e ensures Equivalents(r[1..], cmp, e) == Equivalents(q[1..], cmp, e) {
        EquivalentsTails(r, q, cmp, e);
      }
      StableSortsAgree(r[1..], q[1..], cmp);
    }
  }

  /** Whatever algorithm an engine uses, a stable sort by a consistent
      comparator returns what `Sort` returns. */
  lemma StableSortIsSort<T(!new)>(r: seq<T>, s: seq<T>, cmp: (T, T) -> int)
    requires IsComparator(cmp) && IsStableSortOf(r, s, cmp)
    ensures r == Sort(s, cmp)
  {
    SortIsStableSort(s, cmp);
    StableSortsAgree(r, Sort(s, cmp), cmp);
  }
}
