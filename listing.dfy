/** The listing query of the in-memory store: the title filter, the sort
    token, the random partial shuffle, the newest-first slice, the page
    cap and the public projection, composed into `ListingOf`, which
    specifies what `PictureStore.ListPictures` returns. */
module Listing {
  import opened Strings
  import opened Sorting
  import opened Pictures

  function Min(a: int, b: int): int
  {
    if a < b then a else b
  }

  /** Whether a record passes the title filter. A filter that is absent
      or empty (falsy in JavaScript) lets every record through. */
  predicate Matches(p: Picture, title: Option<string>)
  {
    title.None? || title.value == [] || Includes(p.title, title.value)
  }

  /** `filter((item) => item.title.includes(t))`. */
  function KeepIncluding(s: seq<Picture>, t: string): (r: seq<Picture>)
    ensures |r| <= |s|
    ensures forall k :: 0 <= k < |r| ==> Includes(r[k].title, t)
  {
    if s == [] then []
    else (if Includes(s[0].title, t) then [s[0]] else []) + KeepIncluding(s[1..], t)
  }

  /** The filtering step of the listing: applied only when the filter is truthy. */
  function Filtered(s: seq<Picture>, title: Option<string>): (r: seq<Picture>)
    ensures |r| <= |s|
    ensures forall k :: 0 <= k < |r| ==> Matches(r[k], title)
  {
    if title.Some? && title.value != [] then KeepIncluding(s, title.value) else s
  }

  /** The filter keeps every copy of a record whose title includes `t` and
      drops every other record. */
  lemma {:induction false} KeepIncludingCounts(s: seq<Picture>, t: string)
    ensures forall p :: multiset(KeepIncluding(s, t))[p] ==
                        if Includes(p.title, t) then multiset(s)[p] else 0
  {
    if s != [] {
      KeepIncludingCounts(s[1..], t);
      assert s == [s[0]] + s[1..];
    }
  }

  lemma FilteredCounts(s: seq<Picture>, title: Option<string>)
    ensures forall p :: multiset(Filtered(s, title))[p] ==
                        if Matches(p, title) then multiset(s)[p] else 0
  {
    if title.Some? && title.value != [] {
      KeepIncludingCounts(s, title.value);
    }
  }

  lemma {:induction false} KeepIncludingAppend(a: seq<Picture>, b: seq<Picture>, t: string)
    ensures KeepIncluding(a + b, t) == KeepIncluding(a, t) + KeepIncluding(b, t)
  {
    if a != [] {
      assert (a + b)[0] == a[0] && (a + b)[1..] == a[1..] + b;
      KeepIncludingAppend(a[1..], b, t);
      var head := if Includes(a[0].title, t) then [a[0]] else [];
      assert KeepIncluding(a + b, t) == head + KeepIncluding(a[1..] + b, t);
      assert KeepIncluding(a, t) == head + KeepIncluding(a[1..], t);
    } else {
      assert a + b == b;
    }
  }

  /** Filtering keeps the catalog order: it distributes over concatenation. */
  lemma FilteredAppend(a: seq<Picture>, b: seq<Picture>, title: Option<string>)
    ensures Filtered(a + b, title) == Filtered(a, title) + Filtered(b, title)
  {
    if title.Some? && title.value != [] {
      KeepIncludingAppend(a, b, title.value);
    }
  }

  /** The orderings a sort token can select. */
  datatype Order = TitleAscending | TitleDescending | Shuffle | OldestFirst | NewestFirst

  /** The `switch` on the sort token; anything else, absent included,
      falls through to newest first. */
  function ResolveOrder(sort: Option<string>): Order
  {
    if sort == Some("asc") || sort == Some("a2z") then TitleAscending
    else if sort == Some("desc") || sort == Some("z2a") then TitleDescending
    else if sort == Some("random") || sort == Some("rnd") then Shuffle
    else if sort == Some("old") then OldestFirst
    else NewestFirst
  }

  function Reverse<T>(s: seq<T>): (r: seq<T>)
    ensures |r| == |s|
    ensures forall k :: 0 <= k < |s| ==> r[k] == s[|s| - 1 - k]
  {
    if s == [] then [] else Reverse(s[1..]) + [s[0]]
  }

  /** `slice(-LIMIT).reverse()`: the last `LIMIT` elements, last first. */
  function LatestReversed<T>(s: seq<T>): (r: seq<T>)
    ensures |r| == Min(LIMIT, |s|)
    ensures forall k :: 0 <= k < |r| ==> r[k] == s[|s| - 1 - k]
  {
    var start := if |s| > LIMIT then |s| - LIMIT else 0;
    var t := s[start..];
    Reverse(t)
  }

  /** Truncation of the listing to its first `LIMIT` records, when it is longer. */
  function Cap<T>(s: seq<T>): seq<T>
  {
    if |s| > LIMIT then s[..LIMIT] else s
  }

  /** Cutting the last `LIMIT` off and reversing them is the same as
      reversing everything and keeping the first `LIMIT`. */
  lemma LatestReversedIsCappedReverse<T>(s: seq<T>)
    ensures LatestReversed(s) == Cap(Reverse(s))
  {
    var l, r := LatestReversed(s), Reverse(s);
    forall k | 0 <= k < |l| ensures l[k] == Cap(r)[k] {
      assert Cap(r)[k] == r[k];
    }
  }

  /** `draws` holds at least `n` values of `Math.random()`, each in [0, 1). */
  predicate AreDraws(draws: seq<real>, n: nat)
  {
    |draws| >= n && forall k :: 0 <= k < |draws| ==> 0.0 <= draws[k] < 1.0
  }

  /** `Math.floor(Math.random() * arr.length)`. */
  function RandomIndex(x: real, len: nat): (i: nat)
    requires 0.0 <= x < 1.0 && len > 0
    ensures i < len
  {
    assert 0.0 <= x * len as real < len as real;
    (x * len as real).Floor
  }

  function Swap<T>(s: seq<T>, i: nat, j: nat): (r: seq<T>)
    requires i < |s| && j < |s|
    ensures |r| == |s| && r[i] == s[j] && r[j] == s[i]
    ensures forall k :: 0 <= k < |s| && k != i && k != j ==> r[k] == s[k]
  {
    s[i := s[j]][j := s[i]]
  }

  /** Exchanging two positions rearranges the sequence. */
  lemma SwapPermutation<T>(s: seq<T>, i: nat, j: nat)
    requires i < |s| && j < |s|
    ensures multiset(Swap(s, i, j)) == multiset(s)
  {
  }

  /** The number of positions `randomizeArrayStart(arr, n)` fills: `n`,
      but no more than the array holds and none when `n` is not positive. */
  function StartCount(n: int, len: nat): (c: nat)
    ensures c <= len
  {
    if n > len then len else if n < 0 then 0 else n
  }

  /** What `randomizeArrayStart` leaves in an array holding `s` once `n`
      positions remain to be filled: position `n - 1` is swapped with the
      one the next draw picks, and so on down to position 0. */
  function Shuffled<T>(s: seq<T>, n: nat, draws: seq<real>): (r: seq<T>)
    requires n <= |s| && AreDraws(draws, n)
    ensures |r| == |s|
    decreases n
  {
    if n == 0 then s
    else Shuffled(Swap(s, n - 1, RandomIndex(draws[0], |s|)), n - 1, draws[1..])
  }

  /** The partial shuffle rearranges the sequence: nothing is lost or
      duplicated. */
  lemma {:induction false} ShuffledPermutation<T>(s: seq<T>, n: nat, draws: seq<real>)
    requires n <= |s| && AreDraws(draws, n)
    ensures multiset(Shuffled(s, n, draws)) == multiset(s)
    decreases n
  {
    if n > 0 {
      var t := Swap(s, n - 1, RandomIndex(draws[0], |s|));
      SwapPermutation(s, n - 1, RandomIndex(draws[0], |s|));
      ShuffledPermutation(t, n - 1, draws[1..]);
    }
  }

  /** One turn of the loop: after swapping position `left - 1` with the
      position the next draw picks, the remaining turns use the remaining
      draws and lead to the same final arrangement. */
  lemma ShuffledStep<T>(before: seq<T>, after: seq<T>, left: nat, draws: seq<real>, used: nat)
    requires 0 < left <= |before| && used <= |draws| && AreDraws(draws[used..], left)
    requires after == Swap(before, left - 1, RandomIndex(draws[used], |before|))
    ensures AreDraws(draws[used + 1..], left - 1)
    ensures Shuffled(after, left - 1, draws[used + 1..]) == Shuffled(before, left, draws[used..])
  {
    assert draws[used..][1..] == draws[used + 1..];
  }

  /** Exchanges positions `i` and `j` of the array through a temporary. */
  method SwapElements<T>(arr: array<T>, i: nat, j: nat)
    requires i < arr.Length && j < arr.Length
    modifies arr
    ensures arr[..] == Swap(old(arr[..]), i, j)
  {
    var held := arr[i];
    arr[i] := arr[j];
    arr[j] := held;
  }

  /** `randomizeArrayStart(arr, n)`: swaps each of the first `n` positions,
      from the last down, with a position drawn at random from the whole
      array, in place. */
  method RandomizeArrayStart<T>(arr: array<T>, n: int, draws: seq<real>)
    requires AreDraws(draws, StartCount(n, arr.Length))
    modifies arr
    ensures arr[..] == Shuffled(old(arr[..]), StartCount(n, arr.Length), draws)
  {
    var m := n;
    if m > arr.Length {
      m := arr.Length;
    }
    ghost var total := StartCount(n, arr.Length);
    ghost var left: nat := total;
    var used := 0;
    assert draws[0..] == draws;
    while m > 0
      invariant m <= arr.Length && left == (if m > 0 then m else 0) && used + left == total
      invariant AreDraws(draws[used..], left)
      invariant Shuffled(arr[..], left, draws[used..]) == Shuffled(old(arr[..]), total, draws)
    {
      ghost var before := arr[..];
      m := m - 1;
      var i := RandomIndex(draws[used], arr.Length);
      SwapElements(arr, m, i);
      ShuffledStep(before, arr[..], left, draws, used);
      used := used + 1;
      left := left - 1;
    }
  }

  /** The order the sort token selects, applied to the filtered records. */
  function Arrange(f: seq<Picture>, order: Order, draws: seq<real>): seq<Picture>
    requires AreDraws(draws, LIMIT)
  {
    match order
    case TitleAscending => Sort(f, TitleAsc)
    case TitleDescending => Sort(f, TitleDesc)
    case Shuffle => Shuffled(f, StartCount(LIMIT, |f|), draws)
    case OldestFirst => f
    case NewestFirst => LatestReversed(f)
  }

  /** The result of `listPictures(title, sort)` on `catalog`, the random
      draws taken from `draws`. */
  function ListingOf(catalog: seq<Picture>, title: Option<string>, sort: Option<string>,
                     draws: seq<real>): (r: seq<PublicPicture>)
    requires AreDraws(draws, LIMIT)
    ensures |r| == Min(LIMIT, |Filtered(catalog, title)|)
  {
    Project(Cap(Arrange(Filtered(catalog, title), ResolveOrder(sort), draws)))
  }

  /** A rearrangement holds no element the original lacks. */
  lemma SameElements<T>(a: seq<T>, b: seq<T>)
    requires multiset(a) == multiset(b)
    ensures forall x :: x in a ==> x in b
  {
    forall x | x in a ensures x in b {
      assert x in multiset(a);
    }
  }

  /** The newest-first slice holds only elements of its input. */
  lemma LatestReversedFrom<T>(f: seq<T>)
    ensures forall x :: x in LatestReversed(f) ==> x in f
  {
    var a := LatestReversed(f);
    forall x | x in a ensures x in f {
      var k :| 0 <= k < |a| && a[k] == x;
      assert x == f[|f| - 1 - k];
    }
  }

  /** Every ordering draws its records from the filtered ones. */
  lemma ArrangeDrawsFrom(f: seq<Picture>, order: Order, draws: seq<real>)
    requires AreDraws(draws, LIMIT)
    ensures forall x :: x in Arrange(f, order, draws) ==> x in f
  {
    match order
    case TitleAscending =>
      SortPermutation(f, TitleAsc);
      SameElements(Sort(f, TitleAsc), f);
    case TitleDescending =>
      SortPermutation(f, TitleDesc);
      SameElements(Sort(f, TitleDesc), f);
    case Shuffle =>
      ShuffledPermutation(f, StartCount(LIMIT, |f|), draws);
      SameElements(Shuffled(f, StartCount(LIMIT, |f|), draws), f);
    case OldestFirst =>
    case NewestFirst =>
      LatestReversedFrom(f);
  }

  /** Every listed record is the public view of a catalog record that
      passes the filter. */
  lemma ListingFromCatalog(catalog: seq<Picture>, title: Option<string>, sort: Option<string>,
                           draws: seq<real>)
    requires AreDraws(draws, LIMIT)
    ensures forall k :: 0 <= k < |ListingOf(catalog, title, sort, draws)| ==>
              exists p :: p in catalog && Matches(p, title) &&
                          ListingOf(catalog, title, sort, draws)[k] == Public(p)
  {
    var f := Filtered(catalog, title);
    var a := Arrange(f, ResolveOrder(sort), draws);
    ArrangeDrawsFrom(f, ResolveOrder(sort), draws);
    FilteredCounts(catalog, title);
    forall k | 0 <= k < |ListingOf(catalog, title, sort, draws)|
      ensures exists p :: p in catalog && Matches(p, title) &&
                          ListingOf(catalog, title, sort, draws)[k] == Public(p)
    {
      var p := Cap(a)[k];
      assert p in a;
      assert p in f;
      assert multiset(f)[p] > 0;
      assert p in multiset(catalog);
    }
  }

  /** `asc` and `a2z` list records stably sorted by `titleAsc`: titles come
      in ascending order, and the listing is the first page of a stable sort
      of the filtered records. */
  lemma AscendingListing(catalog: seq<Picture>, title: Option<string>, sort: Option<string>,
                         draws: seq<real>)
    requires AreDraws(draws, LIMIT)
    requires ResolveOrder(sort) == TitleAscending
    ensures var r := ListingOf(catalog, title, sort, draws);
            forall i, j :: 0 <= i < j < |r| ==> !Less(r[j].title, r[i].title)
    ensures exists ordered :: IsStableSortOf(ordered, Filtered(catalog, title), TitleAsc) &&
                              ListingOf(catalog, title, sort, draws) == Project(Cap(ordered))
  {
    var f := Filtered(catalog, title);
    var ordered := Sort(f, TitleAsc);
    TitleAscIsComparator();
    SortIsStableSort(f, TitleAsc);
    var r := ListingOf(catalog, title, sort, draws);
    forall i, j | 0 <= i < j < |r| ensures !Less(r[j].title, r[i].title) {
      assert TitleAsc(ordered[i], ordered[j]) <= 0;
      TitleAscMeaning(ordered[i], ordered[j]);
    }
  }

  /** `desc` and `z2a` list records stably sorted by `titleDesc`: titles
      come in descending order. */
  lemma DescendingListing(catalog: seq<Picture>, title: Option<string>, sort: Option<string>,
                          draws: seq<real>)
    requires AreDraws(draws, LIMIT)
    requires ResolveOrder(sort) == TitleDescending
    ensures var r := ListingOf(catalog, title, sort, draws);
            forall i, j :: 0 <= i < j < |r| ==> !Less(r[i].title, r[j].title)
    ensures exists ordered :: IsStableSortOf(ordered, Filtered(catalog, title), TitleDesc) &&
                              ListingOf(catalog, title, sort, draws) == Project(Cap(ordered))
  {
    var f := Filtered(catalog, title);
    var ordered := Sort(f, TitleDesc);
    TitleDescIsComparator();
    SortIsStableSort(f, TitleDesc);
    var r := ListingOf(catalog, title, sort, draws);
    forall i, j | 0 <= i < j < |r| ensures !Less(r[i].title, r[j].title) {
      assert TitleDesc(ordered[i], ordered[j]) <= 0;
      TitleDescSwapsAsc(ordered[i], ordered[j]);
      TitleAscMeaning(ordered[j], ordered[i]);
    }
  }

  /** Whatever stable algorithm sorts the filtered records by `titleAsc`,
      `asc` and `a2z` list the first page of its result. */
  lemma AscendingByAnyStableSort(catalog: seq<Picture>, title: Option<string>,
                                 sort: Option<string>, draws: seq<real>, ordered: seq<Picture>)
    requires AreDraws(draws, LIMIT)
    requires ResolveOrder(sort) == TitleAscending
    requires IsStableSortOf(ordered, Filtered(catalog, title), TitleAsc)
    ensures ListingOf(catalog, title, sort, draws) == Project(Cap(ordered))
  {
    TitleAscIsComparator();
    StableSortIsSort(ordered, Filtered(catalog, title), TitleAsc);
  }

  /** Whatever stable algorithm sorts the filtered records by `titleDesc`,
      `desc` and `z2a` list the first page of its result. */
  lemma DescendingByAnyStableSort(catalog: seq<Picture>, title: Option<string>,
                                  sort: Option<string>, draws: seq<real>, ordered: seq<Picture>)
    requires AreDraws(draws, LIMIT)
    requires ResolveOrder(sort) == TitleDescending
    requires IsStableSortOf(ordered, Filtered(catalog, title), TitleDesc)
    ensures ListingOf(catalog, title, sort, draws) == Project(Cap(ordered))
  {
    TitleDescIsComparator();
    StableSortIsSort(ordered, Filtered(catalog, title), TitleDesc);
  }

  /** No two records of `s` share a title. */
  predicate DistinctTitles(s: seq<Picture>)
  {
    forall i, j :: 0 <= i < j < |s| ==> s[i].title != s[j].title
  }

  /** Two positions holding the same element count it twice. */
  lemma TwoCopies<T>(s: seq<T>, i: nat, j: nat)
    requires i < j < |s| && s[i] == s[j]
    ensures multiset(s)[s[i]] >= 2
  {
    assert s == s[..j] + s[j..];
    assert s[i] in s[..j];
    assert s[j] == s[j..][0];
  }

  /** An element counted twice sits at two positions. */
  lemma FromTwoCopies<T>(s: seq<T>, x: T) returns (i: nat, j: nat)
    requires multiset(s)[x] >= 2
    ensures i < j < |s| && s[i] == x && s[j] == x
  {
    assert x in multiset(s);
    var k :| 0 <= k < |s| && s[k] == x;
    assert s == s[..k] + [s[k]] + s[k + 1..];
    assert multiset(s)[x] == multiset(s[..k])[x] + 1 + multiset(s[k + 1..])[x];
    if x in s[..k] {
      i :| 0 <= i < k && s[..k][i] == x;
      j := k;
    } else {
      assert x in multiset(s[k + 1..]);
      var m :| 0 <= m < |s| - k - 1 && s[k + 1..][m] == x;
      i, j := k, k + 1 + m;
    }
  }

  /** Two positions of `b` never share a title when `b` rearranges `a`. */
  lemma DistinctPair(a: seq<Picture>, b: seq<Picture>, i: nat, j: nat)
    requires multiset(a) == multiset(b) && DistinctTitles(a)
    requires i < j < |b|
    ensures b[i].title != b[j].title
  {
    assert b[i] in multiset(a) && b[j] in multiset(a);
    var m :| 0 <= m < |a| && a[m] == b[i];
    var m2 :| 0 <= m2 < |a| && a[m2] == b[j];
    if m == m2 {
      TwoCopies(b, i, j);
      var k, k2 := FromTwoCopies(a, b[i]);
    }
  }

  /** Rearranging records keeps their titles distinct. */
  lemma PermutationKeepsDistinctTitles(a: seq<Picture>, b: seq<Picture>)
    requires multiset(a) == multiset(b) && DistinctTitles(a)
    ensures DistinctTitles(b)
  {
    forall i, j | 0 <= i < j < |b| ensures b[i].title != b[j].title {
      DistinctPair(a, b, i, j);
    }
  }

  lemma {:induction false} ReversePermutation<T>(s: seq<T>)
    ensures multiset(Reverse(s)) == multiset(s)
  {
    if s != [] {
      ReversePermutation(s[1..]);
      assert s == [s[0]] + s[1..];
    }
  }

  lemma ProjectReverse(s: seq<Picture>)
    ensures Project(Reverse(s)) == Reverse(Project(s))
  {
  }

  /** Sorted by `titleAsc` with no tied titles means strictly sorted. */
  lemma StrictWhenDistinct(s: seq<Picture>)
    requires SortedBy(s, TitleAsc) && DistinctTitles(s)
    ensures StrictlySortedBy(s, TitleAsc)
  {
    forall i, j | 0 <= i < j < |s| ensures TitleAsc(s[i], s[j]) < 0 {
      TitleAscMeaning(s[i], s[j]);
    }
  }

  /** Reversing a sequence sorted by `titleDesc` sorts it by `titleAsc`. */
  lemma ReverseOfDescending(d: seq<Picture>)
    requires SortedBy(d, TitleDesc)
    ensures SortedBy(Reverse(d), TitleAsc)
  {
    var r := Reverse(d);
    forall i, j | 0 <= i < j < |r| ensures TitleAsc(r[i], r[j]) <= 0 {
      assert TitleDesc(d[|d| - 1 - j], d[|d| - 1 - i]) <= 0;
      TitleDescSwapsAsc(r[j], r[i]);
    }
  }

  /** Without tied titles, sorting by `titleAsc` gives the sort by
      `titleDesc` reversed. */
  lemma SortAscReversesDesc(f: seq<Picture>)
    requires DistinctTitles(f)
    ensures Sort(f, TitleAsc) == Reverse(Sort(f, TitleDesc))
  {
    var up, down := Sort(f, TitleAsc), Sort(f, TitleDesc);
    TitleAscIsComparator();
    TitleDescIsComparator();
    SortSorted(f, TitleAsc);
    SortSorted(f, TitleDesc);
    SortPermutation(f, TitleAsc);
    SortPermutation(f, TitleDesc);
    PermutationKeepsDistinctTitles(f, up);
    StrictWhenDistinct(up);
    ReversePermutation(down);
    PermutationKeepsDistinctTitles(f, Reverse(down));
    ReverseOfDescending(down);
    StrictWhenDistinct(Reverse(down));
    StrictlySortedUnique(up, Reverse(down), TitleAsc);
  }

  /** When no two filtered records share a title and they fit on a page,
      the ascending listing is the descending one reversed. */
  lemma AscendingReversesDescending(catalog: seq<Picture>, title: Option<string>, draws: seq<real>)
    requires AreDraws(draws, LIMIT)
    requires |Filtered(catalog, title)| <= LIMIT && DistinctTitles(Filtered(catalog, title))
    ensures ListingOf(catalog, title, Some("asc"), draws) ==
            Reverse(ListingOf(catalog, title, Some("desc"), draws))
  {
    var f := Filtered(catalog, title);
    var up, down := Sort(f, TitleAsc), Sort(f, TitleDesc);
    assert ResolveOrder(Some("asc")) == TitleAscending;
    assert ResolveOrder(Some("desc")) == TitleDescending;
    assert Cap(up) == up && Cap(down) == down;
    SortAscReversesDesc(f);
    ProjectReverse(down);
  }

  /** Both title orders keep two records of the same title in catalog
      order. */
  lemma TiedTwoKept(p1: Picture, p2: Picture, sort: Option<string>, draws: seq<real>)
    requires AreDraws(draws, LIMIT) && p1.title == p2.title
    requires ResolveOrder(sort) == TitleAscending || ResolveOrder(sort) == TitleDescending
    ensures ListingOf([p1, p2], None, sort, draws) == Project([p1, p2])
  {
    var c := [p1, p2];
    TitleAscMeaning(p1, p2);
    SortTwoTied(p1, p2, TitleAsc);
    SortTwoTied(p1, p2, TitleDesc);
    assert Arrange(c, ResolveOrder(sort), draws) == c;
    assert Cap(c) == c;
  }

  /** With tied titles the two listings are not reverses: the stable sort
      keeps two records of the same title in catalog order both ways. */
  lemma TiedTitlesNotReversed(p1: Picture, p2: Picture, draws: seq<real>)
    requires AreDraws(draws, LIMIT) && p1.title == p2.title && p1.id != p2.id
    ensures var catalog := [p1, p2];
            ListingOf(catalog, None, Some("asc"), draws) == Project(catalog) &&
            ListingOf(catalog, None, Some("desc"), draws) == Project(catalog) &&
            ListingOf(catalog, None, Some("asc"), draws) !=
            Reverse(ListingOf(catalog, None, Some("desc"), draws))
  {
    AliasesAgree("");
    TiedTwoKept(p1, p2, Some("asc"), draws);
    TiedTwoKept(p1, p2, Some("desc"), draws);
    var pc := Project([p1, p2]);
    assert pc[0] == Public(p1) && Reverse(pc)[0] == Public(p2);
  }

  /** The listing depends on the sort token only through the ordering it
      selects. */
  lemma SameOrderSameListing(catalog: seq<Picture>, title: Option<string>,
                             sort1: Option<string>, sort2: Option<string>, draws: seq<real>)
    requires AreDraws(draws, LIMIT)
    requires ResolveOrder(sort1) == ResolveOrder(sort2)
    ensures ListingOf(catalog, title, sort1, draws) == ListingOf(catalog, title, sort2, draws)
  {
  }

  /** The aliases of the switch select the same ordering, and every token
      the switch does not name, the absent one included, selects `new`. */
  lemma AliasesAgree(token: string)
    ensures ResolveOrder(Some("a2z")) == ResolveOrder(Some("asc")) == TitleAscending
    ensures ResolveOrder(Some("z2a")) == ResolveOrder(Some("desc")) == TitleDescending
    ensures ResolveOrder(Some("rnd")) == ResolveOrder(Some("random")) == Shuffle
    ensures ResolveOrder(Some("old")) == OldestFirst
    ensures ResolveOrder(None) == ResolveOrder(Some("new")) == NewestFirst
    ensures token !in ["asc", "a2z", "desc", "z2a", "random", "rnd", "old"] ==>
              ResolveOrder(Some(token)) == NewestFirst
  {
  }

  /** `old` lists the first `LIMIT` filtered records in catalog order. */
  lemma OldestListing(catalog: seq<Picture>, title: Option<string>, draws: seq<real>)
    requires AreDraws(draws, LIMIT)
    ensures var r := ListingOf(catalog, title, Some("old"), draws);
            var f := Filtered(catalog, title);
            |r| == Min(LIMIT, |f|) && forall k :: 0 <= k < |r| ==> r[k] == Public(f[k])
  {
  }

  /** `new` (and the default) lists the last `LIMIT` filtered records,
      the most recently added first. */
  lemma NewestListing(catalog: seq<Picture>, title: Option<string>, sort: Option<string>,
                      draws: seq<real>)
    requires AreDraws(draws, LIMIT)
    requires ResolveOrder(sort) == NewestFirst
    ensures var r := ListingOf(catalog, title, sort, draws);
            var f := Filtered(catalog, title);
            |r| == Min(LIMIT, |f|) && forall k :: 0 <= k < |r| ==> r[k] == Public(f[|f| - 1 - k])
  {
    var f := Filtered(catalog, title);
    var l := LatestReversed(f);
    assert Cap(l) == l;
    assert ListingOf(catalog, title, sort, draws) == Project(l);
  }

  /** Newest first, the listing is the projection of the newest-first
      slice of the filtered records. */
  lemma NewestIsLatest(catalog: seq<Picture>, title: Option<string>, sort: Option<string>,
                       draws: seq<real>)
    requires AreDraws(draws, LIMIT)
    requires ResolveOrder(sort) == NewestFirst
    ensures ListingOf(catalog, title, sort, draws) == Project(LatestReversed(Filtered(catalog, title)))
  {
    var l := LatestReversed(Filtered(catalog, title));
    assert Cap(l) == l;
  }

  /** Up to a page of records, `new` is `old` reversed. */
  lemma NewestReversesOldest(catalog: seq<Picture>, title: Option<string>, draws: seq<real>)
    requires AreDraws(draws, LIMIT)
    requires |Filtered(catalog, title)| <= LIMIT
    ensures ListingOf(catalog, title, Some("new"), draws) ==
            Reverse(ListingOf(catalog, title, Some("old"), draws))
  {
    var f := Filtered(catalog, title);
    NewestIsLatest(catalog, title, Some("new"), draws);
    OldestIsCapped(catalog, title, draws);
    WithinPage(f);
    ProjectReverse(f);
  }

  /** Oldest first, the listing is the projection of the first page of
      filtered records. */
  lemma OldestIsCapped(catalog: seq<Picture>, title: Option<string>, draws: seq<real>)
    requires AreDraws(draws, LIMIT)
    ensures ListingOf(catalog, title, Some("old"), draws) == Project(Cap(Filtered(catalog, title)))
  {
  }

  /** A sequence that fits on a page is its own first page, and its newest
      page is all of it reversed. */
  lemma WithinPage<T>(s: seq<T>)
    requires |s| <= LIMIT
    ensures Cap(s) == s
    ensures LatestReversed(s) == Reverse(s)
  {
    assert s[0..] == s;
  }

  /** `random` and `rnd` list `min(LIMIT, n)` of the `n` filtered records;
      when they fit on a page, every one of them exactly once. */
  lemma ShuffledListing(catalog: seq<Picture>, title: Option<string>, sort: Option<string>,
                        draws: seq<real>)
    requires AreDraws(draws, LIMIT)
    requires ResolveOrder(sort) == Shuffle
    ensures var f := Filtered(catalog, title);
            |ListingOf(catalog, title, sort, draws)| == Min(LIMIT, |f|)
    ensures var f := Filtered(catalog, title);
            |f| <= LIMIT ==> multiset(ListingOf(catalog, title, sort, draws)) == multiset(Project(f))
    ensures multiset(ListingOf(catalog, title, sort, draws)) <= multiset(Project(Filtered(catalog, title)))
  {
    var f := Filtered(catalog, title);
    var a := Arrange(f, Shuffle, draws);
    ShuffledPermutation(f, StartCount(LIMIT, |f|), draws);
    ProjectPermutation(a, f);
    ProjectCapWithin(a);
    if |f| <= LIMIT {
      assert Cap(a) == a;
    }
  }

  /** The first page holds no record more often than the whole list. */
  lemma ProjectCapWithin(a: seq<Picture>)
    ensures multiset(Project(Cap(a))) <= multiset(Project(a))
  {
    var c := Cap(a);
    assert a == c + a[|c|..];
    ProjectAppend(c, a[|c|..]);
  }
}
