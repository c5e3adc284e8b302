/** The records of the in-memory picture store, their public projection,
    and the two title comparators the listing sorts with. */
module Pictures {
  import opened Strings
  import opened Sorting

  datatype Option<T> = None | Some(value: T)

  /** Page size of every listing. */
  const LIMIT: nat := 10

  /** Public URL prefix under which stored images are served. */
  const WebImg: string := "/img/"

  /** A catalog record: `file` is the stored file name, relative to the
      image directory. */
  datatype Picture = Picture(id: int, title: string, file: string)

  /** What listing and upload hand out: `file` is the public path. */
  datatype PublicPicture = PublicPicture(id: int, title: string, file: string)

  function Public(p: Picture): PublicPicture
  {
    PublicPicture(p.id, p.title, WebImg + p.file)
  }

  /** The `map` that prefixes every file name with the public path. */
  function Project(s: seq<Picture>): (r: seq<PublicPicture>)
    ensures |r| == |s|
    ensures forall k :: 0 <= k < |s| ==> r[k] == Public(s[k])
  {
    if s == [] then [] else [Public(s[0])] + Project(s[1..])
  }

  lemma {:induction false} ProjectAppend(a: seq<Picture>, b: seq<Picture>)
    ensures Project(a + b) == Project(a) + Project(b)
  {
    var l, r := Project(a + b), Project(a) + Project(b);
    forall k | 0 <= k < |l| ensures l[k] == r[k] {
      if k < |a| {
        assert (a + b)[k] == a[k];
      } else {
        assert (a + b)[k] == b[k - |a|];
      }
    }
  }

  /** Projecting a permutation gives a permutation of the projection. */
  lemma {:induction false} ProjectPermutation(a: seq<Picture>, b: seq<Picture>)
    requires multiset(a) == multiset(b)
    ensures multiset(Project(a)) == multiset(Project(b))
  {
    if a != [] {
      assert a[0] in multiset(b);
      var j :| 0 <= j < |b| && b[j] == a[0];
      RemoveMatching(a, b, j);
      ProjectPermutation(a[1..], b[..j] + b[j + 1..]);
      ProjectPermutationStep(a, b, j);
    }
  }

  /** Projecting `a` and `b` gives the same multiset once their tails, with
      the matching element taken out of `b`, do. */
  lemma ProjectPermutationStep(a: seq<Picture>, b: seq<Picture>, j: nat)
    requires a != [] && j < |b| && b[j] == a[0]
    requires multiset(Project(a[1..])) == multiset(Project(b[..j] + b[j + 1..]))
    ensures multiset(Project(a)) == multiset(Project(b))
  {
    ProjectHead(a);
    ProjectWithout(b, j);
  }

  /** The projection of `a` is the head's public view and that of the tail. */
  lemma ProjectHead(a: seq<Picture>)
    requires a != []
    ensures multiset(Project(a)) == multiset{Public(a[0])} + multiset(Project(a[1..]))
  {
  }

  /** The projection of `b` is that of position `j` and that of the rest. */
  lemma ProjectWithout(b: seq<Picture>, j: nat)
    requires j < |b|
    ensures multiset(Project(b)) == multiset{Public(b[j])} + multiset(Project(b[..j] + b[j + 1..]))
  {
    var left, right := b[..j], b[j + 1..];
    ProjectSplitAt(b, j);
    ProjectAppend(left, right);
    MultisetMiddle(Project(left), Public(b[j]), Project(right));
  }

  lemma ProjectSplitAt(b: seq<Picture>, j: nat)
    requires j < |b|
    ensures Project(b) == Project(b[..j]) + [Public(b[j])] + Project(b[j + 1..])
  {
    var left, right := b[..j], b[j + 1..];
    SplitAt(b, j);
    ProjectAppend(left + [b[j]], right);
    ProjectAppend(left, [b[j]]);
    assert Project([b[j]]) == [Public(b[j])];
  }

  lemma MultisetMiddle<T>(l: seq<T>, y: T, r: seq<T>)
    ensures multiset(l + [y] + r) == multiset{y} + multiset(l + r)
  {
    assert multiset(l + [y] + r) == multiset(l) + multiset{y} + multiset(r);
  }

  lemma SplitAt<T>(s: seq<T>, j: nat)
    requires j < |s|
    ensures s == s[..j] + [s[j]] + s[j + 1..]
  {
  }

  /** Taking the first element out of `a` and an equal one out of its
      permutation `b` leaves a permutation. */
  lemma RemoveMatching<T>(a: seq<T>, b: seq<T>, j: nat)
    requires a != [] && j < |b| && b[j] == a[0]
    requires multiset(a) == multiset(b)
    ensures multiset(a[1..]) == multiset(b[..j] + b[j + 1..])
  {
    assert a == [a[0]] + a[1..];
    assert b == b[..j] + [b[j]] + b[j + 1..];
    forall y ensures multiset(a[1..])[y] == multiset(b[..j] + b[j + 1..])[y] {
      assert multiset(a)[y] == multiset{a[0]}[y] + multiset(a[1..])[y];
      assert multiset(b)[y] == multiset(b[..j])[y] + multiset{a[0]}[y] + multiset(b[j + 1..])[y];
    }
  }

  /** `titleAsc`: -1, 0 or 1 as `a`'s title sorts before, equals or sorts
      after `b`'s. */
  function TitleAsc(a: Picture, b: Picture): int
  {
    if Less(a.title, b.title) then -1
    else if a.title == b.title then 0
    else 1
  }

  /** `titleDesc`: the negation of `titleAsc`. */
  function TitleDesc(a: Picture, b: Picture): int
  {
    -TitleAsc(a, b)
  }

  /** The comparator answers by the order of the titles, in both directions. */
  lemma TitleAscMeaning(a: Picture, b: Picture)
    ensures TitleAsc(a, b) < 0 <==> Less(a.title, b.title)
    ensures TitleAsc(a, b) == 0 <==> a.title == b.title
    ensures TitleAsc(a, b) > 0 <==> Less(b.title, a.title)
  {
    LessIrreflexive(a.title);
    LessAsymmetric(a.title, b.title);
    LessTotal(a.title, b.title);
  }

  /** Swapping the arguments of `titleAsc` negates it, so `titleDesc` is
      `titleAsc` with its arguments swapped. */
  lemma TitleDescSwapsAsc(a: Picture, b: Picture)
    ensures TitleDesc(a, b) == TitleAsc(b, a)
  {
    TitleAscMeaning(a, b);
    TitleAscMeaning(b, a);
  }

  lemma TitleAscIsComparator()
    ensures IsComparator(TitleAsc)
  {
    forall a, b ensures TitleAsc(a, b) == -TitleAsc(b, a) {
      TitleDescSwapsAsc(a, b);
    }
    forall a, b, c | TitleAsc(a, b) <= 0 && TitleAsc(b, c) <= 0
      ensures TitleAsc(a, c) <= 0
    {
      TitleAscMeaning(a, b);
      TitleAscMeaning(b, c);
      TitleAscMeaning(a, c);
      if Less(a.title, b.title) && Less(b.title, c.title) {
        LessTransitive(a.title, b.title, c.title);
      }
    }
  }

  lemma TitleDescIsComparator()
    ensures IsComparator(TitleDesc)
  {
    TitleAscIsComparator();
    forall a, b ensures TitleDesc(a, b) == -TitleDesc(b, a) {
      TitleDescSwapsAsc(a, b);
      TitleDescSwapsAsc(b, a);
    }
    forall a, b, c | TitleDesc(a, b) <= 0 && TitleDesc(b, c) <= 0
      ensures TitleDesc(a, c) <= 0
    {
      TitleDescSwapsAsc(a, b);
      TitleDescSwapsAsc(b, c);
      TitleDescSwapsAsc(a, c);
      assert TitleAsc(c, b) <= 0 && TitleAsc(b, a) <= 0;
    }
  }
}
