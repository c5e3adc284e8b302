/** The in-memory picture store: the catalog of records and the id counter,
    the listing query over it, and the two mutations, delete and upload.
    The file-system calls they make are not performed: each one's outcome
    is an input to the operation, and the operation's effect on the
    catalog is stated for both outcomes. */
module Store {
  import opened Strings
  import opened Sorting
  import opened Pictures
  import opened Listing

  /** The outcome of a file-system call (`fs.unlink`, `fs.rename`). */
  datatype IoResult = IoOk | IoFailed(cause: string)

  /** How a delete can fail: no record has the id (`GONE`), or the record
      was removed but its file could not be unlinked. */
  datatype DeleteError = Gone | DeleteFailed(message: string, cause: string)

  /** How an upload can fail: the incoming file could not be moved. */
  datatype UploadError = MoveFailed(message: string, cause: string)

  /** What the upload middleware hands over for a received file. */
  datatype IncomingFile = IncomingFile(mimetype: string, filename: string, path: string)

  datatype Outcome<E> = Pass | Fail(error: E)

  datatype Result<T, E> = Ok(value: T) | Err(error: E)

  /** `mimetype.split('/')[1] || 'png'`: the MIME subtype, or `png` when
      there is none or it is empty. */
  function FileExtension(mimetype: string): (ext: string)
    ensures ext != [] && '/' !in ext
  {
    var parts := Split(mimetype, '/');
    if |parts| > 1 && parts[1] != [] then parts[1] else "png"
  }

  /** The subtype is what follows the first slash, up to the next one. */
  lemma FileExtensionIsSubtype(kind: string, subtype: string, tail: string)
    requires '/' !in kind && '/' !in subtype && subtype != []
    ensures FileExtension(kind + "/" + subtype) == subtype
    ensures FileExtension(kind + "/" + subtype + "/" + tail) == subtype
  {
    SplitNoSeparator(subtype, '/');
    SplitAtFirstSeparator(kind, '/', subtype);
    assert kind + "/" + subtype + "/" + tail == kind + ['/'] + (subtype + ['/'] + tail);
    SplitAtFirstSeparator(kind, '/', subtype + ['/'] + tail);
    SplitAtFirstSeparator(subtype, '/', tail);
  }

  /** Without a subtype the extension falls back to `png`. */
  lemma FileExtensionDefault(kind: string, tail: string)
    requires '/' !in kind
    ensures FileExtension(kind) == "png"
    ensures FileExtension(kind + "/") == "png"
    ensures FileExtension(kind + "//" + tail) == "png"
  {
    SplitNoSeparator(kind, '/');
    SplitAtFirstSeparator(kind, '/', []);
    assert kind + "/" == kind + ['/'] + [];
    assert kind + "//" + tail == kind + ['/'] + (['/'] + tail);
    SplitAtFirstSeparator(kind, '/', ['/'] + tail);
    SplitAtFirstSeparator([], '/', tail);
    assert [] + ['/'] + tail == ['/'] + tail;
  }

  /** The stored file name of an upload: its name, a dot, the extension. */
  function NewFilename(reqFile: IncomingFile): string
  {
    reqFile.filename + "." + FileExtension(reqFile.mimetype)
  }

  /** The words two seed titles each start with. */
  const Caught: string := "I caught "
  const FishCaughtWas: string := "The fish I caught was "

  /** The four records the store starts with. */
  function Seed(): seq<Picture>
  {
    [ Picture(1, Caught + "a little fish...", "1.png"),
      Picture(2, FishCaughtWas + "this big.", "2.png"),
      Picture(3, FishCaughtWas + "quite big.", "3.png"),
      Picture(4, Caught + "the biggest fish you've ever seen.", "4.png") ]
  }

  /** Ids in `s` grow strictly from first to last. */
  predicate IdsIncreasing(s: seq<Picture>)
  {
    forall i, j :: 0 <= i < j < |s| ==> s[i].id < s[j].id
  }

  /** Every id in `s` is below `bound`. */
  predicate IdsBelow(s: seq<Picture>, bound: int)
  {
    forall k :: 0 <= k < |s| ==> s[k].id < bound
  }

  /** Taking one record out keeps the ids increasing. */
  lemma RemoveKeepsIdsIncreasing(s: seq<Picture>, k: nat, bound: int)
    requires k < |s| && IdsIncreasing(s) && IdsBelow(s, bound)
    ensures IdsIncreasing(s[..k] + s[k + 1..]) && IdsBelow(s[..k] + s[k + 1..], bound)
  {
    var r := s[..k] + s[k + 1..];
    forall i | 0 <= i < |r| ensures r[i] == s[if i < k then i else i + 1] {
      if i < k { assert r[i] == s[..k][i]; } else { assert r[i] == s[k + 1..][i - k]; }
    }
  }

  /** Ids in increasing order are unique, and index the record they name. */
  lemma IdsIncreasingUnique(s: seq<Picture>, i: nat, j: nat)
    requires IdsIncreasing(s) && i < |s| && j < |s| && s[i].id == s[j].id
    ensures i == j
  {
  }

  /** A record appended under the next id keeps ids increasing and
      below the incremented counter. */
  lemma AppendKeepsIdsIncreasing(s: seq<Picture>, item: Picture, bound: int)
    requires IdsIncreasing(s) && IdsBelow(s, bound) && item.id == bound
    ensures IdsIncreasing(s + [item]) && IdsBelow(s + [item], bound + 1)
  {
  }

  /** The public ids of a listing, in order. */
  function Ids(s: seq<PublicPicture>): (r: seq<int>)
    ensures |r| == |s| && forall k :: 0 <= k < |s| ==> r[k] == s[k].id
  {
    if s == [] then [] else [s[0].id] + Ids(s[1..])
  }

  lemma FilteredAppendMatching(catalog: seq<Picture>, item: Picture, title: Option<string>)
    requires Matches(item, title)
    ensures Filtered(catalog + [item], title) == Filtered(catalog, title) + [item]
  {
    FilteredAppend(catalog, [item], title);
    assert [item][1..] == [];
  }

  /** Newest first, the slice of `f + [x]` is `x` ahead of the slice of
      `f`; the last element of that slice drops out only when it was full
      (`LIMIT` elements). */
  lemma LatestReversedAppend<T>(f: seq<T>, x: T)
    ensures LatestReversed(f + [x]) == [x] + LatestReversed(f)[..Min(LIMIT - 1, |f|)]
  {
    var l, g := LatestReversed(f + [x]), f + [x];
    var r := [x] + LatestReversed(f)[..Min(LIMIT - 1, |f|)];
    assert |l| == |r|;
    forall k | 0 <= k < |l| ensures l[k] == r[k] {
      assert l[k] == g[|g| - 1 - k];
      if k > 0 {
        assert r[k] == LatestReversed(f)[k - 1] == f[|f| - k];
      }
    }
  }

  lemma ProjectCons(x: Picture, s: seq<Picture>)
    ensures Project([x] + s) == [Public(x)] + Project(s)
  {
    assert ([x] + s)[1..] == s;
  }

  lemma ProjectPrefix(s: seq<Picture>, m: nat)
    requires m <= |s|
    ensures Project(s[..m]) == Project(s)[..m]
  {
  }

  /** After an upload whose title passes the filter, the newest-first
      listing starts with the new record, followed by the listing before it;
      its last record drops out only when that listing was a full page. */
  lemma UploadListedFirst(catalog: seq<Picture>, item: Picture, title: Option<string>,
                          sort: Option<string>, draws: seq<real>)
    requires AreDraws(draws, LIMIT)
    requires ResolveOrder(sort) == NewestFirst && Matches(item, title)
    ensures var after := ListingOf(catalog + [item], title, sort, draws);
            var before := ListingOf(catalog, title, sort, draws);
            after != [] && after[0] == Public(item) &&
            after[1..] == before[..Min(LIMIT - 1, |before|)]
  {
    var f := Filtered(catalog, title);
    var l := LatestReversed(f);
    var m := Min(LIMIT - 1, |f|);
    FilteredAppendMatching(catalog, item, title);
    NewestIsLatest(catalog + [item], title, sort, draws);
    NewestIsLatest(catalog, title, sort, draws);
    LatestReversedAppend(f, item);
    ProjectCons(item, l[..m]);
    ProjectPrefix(l, m);
  }

  /** Once a record is taken out of a catalog with unique ids, no listing
      shows its id. */
  lemma DeletedNeverListed(catalog: seq<Picture>, k: nat, title: Option<string>,
                           sort: Option<string>, draws: seq<real>)
    requires AreDraws(draws, LIMIT)
    requires IdsIncreasing(catalog) && k < |catalog|
    ensures var r := ListingOf(catalog[..k] + catalog[k + 1..], title, sort, draws);
            forall j :: 0 <= j < |r| ==> r[j].id != catalog[k].id
  {
    var rest := catalog[..k] + catalog[k + 1..];
    var r := ListingOf(rest, title, sort, draws);
    RemovedIdAbsent(catalog, k);
    ListingFromCatalog(rest, title, sort, draws);
  }

  /** The id of a removed record is held by none of the records left. */
  lemma RemovedIdAbsent(catalog: seq<Picture>, k: nat)
    requires IdsIncreasing(catalog) && k < |catalog|
    ensures forall p :: p in catalog[..k] + catalog[k + 1..] ==> p.id != catalog[k].id
  {
    forall p | p in catalog[..k] + catalog[k + 1..] ensures p.id != catalog[k].id {
      if p in catalog[..k] {
        var i :| 0 <= i < k && catalog[..k][i] == p;
        assert catalog[i] == p;
      } else {
        var i :| 0 <= i < |catalog| - k - 1 && catalog[k + 1..][i] == p;
        assert catalog[k + 1 + i] == p;
      }
    }
  }

  /** How the four seed titles compare: the first sorts before the
      others, the fourth before the third, the third before the second. */
  lemma SeedTitleOrder()
    ensures var s := Seed();
            TitleAsc(s[0], s[1]) < 0 && TitleAsc(s[0], s[2]) < 0 && TitleAsc(s[0], s[3]) < 0 &&
            TitleAsc(s[1], s[2]) > 0 && TitleAsc(s[1], s[3]) > 0 && TitleAsc(s[2], s[3]) > 0
  {
    var s := Seed();
    PrefixKeepsLess(Caught, "a little fish...", "the biggest fish you've ever seen.");
    PrefixKeepsLess(FishCaughtWas, "quite big.", "this big.");
    assert Less(s[0].title, s[1].title) && Less(s[0].title, s[2].title);
    assert Less(s[3].title, s[1].title) && Less(s[3].title, s[2].title);
    TitleAscMeaning(s[1], s[2]);
    TitleAscMeaning(s[1], s[3]);
    TitleAscMeaning(s[2], s[3]);
  }

  lemma SeedIds()
    ensures |Seed()| == 4
    ensures Seed()[0].id == 1 && Seed()[1].id == 2 && Seed()[2].id == 3 && Seed()[3].id == 4
  {
  }

  /** A catalog that fits on a page is listed whole, in the order the
      token selects. */
  lemma ListingWhole(catalog: seq<Picture>, sort: Option<string>, draws: seq<real>)
    requires AreDraws(draws, LIMIT) && |catalog| <= LIMIT
    ensures ListingOf(catalog, None, sort, draws) ==
            Project(Arrange(catalog, ResolveOrder(sort), draws))
  {
    var a := Arrange(catalog, ResolveOrder(sort), draws);
    assert |a| <= LIMIT by {
      if ResolveOrder(sort) == NewestFirst {
        assert |a| == |catalog|;
      }
    }
  }

  lemma IdsOfFour(a: Picture, b: Picture, c: Picture, d: Picture)
    ensures Ids(Project([a, b, c, d])) == [a.id, b.id, c.id, d.id]
  {
  }

  /** Four records whose titles compare as the seed titles do, ascending. */
  lemma FourAscending(s: seq<Picture>, draws: seq<real>)
    requires AreDraws(draws, LIMIT) && |s| == 4
    requires TitleAsc(s[0], s[3]) < 0 && TitleAsc(s[1], s[2]) > 0 &&
             TitleAsc(s[1], s[3]) > 0 && TitleAsc(s[2], s[3]) > 0
    ensures Ids(ListingOf(s, None, Some("asc"), draws)) == [s[0].id, s[3].id, s[2].id, s[1].id]
  {
    SortFourFirstThenReversed(s, TitleAsc);
    ListingWhole(s, Some("asc"), draws);
    IdsOfFour(s[0], s[3], s[2], s[1]);
  }

  /** Four records whose titles compare as the seed titles do, descending. */
  lemma FourDescending(s: seq<Picture>, draws: seq<real>)
    requires AreDraws(draws, LIMIT) && |s| == 4
    requires TitleDesc(s[0], s[1]) > 0 && TitleDesc(s[0], s[2]) > 0 && TitleDesc(s[0], s[3]) > 0
    requires TitleDesc(s[1], s[2]) < 0 && TitleDesc(s[2], s[3]) < 0
    ensures Ids(ListingOf(s, None, Some("desc"), draws)) == [s[1].id, s[2].id, s[3].id, s[0].id]
  {
    SortFourLastThenKept(s, TitleDesc);
    ListingWhole(s, Some("desc"), draws);
    AliasesAgree("");
    assert Arrange(s, TitleDescending, draws) == Sort(s, TitleDesc);
    IdsOfFour(s[1], s[2], s[3], s[0]);
  }

  /** On the seed records `asc` and `a2z` list ids 1, 4, 3, 2, and `desc`
      and `z2a` 2, 3, 4, 1. */
  lemma SeedByTitle(draws: seq<real>)
    requires AreDraws(draws, LIMIT)
    ensures Ids(ListingOf(Seed(), None, Some("asc"), draws)) == [1, 4, 3, 2]
    ensures Ids(ListingOf(Seed(), None, Some("a2z"), draws)) == [1, 4, 3, 2]
    ensures Ids(ListingOf(Seed(), None, Some("desc"), draws)) == [2, 3, 4, 1]
    ensures Ids(ListingOf(Seed(), None, Some("z2a"), draws)) == [2, 3, 4, 1]
  {
    SeedIds();
    SeedTitleOrder();
    FourAscending(Seed(), draws);
    FourDescending(Seed(), draws);
    SameOrderSameListing(Seed(), None, Some("asc"), Some("a2z"), draws);
    SameOrderSameListing(Seed(), None, Some("desc"), Some("z2a"), draws);
  }

  /** The ids of a four-record listing, read off position by position. */
  lemma IdsOfListed(r: seq<PublicPicture>, a: int, b: int, c: int, d: int)
    requires |r| == 4 && r[0].id == a && r[1].id == b && r[2].id == c && r[3].id == d
    ensures Ids(r) == [a, b, c, d]
  {
  }

  /** Four records listed oldest first. */
  lemma FourOldest(s: seq<Picture>, draws: seq<real>)
    requires AreDraws(draws, LIMIT) && |s| == 4
    ensures Ids(ListingOf(s, None, Some("old"), draws)) == [s[0].id, s[1].id, s[2].id, s[3].id]
  {
    OldestListing(s, None, draws);
    var r := ListingOf(s, None, Some("old"), draws);
    IdsOfListed(r, s[0].id, s[1].id, s[2].id, s[3].id);
  }

  /** Four records listed newest first, by `new` or by any token that
      selects it. */
  lemma FourNewest(s: seq<Picture>, sort: Option<string>, draws: seq<real>)
    requires AreDraws(draws, LIMIT) && |s| == 4 && ResolveOrder(sort) == NewestFirst
    ensures Ids(ListingOf(s, None, sort, draws)) == [s[3].id, s[2].id, s[1].id, s[0].id]
  {
    NewestListing(s, None, sort, draws);
    var r := ListingOf(s, None, sort, draws);
    IdsOfListed(r, s[3].id, s[2].id, s[1].id, s[0].id);
  }

  /** Four records listed oldest and newest first. */
  lemma FourByAge(s: seq<Picture>, draws: seq<real>)
    requires AreDraws(draws, LIMIT) && |s| == 4
    ensures Ids(ListingOf(s, None, Some("old"), draws)) == [s[0].id, s[1].id, s[2].id, s[3].id]
    ensures Ids(ListingOf(s, None, Some("new"), draws)) == [s[3].id, s[2].id, s[1].id, s[0].id]
    ensures Ids(ListingOf(s, None, None, draws)) == [s[3].id, s[2].id, s[1].id, s[0].id]
  {
    AliasesAgree("");
    FourOldest(s, draws);
    FourNewest(s, Some("new"), draws);
    FourNewest(s, None, draws);
  }

  /** On the seed records `old` lists ids 1, 2, 3, 4, and `new`, like the
      absent token, 4, 3, 2, 1. */
  lemma SeedByAge(draws: seq<real>)
    requires AreDraws(draws, LIMIT)
    ensures Ids(ListingOf(Seed(), None, Some("old"), draws)) == [1, 2, 3, 4]
    ensures Ids(ListingOf(Seed(), None, Some("new"), draws)) == [4, 3, 2, 1]
    ensures Ids(ListingOf(Seed(), None, None, draws)) == [4, 3, 2, 1]
  {
    SeedIds();
    FourByAge(Seed(), draws);
  }

  /** Four records listed by `rnd`: all of them, each once. */
  lemma FourShuffled(s: seq<Picture>, draws: seq<real>)
    requires AreDraws(draws, LIMIT) && |s| == 4
    ensures |ListingOf(s, None, Some("rnd"), draws)| == 4
    ensures multiset(ListingOf(s, None, Some("rnd"), draws)) == multiset(Project(s))
  {
    AliasesAgree("");
    ShuffledListing(s, None, Some("rnd"), draws);
  }

  /** On the seed records `rnd` lists all four records, each once. */
  lemma SeedRandom(draws: seq<real>)
    requires AreDraws(draws, LIMIT)
    ensures |ListingOf(Seed(), None, Some("rnd"), draws)| == 4
    ensures multiset(ListingOf(Seed(), None, Some("rnd"), draws)) == multiset(Project(Seed()))
  {
    SeedIds();
    FourShuffled(Seed(), draws);
  }

  /** The extension of an `image/png` upload is `png`. */
  lemma PngExtension()
    ensures FileExtension("image/png") == "png"
  {
    FileExtensionIsSubtype("image", "png", "");
    assert "image" + "/" + "png" == "image/png";
  }

  /** Uploading a PNG named `toDelete` stores it as `toDelete.png`. */
  /** Any file uploaded as `image/png` is stored under its name with `.png`
      appended. */
  lemma PngFilename(name: string, path: string)
    ensures NewFilename(IncomingFile("image/png", name, path)) == name + ".png"
  {
    var ext := FileExtension("image/png");
    assert NewFilename(IncomingFile("image/png", name, path)) == name + "." + ext;
    PngExtension();
    assert ext == "png";
    assert name + "." + ext == name + ".png";
  }

  lemma PngUploadName(path: string)
    ensures NewFilename(IncomingFile("image/png", "toDelete", path)) == "toDelete.png"
  {
    PngFilename("toDelete", path);
  }

  /** The stored `toDelete.png` is handed out as `/img/toDelete.png`. */
  lemma PngPublicFile(id: int, title: string)
    ensures Public(Picture(id, title, "toDelete.png")) == PublicPicture(id, title, "/img/toDelete.png")
  {
    assert WebImg + "toDelete.png" == "/img/toDelete.png";
  }

  /** A record uploaded after four others is listed ahead of them, newest
      first. */
  lemma FourUploadListed(s: seq<Picture>, item: Picture, draws: seq<real>)
    requires AreDraws(draws, LIMIT) && |s| == 4
    ensures Ids(ListingOf(s + [item], None, Some("new"), draws)) ==
            [item.id, s[3].id, s[2].id, s[1].id, s[0].id]
  {
    AliasesAgree("");
    FourNewest(s, Some("new"), draws);
    UploadListedFirst(s, item, None, Some("new"), draws);
    IdsAfterUpload(ListingOf(s + [item], None, Some("new"), draws), ListingOf(s, None, Some("new"), draws),
                   item, s[3].id, s[2].id, s[1].id, s[0].id);
  }

  lemma IdsAfterUpload(after: seq<PublicPicture>, before: seq<PublicPicture>, item: Picture,
                       a: int, b: int, c: int, d: int)
    requires |before| == 4 && Ids(before) == [a, b, c, d]
    requires after != [] && after[0] == Public(item) && after[1..] == before[..Min(LIMIT - 1, |before|)]
    ensures Ids(after) == [item.id, a, b, c, d]
  {
    assert before[..Min(LIMIT - 1, |before|)] == before;
    IdsAhead(after, before);
    assert [item.id] + [a, b, c, d] == [item.id, a, b, c, d];
  }

  /** A record uploaded to the seed store under the next id, 5, is listed
      ahead of the four seed records newest first. */
  lemma SeedUploadListed(item: Picture, draws: seq<real>)
    requires AreDraws(draws, LIMIT) && item.id == 5
    ensures Ids(ListingOf(Seed() + [item], None, Some("new"), draws)) == [5, 4, 3, 2, 1]
  {
    SeedIds();
    FourUploadListed(Seed(), item, draws);
  }

  lemma IdsAhead(after: seq<PublicPicture>, before: seq<PublicPicture>)
    requires after != [] && after[1..] == before
    ensures Ids(after) == [after[0].id] + Ids(before)
  {
  }

  /** The `switch` of `listPictures` on a copy of the filtered records:
      sorts it, shuffles the start of it in place, leaves it, or takes the
      newest records last first. */
  method Arranged(f: seq<Picture>, order: Order, draws: seq<real>) returns (retval: seq<Picture>)
    requires AreDraws(draws, LIMIT)
    ensures retval == Arrange(f, order, draws)
  {
    retval := f;
    match order {
      case TitleAscending =>
        retval := Sort(retval, TitleAsc);
      case TitleDescending =>
        retval := Sort(retval, TitleDesc);
      case Shuffle =>
        var a := new Picture[|retval|](k requires 0 <= k < |retval| => retval[k]);
        assert a[..] == retval;
        RandomizeArrayStart(a, LIMIT, draws);
        retval := a[..];
      case OldestFirst =>
      case NewestFirst =>
        retval := LatestReversed(retval);
    }
  }

  class PictureStore {
    /** The catalog, oldest record first. */
    var data: seq<Picture>
    /** The id the next upload receives. */
    var nextId: int
    /** The directory the stored images live in. */
    const localImg: string

    /** Ids are unique and in upload order, and all below the counter. */
    ghost predicate Valid()
      reads this
    {
      IdsIncreasing(data) && IdsBelow(data, nextId)
    }

    /** The store as the module is loaded: the four seed records. */
    constructor(localImg: string)
      ensures this.localImg == localImg && data == Seed() && nextId == 5
      ensures Valid()
    {
      this.localImg := localImg;
      data := Seed();
      nextId := 5;
    }

    /** `listPictures(title, sort)`; `draws` supplies the `Math.random()`
        values a random ordering consumes. The catalog is not changed. */
    method ListPictures(title: Option<string>, sort: Option<string>, draws: seq<real>)
      returns (r: seq<PublicPicture>)
      requires AreDraws(draws, LIMIT)
      ensures r == ListingOf(data, title, sort, draws)
      ensures |r| <= LIMIT
      ensures forall k :: 0 <= k < |r| ==>
                exists p :: p in data && Matches(p, title) && r[k] == Public(p)
    {
      var retval := data;
      if title.Some? && title.value != [] {
        retval := KeepIncluding(retval, title.value);
      }
      retval := Arranged(retval, ResolveOrder(sort), draws);
      if |retval| > LIMIT {
        retval := retval[..LIMIT];
      }
      r := Project(retval);
      ListingFromCatalog(data, title, sort, draws);
    }

    /** The search loop of `deletePicture`: the first position holding `id`. */
    method IndexOf(id: int) returns (index: Option<nat>)
      ensures index.None? ==> forall k :: 0 <= k < |data| ==> data[k].id != id
      ensures index.Some? ==> index.value < |data| && data[index.value].id == id &&
                              forall k :: 0 <= k < index.value ==> data[k].id != id
    {
      var i := 0;
      while i < |data|
        invariant 0 <= i <= |data|
        invariant forall k :: 0 <= k < i ==> data[k].id != id
      {
        if data[i].id == id {
          return Some(i);
        }
        i := i + 1;
      }
      return None;
    }

    /** `deletePicture(id)`; `unlink` is the outcome of unlinking the
        record's file. Without a record of that id the store fails with
        `Gone` and is unchanged; otherwise the record is removed before the
        unlink, so it stays removed when the unlink fails. */
    method DeletePicture(id: int, unlink: IoResult) returns (outcome: Outcome<DeleteError>)
      requires Valid()
      modifies this
      ensures Valid() && nextId == old(nextId)
      ensures (forall k :: 0 <= k < |old(data)| ==> old(data)[k].id != id) ==>
                outcome == Fail(Gone) && data == old(data)
      ensures forall k :: 0 <= k < |old(data)| && old(data)[k].id == id ==>
                data == old(data)[..k] + old(data)[k + 1..] &&
                outcome == (if unlink.IoOk? then Pass
                            else Fail(DeleteFailed("failed fs delete of " + localImg + old(data)[k].file,
                                                   unlink.cause)))
    {
      var index := IndexOf(id);
      if index.None? {
        return Fail(Gone);
      }
      var k := index.value;
      forall j | 0 <= j < |data| && data[j].id == id ensures j == k {
        IdsIncreasingUnique(data, j, k);
      }
      var filename := localImg + data[k].file;
      RemoveKeepsIdsIncreasing(data, k, nextId);
      data := data[..k] + data[k + 1..];
      if unlink.IoFailed? {
        assert "failed fs delete of " + filename == "failed fs delete of " + localImg + old(data)[k].file;
        return Fail(DeleteFailed("failed fs delete of " + filename, unlink.cause));
      }
      return Pass;
    }

    /** `uploadPicture(reqFile, title)`; `rename` is the outcome of moving
        the incoming file to `localImg` under its new name. A failed move
        changes nothing; a successful one appends a record under the next
        id and returns its public view. */
    method UploadPicture(reqFile: IncomingFile, title: string, rename: IoResult)
      returns (r: Result<PublicPicture, UploadError>)
      requires Valid()
      modifies this
      ensures Valid()
      ensures rename.IoFailed? ==>
                r == Err(MoveFailed("failed to move incoming file", rename.cause)) &&
                data == old(data) && nextId == old(nextId)
      ensures rename.IoOk? ==>
                var item := Picture(old(nextId), title, NewFilename(reqFile));
                data == old(data) + [item] && nextId == old(nextId) + 1 && r == Ok(Public(item))
    {
      var newFilename := NewFilename(reqFile);
      if rename.IoFailed? {
        return Err(MoveFailed("failed to move incoming file", rename.cause));
      }
      var item := Picture(nextId, title, newFilename);
      AppendKeepsIdsIncreasing(data, item, nextId);
      nextId := nextId + 1;
      data := data + [item];
      return Ok(Public(item));
    }
  }
}
