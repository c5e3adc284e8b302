# jstagram in-memory picture store, in Dafny

jstagram is a small picture-sharing web application. Its in-memory model
(`jstagram/model-inmemory.js`) holds the application's state:

- a catalog of picture records (id, title, stored file name), seeded with
  four records;
- an id counter, `nextId`;
- three operations:
  - `listPictures(title, sort)` returns one page of the catalog. It filters
    by title, orders in one of five ways and tops the result at `LIMIT` = 10
    records. Each file name is prefixed with the public image path `/img/`.
  - `deletePicture(id)` removes a record and unlinks its file.
  - `uploadPicture(reqFile, title)` moves an incoming file into the image
    directory and appends a record under the next id.

This project models the catalog, the counter and the three operations. It
also models the helpers they use:

- the two title comparators;
- the partial random shuffle `randomizeArrayStart`;
- the JavaScript string built-ins the code relies on: `<` on strings,
  `includes` and `split`.

The modules are:

- `Strings`: JavaScript `<` on strings (`Less`), `includes` and `split`/`join`.
  Each comes with an independent reference definition, or its inverse, and
  a proof that the two agree.
- `Sorting`: `Array.prototype.sort` with a comparator. The engine's sort is
  stood for by a stable insertion sort. The model proves that sort meets the
  three promises of the ECMAScript 2019 sort: the result is ordered, it is a
  permutation of the input, and it is stable.
- `Pictures`: the records and their public view, the page size, the public
  image path (`webimg` in `jstagram/config.js`) and `titleAsc`/`titleDesc`.
- `Listing`:
  - the pieces of `listPictures`: the filter, the sort token, the shuffle,
    the newest-first slice and the page cap;
  - `ListingOf`, the function that states what `listPictures` returns;
  - `RandomizeArrayStart`, an in-place loop over an `array`, proved against
    the function `Shuffled`.
- `Store`:
  - the class `PictureStore`, with fields `data` and `nextId` and the three
    operations as methods;
  - the invariant that ids are strictly increasing and below `nextId`;
  - the behaviour the repository's own test file expects of the seed
    catalog, stated as lemmas.

Sources of nondeterminism and side effects become inputs:

- `Math.random()` becomes a sequence `draws` of reals in [0, 1).
- The outcome of `fs.unlink` and `fs.rename` becomes an `IoResult` (success,
  or failure with a cause).

Each operation's contract states what happens for both outcomes.

Two behaviours of the code are worth stating outright:

- `desc` is not in general `asc` reversed. Both are stable sorts, so records
  with equal titles keep catalog order in both. The two listings are exact
  reverses when the filtered titles are distinct and fit on one page
  (`Listing.AscendingReversesDescending`). They are not reverses with two
  tied records of different ids (`Listing.TiedTitlesNotReversed`).
- The `png` fallback applies only when `split('/')[1]` is missing or empty.
  A missing MIME type throws (see "Left out").

## Model

| member | source | states |
|---|---|---|
| Strings.Less | jstagram/model-inmemory.js:68 | JavaScript `<` on two titles; no ensures of its own, its meaning is proved in `LessIsLexicographic` and its order laws in the lemmas below |
| Strings.LessIsLexicographic | jstagram/model-inmemory.js:68 | `a < b` on titles holds exactly when `a` is a proper prefix of `b`, or the two agree up to a position where `a` has the smaller character |
| Strings.LessIrreflexive | jstagram/model-inmemory.js:68 | no title sorts before itself |
| Strings.LessAsymmetric | jstagram/model-inmemory.js:68 | two titles are never each before the other |
| Strings.LessTransitive | jstagram/model-inmemory.js:68 | the title order is transitive |
| Strings.LessTotal | jstagram/model-inmemory.js:68-70 | two titles are equal or one sorts before the other, so `titleAsc` always ends in one of its three returns |
| Strings.LessCommonPrefix | jstagram/model-inmemory.js:68 | a shared prefix does not change how two titles compare: `p + a < p + b` exactly when `a < b` |
| Strings.Includes | jstagram/model-inmemory.js:28 | `s.includes(t)`, tried at each starting position; no ensures of its own, its meaning is proved in `IncludesIsOccurs` |
| Strings.IncludesIsOccurs | jstagram/model-inmemory.js:28 | `s.includes(t)` holds exactly when `t` occurs as a contiguous piece of `s` |
| Strings.Split | jstagram/model-inmemory.js:119 | `split('/')` yields at least one piece, and no piece contains the separator |
| Strings.JoinSplit | jstagram/model-inmemory.js:119 | joining the pieces of a split with the separator gives back the string |
| Strings.SplitJoin | jstagram/model-inmemory.js:119 | splitting pieces without separators, once joined, gives back the pieces |
| Strings.SplitNoSeparator | jstagram/model-inmemory.js:119 | a string without the separator splits into itself alone |
| Strings.SplitAtFirstSeparator | jstagram/model-inmemory.js:119 | the first piece of a split ends at the first separator |
| Sorting.Insert | jstagram/model-inmemory.js:35-39 | one step of the stand-in for `retval.sort(cmp)`: one element longer; what it keeps is proved in `InsertPermutation`, `InsertSorted` and `InsertStable` |
| Sorting.Sort | jstagram/model-inmemory.js:35-39 | the stand-in for `retval.sort(cmp)`: as long as its input; proved ordered, a permutation and stable in `SortIsStableSort`, and the only stable sort in `StableSortIsSort` |
| Sorting.InsertPermutation | jstagram/model-inmemory.js:35 | one insertion step adds exactly the inserted element, as a multiset |
| Sorting.SortPermutation | jstagram/model-inmemory.js:35 | `retval.sort(cmp)` is a permutation of its input: nothing lost, nothing duplicated |
| Sorting.InsertAtEnd | jstagram/model-inmemory.js:35 | an element ranked after all others is inserted last |
| Sorting.InsertSorted | jstagram/model-inmemory.js:35 | inserting into an ordered sequence keeps it ordered |
| Sorting.SortSorted | jstagram/model-inmemory.js:35 | the sort's result is ordered by any consistent comparator |
| Sorting.InsertStable | jstagram/model-inmemory.js:35 | an insertion keeps the order of elements the comparator ties |
| Sorting.SortStable | jstagram/model-inmemory.js:35 | the sort keeps the catalog order of tied elements |
| Sorting.SortIsStableSort | jstagram/model-inmemory.js:35 | the sort is ordered, a permutation and stable, all three together |
| Sorting.StableSortsAgree | jstagram/model-inmemory.js:35 | two ordered permutations that keep tied elements in the same order are equal |
| Sorting.StableSortIsSort | jstagram/model-inmemory.js:35 | every stable sort by a consistent comparator returns what `Sort` returns, so the result does not depend on the engine |
| Sorting.StrictlySortedUnique | jstagram/model-inmemory.js:35-39 | two strictly ordered arrangements of the same elements are equal |
| Pictures.Project | jstagram/model-inmemory.js:57-61 | the `map` gives one public record per record, in order, with `/img/` prefixed to the file |
| Pictures.ProjectAppend | jstagram/model-inmemory.js:57-61 | the projection distributes over concatenation |
| Pictures.ProjectPermutation | jstagram/model-inmemory.js:57-61 | projecting a permutation gives a permutation of the projection |
| Pictures.TitleAsc | jstagram/model-inmemory.js:67-71 | `titleAsc` with its three returns; no ensures of its own, its meaning is proved in `TitleAscMeaning` |
| Pictures.TitleDesc | jstagram/model-inmemory.js:73-75 | `titleDesc`; no ensures of its own, it is proved to be `titleAsc` with its arguments swapped in `TitleDescSwapsAsc` |
| Pictures.TitleAscMeaning | jstagram/model-inmemory.js:67-71 | `titleAsc` is negative, zero or positive exactly when the first title sorts before, equals or sorts after the second |
| Pictures.TitleDescSwapsAsc | jstagram/model-inmemory.js:73-75 | `titleDesc(a, b)` equals `titleAsc(b, a)` |
| Pictures.TitleAscIsComparator | jstagram/model-inmemory.js:67-71 | `titleAsc` is antisymmetric and transitive, as the sort requires |
| Pictures.TitleDescIsComparator | jstagram/model-inmemory.js:73-75 | `titleDesc` is antisymmetric and transitive, as the sort requires |
| Listing.Matches | jstagram/model-inmemory.js:27-28 | the filter test: no title or an empty one keeps every record, otherwise the record title must include it; no ensures of its own, used by `Filtered` and its lemmas |
| Listing.KeepIncluding | jstagram/model-inmemory.js:28 | the filter is no longer than the catalog, and every record it keeps has the filter text in its title |
| Listing.Filtered | jstagram/model-inmemory.js:27-29 | the filtering step is no longer than the catalog, and every record it keeps passes the filter |
| Listing.KeepIncludingCounts | jstagram/model-inmemory.js:28 | the filter keeps every copy of a matching record and nothing else |
| Listing.FilteredCounts | jstagram/model-inmemory.js:27-29 | the filtering step keeps exactly the matching records, each as often as in the catalog |
| Listing.KeepIncludingAppend | jstagram/model-inmemory.js:28 | filtering distributes over concatenation, so catalog order is kept |
| Listing.FilteredAppend | jstagram/model-inmemory.js:27-29 | the filtering step keeps catalog order |
| Listing.ResolveOrder | jstagram/model-inmemory.js:32-50 | the `switch` on the sort token; no ensures of its own, its cases are stated in `AliasesAgree` |
| Listing.Cap | jstagram/model-inmemory.js:54 | the truncation to `LIMIT` records; no ensures of its own, the listing length it gives is stated on `ListingOf` |
| Listing.Arrange | jstagram/model-inmemory.js:32-51 | the arrangement each branch of the `switch` produces; no ensures of its own, characterised in `ArrangeDrawsFrom` and the per-order listing lemmas |
| Listing.Reverse | jstagram/model-inmemory.js:50 | `reverse()` puts element `n-1-k` at position `k` |
| Listing.LatestReversed | jstagram/model-inmemory.js:50 | `slice(-LIMIT).reverse()` holds `min(LIMIT, n)` elements, the last element first and each position `k` holding element `n-1-k` |
| Listing.LatestReversedIsCappedReverse | jstagram/model-inmemory.js:50-54 | `slice(-LIMIT).reverse()` is the first `LIMIT` elements of the whole reversal |
| Listing.RandomIndex | jstagram/model-inmemory.js:81 | `Math.floor(Math.random() * arr.length)` is a valid index of the array |
| Listing.Swap | jstagram/model-inmemory.js:82-84 | exchanging two positions puts each one's element in the other and changes no other position |
| Listing.SwapPermutation | jstagram/model-inmemory.js:82-84 | exchanging two positions rearranges the array |
| Listing.StartCount | jstagram/model-inmemory.js:78 | the number of positions shuffled never exceeds the array length |
| Listing.Shuffled | jstagram/model-inmemory.js:77-87 | the partial shuffle keeps the array length |
| Listing.ShuffledPermutation | jstagram/model-inmemory.js:77-87 | `randomizeArrayStart` is a permutation of the array, whatever the draws |
| Listing.ShuffledStep | jstagram/model-inmemory.js:79-85 | one turn of the loop uses one draw and leaves the same final arrangement to reach |
| Listing.SwapElements | jstagram/model-inmemory.js:82-84 | the three-assignment exchange in the array is `Swap` of its old contents |
| Listing.RandomizeArrayStart | jstagram/model-inmemory.js:77-87 | the loop leaves the array holding `Shuffled` of its old contents |
| Listing.ListingOf | jstagram/model-inmemory.js:23-64 | a listing holds `min(LIMIT, number of matching records)` records |
| Listing.ArrangeDrawsFrom | jstagram/model-inmemory.js:32-51 | every ordering takes its records from the filtered ones |
| Listing.ListingFromCatalog | jstagram/model-inmemory.js:23-64 | every listed record is the public view of a catalog record that passes the filter |
| Listing.AscendingListing | jstagram/model-inmemory.js:34-35 | `asc`/`a2z` list titles in ascending order, as the first page of a stable sort by `titleAsc` |
| Listing.DescendingListing | jstagram/model-inmemory.js:38-39 | `desc`/`z2a` list titles in descending order, as the first page of a stable sort by `titleDesc` |
| Listing.AscendingByAnyStableSort | jstagram/model-inmemory.js:34-35 | for every stable sort of the filtered records by `titleAsc`, `asc`/`a2z` list the first page of its result |
| Listing.DescendingByAnyStableSort | jstagram/model-inmemory.js:38-39 | for every stable sort of the filtered records by `titleDesc`, `desc`/`z2a` list the first page of its result |
| Listing.PermutationKeepsDistinctTitles | jstagram/model-inmemory.js:35-39 | rearranging records keeps their titles distinct |
| Listing.SortAscReversesDesc | jstagram/model-inmemory.js:35-39 | with distinct titles, the ascending sort is the descending sort reversed |
| Listing.AscendingReversesDescending | jstagram/model-inmemory.js:34-39 | with distinct titles on one page, the `asc` listing is the `desc` listing reversed |
| Listing.TiedTitlesNotReversed | jstagram/model-inmemory.js:34-39 | for any two records with the same title and different ids, `asc` and `desc` both keep catalog order, so the two listings are not reverses |
| Listing.SameOrderSameListing | jstagram/model-inmemory.js:32-51 | tokens that select the same branch of the switch give the same listing |
| Listing.AliasesAgree | jstagram/model-inmemory.js:32-50 | `a2z`=`asc`, `z2a`=`desc`, `rnd`=`random`; `new`, the absent token and every unnamed token select newest first |
| Listing.OldestListing | jstagram/model-inmemory.js:46 | `old` lists the first `LIMIT` matching records in catalog order |
| Listing.NewestListing | jstagram/model-inmemory.js:49-50 | `new` and the default list the last `LIMIT` matching records, most recent first |
| Listing.NewestIsLatest | jstagram/model-inmemory.js:49-54 | newest first, the listing is the public view of the last `LIMIT` matching records, most recent first |
| Listing.NewestReversesOldest | jstagram/model-inmemory.js:46-50 | up to a page of records, `new` is `old` reversed |
| Listing.ShuffledListing | jstagram/model-inmemory.js:42-43 | `random`/`rnd` list `min(LIMIT, n)` records, never one more often than it matches; when they fit a page, every matching record exactly once |
| Store.NewFilename | jstagram/model-inmemory.js:119-120 | `filename + '.' + fileExt`; no ensures of its own, stated for the test upload in `PngUploadName` |
| Store.FileExtension | jstagram/model-inmemory.js:119 | the extension is never empty and holds no `/` |
| Store.FileExtensionIsSubtype | jstagram/model-inmemory.js:119 | for `type/subtype` (with or without more after a second `/`) the extension is the subtype |
| Store.FileExtensionDefault | jstagram/model-inmemory.js:119 | without a subtype, or with an empty one, the extension is `png` |
| Store.RemoveKeepsIdsIncreasing | jstagram/model-inmemory.js:106 | taking one record out keeps ids increasing and below the counter |
| Store.IdsIncreasingUnique | jstagram/model-inmemory.js:95-100 | increasing ids are unique, so the first match of the search loop is the only one |
| Store.AppendKeepsIdsIncreasing | jstagram/model-inmemory.js:129-136 | appending under `nextId` and incrementing it keeps ids increasing and below the counter |
| Store.LatestReversedAppend | jstagram/model-inmemory.js:50 | after one more element is appended, the newest-first page starts with it and continues with the old page; the old page's last element drops out only when that page was full (`LIMIT` elements) |
| Store.UploadListedFirst | jstagram/model-inmemory.js:129-136 | after an upload that passes the filter, newest first lists the new record, followed by the previous listing; its last record drops out only when the previous listing was a full page (`LIMIT` records) |
| Store.RemovedIdAbsent | jstagram/model-inmemory.js:106 | the id of a spliced-out record is held by none of the records left |
| Store.DeletedNeverListed | jstagram/model-inmemory.js:106 | once a record is spliced out, no listing of any filter or order shows its id |
| Store.Seed | jstagram/model-inmemory.js:12-17 | the four seed records; no ensures of its own, their title order is stated in `SeedTitleOrder` |
| Store.SeedTitleOrder | jstagram/model-inmemory.js:12-17 | how the four seed titles compare under `titleAsc` |
| Store.SeedByTitle | examples/test.js:38-54 | on the seed catalog, `asc`/`a2z` list ids 1, 4, 3, 2 and `desc`/`z2a` 2, 3, 4, 1 |
| Store.SeedByAge | examples/test.js:56-84 | on the seed catalog, `old` lists ids 1, 2, 3, 4; `new` and the absent token 4, 3, 2, 1 |
| Store.SeedRandom | examples/test.js:68-78 | on the seed catalog, `rnd` lists four records, the seed records each once |
| Store.PngExtension | examples/test.js:96-100 | the MIME type `image/png` gives the extension `png` |
| Store.PngFilename | jstagram/model-inmemory.js:119-120 | any file uploaded as `image/png` is stored under its name with `.png` appended |
| Store.PngUploadName | examples/test.js:96-112 | uploading `toDelete` as `image/png` stores the file as `toDelete.png` |
| Store.PngPublicFile | examples/test.js:110-112 | the stored `toDelete.png` is returned with the public file `/img/toDelete.png` |
| Store.SeedUploadListed | examples/test.js:116-120 | after the upload with id 5, newest first lists ids 5, 4, 3, 2, 1 |
| Store.Arranged | jstagram/model-inmemory.js:32-51 | the switch on a copy of the filtered records produces the arrangement its token selects |
| Store.PictureStore.constructor | jstagram/model-inmemory.js:12-19 | the store starts with the four seed records and `nextId` 5, ids valid |
| Store.PictureStore.ListPictures | jstagram/model-inmemory.js:23-64 | returns `ListingOf` the catalog: at most `LIMIT` records, each the public view of a matching catalog record; the catalog is unchanged |
| Store.PictureStore.IndexOf | jstagram/model-inmemory.js:94-100 | returns the first position holding the id, or none when no record has it |
| Store.PictureStore.DeletePicture | jstagram/model-inmemory.js:92-114 | unknown id: fails with `Gone`, nothing changes; known id: exactly that record is removed, order kept, and the result is success or `failed fs delete of <localimg><file>` with the cause, the record staying removed in both cases; `nextId` unchanged |
| Store.PictureStore.UploadPicture | jstagram/model-inmemory.js:117-139 | failed move: `failed to move incoming file` with the cause, nothing changes; success: a record with id old `nextId`, the title and `<filename>.<ext>` is appended, `nextId` grows by one, and its public view is returned |

## Left out

- The JavaScript `Array.prototype.sort` algorithm: it is stood for by a stable insertion sort. ECMAScript 2019 and later require the sort to be stable, and `Sorting.StableSortIsSort` proves that a stable sort by a consistent comparator has only one possible result. The title comparators are proved consistent, so the result is the one the engine gives.
- `retval.sort` sorts a copy of the filtered records in place, and the truncation (`retval.length = LIMIT`) and the reversal of the fresh slice also update that local copy in place. All three are modelled on sequence values; no aliasing is observable because `retval` is a copy. `randomizeArrayStart` is the one array update kept in place.
- `Math.random()`: the model takes the values it returns as an input, each in [0, 1). Their distribution, and the floating-point rounding of `Math.random() * arr.length`, are not modelled; the product is an exact real.
- Title comparison: JavaScript compares strings by UTF-16 code unit. The model compares Dafny characters (Unicode scalar values). The two orders agree except on characters outside the Basic Multilingual Plane.
- `listPictures` arguments that are not strings: `title` and `sort` are modelled as an optional string. `null`, `undefined` and `''` are the absent or empty filter. Other falsy or non-string values are not modelled.
- Store.PictureStore.DeletePicture: takes an integer id. The `parseInt` coercion of a non-number id is not modelled, and neither is a `NaN` id, which matches no record.
- Store.PictureStore.UploadPicture: a `reqFile` without a `mimetype` makes the source throw a `TypeError` before any move. The model always has a MIME string. The unused third argument of the server's and the tests' calls is ignored.
- The file system: `fs.unlink` and `fs.rename` are not performed. Their outcome is an input. The paths they are called with (`localimg + file` for the unlink; `reqFile.path` and `localimg + newFilename` for the rename) are not part of the model, except the unlink path in the delete error message.
- Asynchrony: the `async` functions are modelled as atomic steps. Interleaving between concurrent requests is not modelled.
- `nextId` is an unbounded integer. JavaScript numbers lose integer precision above 2^53, which the model does not capture.
- `config.localimg` is derived from the install directory with `path.join`. It is a constructor parameter of the store.
- The SQL-backed model, the web server, the routes and the browser pages are other parts of the repository and are not part of this model.
