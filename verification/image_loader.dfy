/** The pure helpers of src/utils/imageLoader.ts: sorting images and
    revoking object URLs. The browser decode and URL-creation calls are
    not part of this model. */
module ImageLoader {
  import opened Types
  import opened Text
  import opened Sorting

  /** The `by` argument of `sortImages`. */
  datatype SortField = ByName | ByDate | BySize

  /** The comparator handed to `Array.prototype.sort`; `localeCompare` is a parameter. */
  function Compare(field: SortField, localeCompare: (string, string) -> int, a: ImageFile, b: ImageFile): int {
    match field
    case ByName => localeCompare(a.name, b.name)
    case ByDate => a.lastModified - b.lastModified
    case BySize => a.size - b.size
  }

  /** A stable sort keeps `a` before `b` exactly when the comparator does not put `b` first. */
  function GoesBefore(field: SortField, localeCompare: (string, string) -> int): (ImageFile, ImageFile) -> bool {
    (a: ImageFile, b: ImageFile) => Compare(field, localeCompare, a, b) <= 0
  }

  /** `sortImages(images, by = 'name', ascending = true)`: sort a copy, reverse
      it for descending. `localeCompare` has no default, so callers that rely
      on the other defaults pass it by name. */
  function SortImages(images: seq<ImageFile>, field: SortField := ByName, ascending: bool := true,
                      localeCompare: (string, string) -> int): (r: seq<ImageFile>)
    ensures |r| == |images|
    ensures multiset(r) == multiset(images)
    ensures |images| == 0 ==> r == []
  {
    var sorted := SortBy(images, GoesBefore(field, localeCompare));
    if ascending then sorted else Reverse(sorted)
  }

  /** `localeCompare` treated as an abstract comparator that orders all strings. */
  ghost predicate ConsistentComparator(localeCompare: (string, string) -> int) {
    TotalPreorder((a: string, b: string) => localeCompare(a, b) <= 0)
  }

  lemma KeyOrdersArePreorders(field: SortField, localeCompare: (string, string) -> int)
    requires field == ByName ==> ConsistentComparator(localeCompare)
    ensures TotalPreorder(GoesBefore(field, localeCompare))
  {
    var le := GoesBefore(field, localeCompare);
    if field == ByName {
      var sle := (a: string, b: string) => localeCompare(a, b) <= 0;
      forall a: ImageFile, b: ImageFile ensures le(a, b) || le(b, a) {
        assert sle(a.name, b.name) || sle(b.name, a.name);
      }
      forall a: ImageFile, b: ImageFile, c: ImageFile | le(a, b) && le(b, c) ensures le(a, c) {
        assert sle(a.name, b.name) && sle(b.name, c.name);
      }
    }
  }

  lemma AscendingIsSorted(images: seq<ImageFile>, field: SortField, localeCompare: (string, string) -> int)
    requires field == ByName ==> ConsistentComparator(localeCompare)
    ensures SortedBy(SortImages(images, field, true, localeCompare), GoesBefore(field, localeCompare))
  {
    KeyOrdersArePreorders(field, localeCompare);
    SortBySorted(images, GoesBefore(field, localeCompare));
  }

  /** Ascending by date or size: the keys never decrease along the result. */
  lemma {:induction false} SortAscendingByKey(images: seq<ImageFile>, field: SortField,
                                              localeCompare: (string, string) -> int)
    requires field != ByName
    ensures var r := SortImages(images, field, true, localeCompare);
      forall i, j :: 0 <= i < j < |r| ==>
        (if field == ByDate then r[i].lastModified <= r[j].lastModified else r[i].size <= r[j].size)
  {
    KeyOrdersArePreorders(field, localeCompare);
    SortBySorted(images, GoesBefore(field, localeCompare));
  }

  /** Ascending by name: ordered by the comparator. */
  lemma {:induction false} SortAscendingByName(images: seq<ImageFile>, localeCompare: (string, string) -> int)
    requires ConsistentComparator(localeCompare)
    ensures var r := SortImages(images, ByName, true, localeCompare);
      forall i, j :: 0 <= i < j < |r| ==> localeCompare(r[i].name, r[j].name) <= 0
  {
    KeyOrdersArePreorders(ByName, localeCompare);
    SortBySorted(images, GoesBefore(ByName, localeCompare));
  }

  /** With the defaults (`by = 'name'`, `ascending = true`) the result is ordered by name. */
  lemma DefaultSortIsAscendingByName(images: seq<ImageFile>, localeCompare: (string, string) -> int)
    requires ConsistentComparator(localeCompare)
    ensures var r := SortImages(images, localeCompare := localeCompare);
      forall i, j :: 0 <= i < j < |r| ==> localeCompare(r[i].name, r[j].name) <= 0
  {
    SortAscendingByName(images, localeCompare);
  }

  /** Descending is the ascending result read backwards, hence ordered the other way round. */
  lemma {:induction false} SortDescendingReversesAscending(images: seq<ImageFile>, field: SortField,
                                                           localeCompare: (string, string) -> int)
    requires field == ByName ==> ConsistentComparator(localeCompare)
    ensures |SortImages(images, field, false, localeCompare)| == |images|
    ensures forall i :: 0 <= i < |images| ==>
      SortImages(images, field, false, localeCompare)[i] ==
      SortImages(images, field, true, localeCompare)[|images| - 1 - i]
    ensures forall i, j :: 0 <= i < j < |images| ==>
      Compare(field, localeCompare, SortImages(images, field, false, localeCompare)[j],
              SortImages(images, field, false, localeCompare)[i]) <= 0
  {
    AscendingIsSorted(images, field, localeCompare);
    DescendingOrdered(SortImages(images, field, true, localeCompare), field, localeCompare);
  }

  /** Reading a sorted list backwards orders it the other way round. */
  lemma DescendingOrdered(up: seq<ImageFile>, field: SortField, localeCompare: (string, string) -> int)
    requires SortedBy(up, GoesBefore(field, localeCompare))
    ensures forall i, j :: 0 <= i < j < |up| ==> Compare(field, localeCompare, Reverse(up)[j], Reverse(up)[i]) <= 0
  {
    var le := GoesBefore(field, localeCompare);
    ReverseOfSorted(up, le);
    forall i, j | 0 <= i < j < |up|
      ensures Compare(field, localeCompare, Reverse(up)[j], Reverse(up)[i]) <= 0
    {
      assert le(Reverse(up)[j], Reverse(up)[i]);
    }
  }

  /** Images whose sort keys tie keep their input order. */
  lemma {:induction false} SortAscendingIsStable(images: seq<ImageFile>, field: SortField,
                                                 localeCompare: (string, string) -> int, z: ImageFile)
    requires field == ByName ==> ConsistentComparator(localeCompare)
    ensures var tie := TieClass(GoesBefore(field, localeCompare), z);
      Filter(SortImages(images, field, true, localeCompare), tie) == Filter(images, tie)
  {
    KeyOrdersArePreorders(field, localeCompare);
    SortByStable(images, GoesBefore(field, localeCompare), z);
  }

  // ---------------------------------------------------------------------
  // Object-URL revocation. The browser's registry of revoked object URLs is
  // modelled as a log: the sequence of URLs passed to `URL.revokeObjectURL`.

  predicate IsBlobUrl(url: string) {
    StartsWith(url, "blob:")
  }

  /** `revokeImageUrl(url)`: only `blob:` URLs reach `URL.revokeObjectURL`. */
  function RevokeImageUrl(revoked: seq<string>, url: string): (r: seq<string>)
    ensures IsBlobUrl(url) ==> r == revoked + [url]
    ensures !IsBlobUrl(url) ==> r == revoked
  {
    if IsBlobUrl(url) then revoked + [url] else revoked
  }

  /** `revokeImageUrl` applied to each URL in turn. */
  function RevokeAll(revoked: seq<string>, urls: seq<string>): (r: seq<string>)
    decreases urls
    ensures |revoked| <= |r| <= |revoked| + |urls|
    ensures r[..|revoked|] == revoked
  {
    if |urls| == 0 then revoked else RevokeAll(RevokeImageUrl(revoked, urls[0]), urls[1..])
  }

  /** Revoking a list of URLs logs exactly its `blob:` URLs, in order. */
  lemma {:induction false} RevokeAllLogsBlobUrls(revoked: seq<string>, urls: seq<string>)
    ensures RevokeAll(revoked, urls) == revoked + Filter(urls, IsBlobUrl)
    decreases urls
  {
    if |urls| > 0 {
      RevokeAllLogsBlobUrls(RevokeImageUrl(revoked, urls[0]), urls[1..]);
    }
  }
}
