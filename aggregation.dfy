/** The list endpoints of the ManhwaWeb source: the "popular" and "latest" responses
    each carry several overlapping buckets that are merged into one list, and the
    search response is passed through with its own pagination flag. */
module Aggregation {
  import opened Collections

  /** An entry of the popular payload (`weekly` and `total` buckets). */
  datatype PopularComic = PopularComic(slug: string, views: int, title: string, cover: string)

  datatype PopularData = PopularData(weekly: seq<PopularComic>, total: seq<PopularComic>)

  /** An entry of the latest payload; `comicType` is the entry's `type` field. */
  datatype LatestComic = LatestComic(comicType: string, slug: string, latestChapterDate: int,
                                     title: string, cover: string)

  /** The latest payload: Spanish, raw adult and Spanish adult buckets, in that order. */
  datatype LatestData = LatestData(esp: seq<LatestComic>, raw18: seq<LatestComic>, esp18: seq<LatestComic>)

  datatype SearchPayload<T> = SearchPayload(data: seq<T>, hasNextPage: bool)

  /** One page of results handed to the host. */
  datatype MangasPage<T> = MangasPage(mangas: seq<T>, hasNextPage: bool)

  function PopularKey(c: PopularComic): string { c.slug }

  function Views(c: PopularComic): real { c.views as real }

  /** The latest list's dedup key: the entry's type and slug, concatenated as text. */
  function LatestKey(c: LatestComic): string { c.comicType + c.slug }

  function LatestDate(c: LatestComic): real { c.latestChapterDate as real }

  /** `popularMangaParse`: `weekly + total`, first entry per slug, most viewed first. */
  function PopularMangaParse(data: PopularData): (page: MangasPage<PopularComic>)
    ensures !page.hasNextPage
    ensures forall i, j :: 0 <= i < j < |page.mangas| ==> page.mangas[i].slug != page.mangas[j].slug
    ensures forall i :: 0 <= i < |page.mangas| ==>
      IsFirstOccurrence(data.weekly + data.total, PopularKey, page.mangas[i])
    ensures KeysOf(page.mangas, PopularKey) == KeysOf(data.weekly + data.total, PopularKey)
    ensures forall i, j :: 0 <= i < j < |page.mangas| ==> page.mangas[i].views >= page.mangas[j].views
    ensures multiset(page.mangas) == multiset(DistinctBy(data.weekly + data.total, PopularKey))
    ensures StableFor(page.mangas, DistinctBy(data.weekly + data.total, PopularKey), Views)
  {
    FlattenTwo(data.weekly, data.total);
    var mangas := Merge([data.weekly, data.total], PopularKey, Views);
    assert forall i, j :: 0 <= i < j < |mangas| ==> Views(mangas[i]) >= Views(mangas[j]);
    MangasPage(mangas, false)
  }

  /** `latestUpdatesParse`: `esp + raw18 + esp18`, first entry per type and slug,
      most recently updated first. */
  function LatestUpdatesParse(data: LatestData): (page: MangasPage<LatestComic>)
    ensures !page.hasNextPage
    ensures forall i, j :: 0 <= i < j < |page.mangas| ==>
      page.mangas[i].comicType + page.mangas[i].slug != page.mangas[j].comicType + page.mangas[j].slug
    ensures forall i :: 0 <= i < |page.mangas| ==>
      IsFirstOccurrence(data.esp + data.raw18 + data.esp18, LatestKey, page.mangas[i])
    ensures KeysOf(page.mangas, LatestKey) == KeysOf(data.esp + data.raw18 + data.esp18, LatestKey)
    ensures forall i, j :: 0 <= i < j < |page.mangas| ==>
      page.mangas[i].latestChapterDate >= page.mangas[j].latestChapterDate
    ensures multiset(page.mangas) == multiset(DistinctBy(data.esp + data.raw18 + data.esp18, LatestKey))
    ensures StableFor(page.mangas, DistinctBy(data.esp + data.raw18 + data.esp18, LatestKey), LatestDate)
  {
    FlattenThree(data.esp, data.raw18, data.esp18);
    var mangas := Merge([data.esp, data.raw18, data.esp18], LatestKey, LatestDate);
    assert forall i, j :: 0 <= i < j < |mangas| ==> LatestDate(mangas[i]) >= LatestDate(mangas[j]);
    MangasPage(mangas, false)
  }

  /** `searchMangaParse`: the entries and the `hasNextPage` flag are passed through. */
  function SearchMangaParse<T>(payload: SearchPayload<T>): (page: MangasPage<T>)
    ensures page.mangas == payload.data
    ensures page.hasNextPage == payload.hasNextPage
  {
    MangasPage(payload.data, payload.hasNextPage)
  }

  /** First occurrence wins over a later duplicate, whatever its view count: a `total`
      entry whose slug already appeared in `weekly` is dropped. */
  lemma PopularFirstWins(a: PopularComic, b: PopularComic)
    requires a.slug == b.slug
    ensures PopularMangaParse(PopularData([a], [b])).mangas == [a]
  {
    var data := PopularData([a], [b]);
    assert data.weekly + data.total == [a, b];
    assert DistinctBy([a, b], PopularKey) == [a] by {
      assert [a, b][1..] == [b];
      assert [b][1..] == [];
      assert DistinctFrom([b], PopularKey, {a.slug}) == DistinctFrom([], PopularKey, {a.slug});
      assert DistinctFrom([a, b], PopularKey, {}) == [a] + DistinctFrom([b], PopularKey, {} + {a.slug});
    }
    var m := PopularMangaParse(data).mangas;
    assert multiset(m) == multiset{a};
    assert |m| == |multiset(m)|;
    assert m[0] in multiset(m);
  }

  /** A bucket repeating entries already seen adds nothing to the popular list: the
      list is the same, entry for entry and in the same order. */
  lemma PopularRepeatedBucket(weekly: seq<PopularComic>, total: seq<PopularComic>)
    requires KeysOf(total, PopularKey) <= KeysOf(weekly, PopularKey)
    ensures PopularMangaParse(PopularData(weekly, total)).mangas ==
            PopularMangaParse(PopularData(weekly, [])).mangas
  {
    MergeRepeated(weekly, total, PopularKey, Views);
  }

  /** The latest dedup key is text concatenation, so two entries whose type and slug
      differ but concatenate to the same text count as one entry. */
  lemma LatestKeyConcatenates(e1: LatestComic, e2: LatestComic)
    requires e1.comicType == "ab" && e1.slug == "c"
    requires e2.comicType == "a" && e2.slug == "bc"
    ensures LatestUpdatesParse(LatestData([e1], [e2], [])).mangas == [e1]
  {
    var data := LatestData([e1], [e2], []);
    var all := data.esp + data.raw18 + data.esp18;
    assert all == [e1, e2];
    assert LatestKey(e1) == LatestKey(e2);
    assert DistinctBy(all, LatestKey) == [e1] by {
      assert all[1..] == [e2];
      assert [e2][1..] == [];
      assert DistinctFrom([e2], LatestKey, {LatestKey(e1)}) == DistinctFrom([], LatestKey, {LatestKey(e1)});
      assert DistinctFrom(all, LatestKey, {}) == [e1] + DistinctFrom([e2], LatestKey, {} + {LatestKey(e1)});
    }
    var m := LatestUpdatesParse(data).mangas;
    assert multiset(m) == multiset{e1};
    assert |m| == |multiset(m)|;
    assert m[0] in multiset(m);
  }
}
