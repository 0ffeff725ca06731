/** The chapter list of the ManhwaWeb source: the translated ("Esp") and the raw
    ("Raw") tracks of a title are tagged, the raw track is filtered against the set
    of translated chapter numbers unless every raw chapter is wanted, and the two
    are concatenated and sorted, highest chapter number first. */
module Chapters {
  import opened Wrappers
  import opened Collections

  /** A chapter as the chapters payload carries it. */
  datatype ChapterDto = ChapterDto(number: real, createdAt: Option<int>, url: string)

  /** The chapters payload: the translated track and the raw track. */
  datatype ChapterPayload = ChapterPayload(esp: seq<ChapterDto>, raw: seq<ChapterDto>)

  /** The host's chapter record; `scanlator` holds the track tag. */
  datatype SChapter = SChapter(chapterNumber: real, dateUpload: int, url: string, scanlator: string)

  const ESP_TRACK := "Esp"
  const RAW_TRACK := "Raw"

  /** `toSChapter(type)`: number, upload date (0 when the payload has none), url and track. */
  function ToSChapter(d: ChapterDto, track: string): (c: SChapter)
    ensures c.chapterNumber == d.number && c.url == d.url && c.scanlator == track
    ensures d.createdAt.None? ==> c.dateUpload == 0
    ensures d.createdAt.Some? ==> c.dateUpload == d.createdAt.value
  {
    SChapter(d.number, match d.createdAt case Some(t) => t case None => 0, d.url, track)
  }

  /** `map { it.toSChapter(track) }`. */
  function ToSChapters(ds: seq<ChapterDto>, track: string): (cs: seq<SChapter>)
    ensures |cs| == |ds|
    ensures forall i :: 0 <= i < |ds| ==> cs[i] == ToSChapter(ds[i], track)
  {
    if ds == [] then [] else [ToSChapter(ds[0], track)] + ToSChapters(ds[1..], track)
  }

  function ChapterNumber(c: SChapter): real { c.chapterNumber }

  /** `map { it.chapter_number }.toSet()`. */
  function NumberSet(cs: seq<SChapter>): set<real>
  {
    set c | c in cs :: c.chapterNumber
  }

  /** `filter { it.chapter_number !in nums }`. */
  function WithoutNumbers(cs: seq<SChapter>, nums: set<real>): (r: seq<SChapter>)
    ensures forall c :: c in r ==> c in cs && c.chapterNumber !in nums
    ensures forall c :: c in cs && c.chapterNumber !in nums ==> c in r
    ensures |r| <= |cs|
  {
    if cs == [] then []
    else
      assert cs == [cs[0]] + cs[1..];
      (if cs[0].chapterNumber !in nums then [cs[0]] else []) + WithoutNumbers(cs[1..], nums)
  }

  /** One step of `filter`: the first chapter is kept or dropped, then the rest is filtered. */
  lemma WithoutNumbersCons(c: SChapter, cs: seq<SChapter>, nums: set<real>)
    ensures WithoutNumbers([c] + cs, nums) == (if c.chapterNumber !in nums then [c] else []) + WithoutNumbers(cs, nums)
  {
    assert ([c] + cs)[0] == c;
    assert ([c] + cs)[1..] == cs;
  }

  /** `filter` keeps the input order: filtering two lists one after the other is filtering
      their concatenation. */
  lemma {:induction false} WithoutNumbersAppend(a: seq<SChapter>, b: seq<SChapter>, nums: set<real>)
    ensures WithoutNumbers(a + b, nums) == WithoutNumbers(a, nums) + WithoutNumbers(b, nums)
  {
    if a == [] {
      assert a + b == b;
    } else {
      WithoutNumbersAppend(a[1..], b, nums);
      SplitFirst(a, b);
      WithoutNumbersAppendStep(a[0], a[1..], b, nums);
    }
  }

  /** The inductive step of `WithoutNumbersAppend`, for a list with first chapter `c`. */
  lemma WithoutNumbersAppendStep(c: SChapter, t: seq<SChapter>, b: seq<SChapter>, nums: set<real>)
    requires WithoutNumbers(t + b, nums) == WithoutNumbers(t, nums) + WithoutNumbers(b, nums)
    ensures WithoutNumbers([c] + (t + b), nums) == WithoutNumbers([c] + t, nums) + WithoutNumbers(b, nums)
  {
    var h := if c.chapterNumber !in nums then [c] else [];
    var x, y := WithoutNumbers(t, nums), WithoutNumbers(b, nums);
    WithoutNumbersCons(c, t + b, nums);
    WithoutNumbersCons(c, t, nums);
    Regroup(h, x, y);
  }

  /** `filter` keeps every copy of a chapter whose number is not in the set and none of
      the others. */
  lemma {:induction false} WithoutNumbersCount(cs: seq<SChapter>, nums: set<real>, c: SChapter)
    ensures multiset(WithoutNumbers(cs, nums))[c] == if c.chapterNumber in nums then 0 else multiset(cs)[c]
  {
    if cs != [] {
      WithoutNumbersCount(cs[1..], nums, c);
      SplitFirst(cs, []);
      WithoutNumbersCons(cs[0], cs[1..], nums);
    }
  }

  /** The raw chapters kept: all of them, or those whose number no translated chapter has. */
  function FilteredRaws(chaptersEsp: seq<SChapter>, chaptersRaw: seq<SChapter>, showAllRaws: bool): (r: seq<SChapter>)
    ensures showAllRaws ==> r == chaptersRaw
    ensures !showAllRaws ==> forall c :: c in r <==>
      c in chaptersRaw && forall e :: e in chaptersEsp ==> e.chapterNumber != c.chapterNumber
  {
    if showAllRaws then chaptersRaw else WithoutNumbers(chaptersRaw, NumberSet(chaptersEsp))
  }

  /** The translated chapters followed by the kept raw chapters, before sorting: one
      "Esp" chapter per translated entry, in payload order, then only "Raw" chapters,
      one per raw entry when every raw chapter is wanted. */
  function Concatenated(payload: ChapterPayload, showAllRaws: bool): (r: seq<SChapter>)
    ensures |payload.esp| <= |r| <= |payload.esp| + |payload.raw|
    ensures forall i :: 0 <= i < |payload.esp| ==> r[i] == ToSChapter(payload.esp[i], ESP_TRACK)
    ensures forall i :: |payload.esp| <= i < |r| ==> r[i].scanlator == RAW_TRACK
    ensures showAllRaws ==> |r| == |payload.esp| + |payload.raw|
  {
    var chaptersEsp := ToSChapters(payload.esp, ESP_TRACK);
    var chaptersRaw := ToSChapters(payload.raw, RAW_TRACK);
    chaptersEsp + FilteredRaws(chaptersEsp, chaptersRaw, showAllRaws)
  }

  /** After the translated chapters come exactly the kept raw chapters: with "show all
      raws" the whole raw track in payload order, otherwise never more copies of a
      chapter than the raw track has. */
  lemma ConcatenatedTail(payload: ChapterPayload, showAllRaws: bool)
    ensures var r := Concatenated(payload, showAllRaws);
      && |payload.esp| <= |r|
      && (showAllRaws ==> r[|payload.esp|..] == ToSChapters(payload.raw, RAW_TRACK))
      && multiset(r[|payload.esp|..]) <= multiset(ToSChapters(payload.raw, RAW_TRACK))
  {
    var esp := ToSChapters(payload.esp, ESP_TRACK);
    var raw := ToSChapters(payload.raw, RAW_TRACK);
    var r := Concatenated(payload, showAllRaws);
    assert r[|payload.esp|..] == FilteredRaws(esp, raw, showAllRaws);
    if !showAllRaws {
      forall c
        ensures multiset(WithoutNumbers(raw, NumberSet(esp)))[c] <= multiset(raw)[c]
      {
        WithoutNumbersCount(raw, NumberSet(esp), c);
      }
    }
  }

  /** `chapterListParse`, with the "show all raws" preference passed in. */
  function ChapterListParse(payload: ChapterPayload, showAllRaws: bool): (r: seq<SChapter>)
    ensures forall i, j :: 0 <= i < j < |r| ==> r[i].chapterNumber >= r[j].chapterNumber
    ensures multiset(r) == multiset(Concatenated(payload, showAllRaws))
    ensures StableFor(r, Concatenated(payload, showAllRaws), ChapterNumber)
  {
    var all := Concatenated(payload, showAllRaws);
    SortedByDescendingStable(all, ChapterNumber);
    var r := SortedByDescending(all, ChapterNumber);
    assert forall i, j :: 0 <= i < j < |r| ==> ChapterNumber(r[i]) >= ChapterNumber(r[j]);
    r
  }

  /** The chapter numbers of the translated track. */
  ghost function EspNumbers(payload: ChapterPayload): set<real>
  {
    set d | d in payload.esp :: d.number
  }

  lemma ToSChaptersMembers(ds: seq<ChapterDto>, track: string)
    ensures forall c :: c in ToSChapters(ds, track) ==> c.scanlator == track
    ensures forall c :: c in ToSChapters(ds, track) ==> exists d :: d in ds && c == ToSChapter(d, track)
    ensures forall d :: d in ds ==> ToSChapter(d, track) in ToSChapters(ds, track)
  {
    var cs := ToSChapters(ds, track);
    forall c | c in cs
      ensures c.scanlator == track && exists d :: d in ds && c == ToSChapter(d, track)
    {
      var i :| 0 <= i < |cs| && cs[i] == c;
      assert ds[i] in ds;
    }
    forall d | d in ds
      ensures ToSChapter(d, track) in cs
    {
      var i :| 0 <= i < |ds| && ds[i] == d;
      assert cs[i] == ToSChapter(d, track);
    }
  }

  /** The number set built from the tagged translated chapters is the set of numbers
      in the payload's translated track. */
  lemma NumberSetOfTrack(ds: seq<ChapterDto>, track: string)
    ensures NumberSet(ToSChapters(ds, track)) == set d | d in ds :: d.number
  {
    var cs := ToSChapters(ds, track);
    ToSChaptersMembers(ds, track);
    forall x | x in NumberSet(cs)
      ensures x in set d | d in ds :: d.number
    {
      var c :| c in cs && c.chapterNumber == x;
      var d :| d in ds && c == ToSChapter(d, track);
    }
    forall x | x in set d | d in ds :: d.number
      ensures x in NumberSet(cs)
    {
      var d :| d in ds && d.number == x;
      assert ToSChapter(d, track) in cs;
    }
  }

  lemma InOutput(payload: ChapterPayload, showAllRaws: bool, c: SChapter)
    ensures c in ChapterListParse(payload, showAllRaws) <==> c in Concatenated(payload, showAllRaws)
  {
    var r := ChapterListParse(payload, showAllRaws);
    var all := Concatenated(payload, showAllRaws);
    assert c in r <==> c in multiset(r);
    assert c in all <==> c in multiset(all);
  }

  /** Every translated chapter is in the list, whatever the preference. */
  lemma KeepsTranslated(payload: ChapterPayload, showAllRaws: bool)
    ensures forall d :: d in payload.esp ==> ToSChapter(d, ESP_TRACK) in ChapterListParse(payload, showAllRaws)
  {
    ToSChaptersMembers(payload.esp, ESP_TRACK);
    forall d | d in payload.esp
      ensures ToSChapter(d, ESP_TRACK) in ChapterListParse(payload, showAllRaws)
    {
      InOutput(payload, showAllRaws, ToSChapter(d, ESP_TRACK));
    }
  }

  /** By default no raw chapter whose number a translated chapter has is in the list. */
  lemma DropsShadowedRaws(payload: ChapterPayload)
    ensures forall c :: c in ChapterListParse(payload, false) && c.scanlator == RAW_TRACK ==>
      c.chapterNumber !in EspNumbers(payload)
  {
    var chaptersEsp := ToSChapters(payload.esp, ESP_TRACK);
    var chaptersRaw := ToSChapters(payload.raw, RAW_TRACK);
    ToSChaptersMembers(payload.esp, ESP_TRACK);
    NumberSetOfTrack(payload.esp, ESP_TRACK);
    forall c | c in ChapterListParse(payload, false) && c.scanlator == RAW_TRACK
      ensures c.chapterNumber !in EspNumbers(payload)
    {
      InOutput(payload, false, c);
      assert c !in chaptersEsp;
      assert c in WithoutNumbers(chaptersRaw, NumberSet(chaptersEsp));
    }
  }

  /** By default every raw chapter whose number no translated chapter has is in the list. */
  lemma KeepsUnshadowedRaws(payload: ChapterPayload)
    ensures forall d :: d in payload.raw && d.number !in EspNumbers(payload) ==>
      ToSChapter(d, RAW_TRACK) in ChapterListParse(payload, false)
  {
    var chaptersEsp := ToSChapters(payload.esp, ESP_TRACK);
    var chaptersRaw := ToSChapters(payload.raw, RAW_TRACK);
    ToSChaptersMembers(payload.raw, RAW_TRACK);
    NumberSetOfTrack(payload.esp, ESP_TRACK);
    forall d | d in payload.raw && d.number !in EspNumbers(payload)
      ensures ToSChapter(d, RAW_TRACK) in ChapterListParse(payload, false)
    {
      InOutput(payload, false, ToSChapter(d, RAW_TRACK));
      assert ToSChapter(d, RAW_TRACK) in WithoutNumbers(chaptersRaw, NumberSet(chaptersEsp));
    }
  }

  /** With "show all raws" set nothing is dropped: the list is a permutation of the
      translated chapters followed by all raw chapters. */
  lemma AllRawsKept(payload: ChapterPayload)
    ensures multiset(ChapterListParse(payload, true)) ==
      multiset(ToSChapters(payload.esp, ESP_TRACK) + ToSChapters(payload.raw, RAW_TRACK))
    ensures |ChapterListParse(payload, true)| == |payload.esp| + |payload.raw|
  {
    var r := ChapterListParse(payload, true);
    assert |r| == |multiset(r)|;
  }

  /** Each chapter in the list comes from the track its tag names. */
  lemma TracksTagged(payload: ChapterPayload, showAllRaws: bool)
    ensures forall c :: c in ChapterListParse(payload, showAllRaws) ==>
      || (c.scanlator == ESP_TRACK && exists d :: d in payload.esp && c == ToSChapter(d, ESP_TRACK))
      || (c.scanlator == RAW_TRACK && exists d :: d in payload.raw && c == ToSChapter(d, RAW_TRACK))
  {
    var chaptersEsp := ToSChapters(payload.esp, ESP_TRACK);
    var chaptersRaw := ToSChapters(payload.raw, RAW_TRACK);
    ToSChaptersMembers(payload.esp, ESP_TRACK);
    ToSChaptersMembers(payload.raw, RAW_TRACK);
    forall c | c in ChapterListParse(payload, showAllRaws)
      ensures || (c.scanlator == ESP_TRACK && exists d :: d in payload.esp && c == ToSChapter(d, ESP_TRACK))
              || (c.scanlator == RAW_TRACK && exists d :: d in payload.raw && c == ToSChapter(d, RAW_TRACK))
    {
      InOutput(payload, showAllRaws, c);
      if c !in chaptersEsp {
        assert c in FilteredRaws(chaptersEsp, chaptersRaw, showAllRaws);
        assert c in chaptersRaw;
      }
    }
  }

  predicate IsTranslated(c: SChapter) { c.scanlator == ESP_TRACK }

  /** Among chapters with equal numbers every translated chapter comes before every raw one. */
  lemma TranslatedBeforeRaw(payload: ChapterPayload, showAllRaws: bool, i: nat, j: nat)
    requires i < |ChapterListParse(payload, showAllRaws)| && j < |ChapterListParse(payload, showAllRaws)|
    requires ChapterListParse(payload, showAllRaws)[i].chapterNumber ==
             ChapterListParse(payload, showAllRaws)[j].chapterNumber
    requires ChapterListParse(payload, showAllRaws)[j].scanlator == ESP_TRACK
    requires ChapterListParse(payload, showAllRaws)[i].scanlator == RAW_TRACK
    ensures j < i
  {
    var r := ChapterListParse(payload, showAllRaws);
    var chaptersEsp := ToSChapters(payload.esp, ESP_TRACK);
    var chaptersRaw := ToSChapters(payload.raw, RAW_TRACK);
    var kept := FilteredRaws(chaptersEsp, chaptersRaw, showAllRaws);
    var k := r[i].chapterNumber;
    ToSChaptersMembers(payload.esp, ESP_TRACK);
    ToSChaptersMembers(payload.raw, RAW_TRACK);
    WithSortKeyAppend(chaptersEsp, kept, ChapterNumber, k);
    WithSortKeyMembers(chaptersEsp, ChapterNumber, k);
    WithSortKeyMembers(kept, ChapterNumber, k);
    assert forall c :: c in kept ==> c in chaptersRaw;
    GroupOrder(r, ChapterNumber, k, IsTranslated,
               WithSortKey(chaptersEsp, ChapterNumber, k), WithSortKey(kept, ChapterNumber, k), i, j);
  }
}
