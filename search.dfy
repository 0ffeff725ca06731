/** The search request of the ManhwaWeb source: the free-text query, one query
    parameter group per known filter in the order the filters come, and the
    zero-based page, appended one by one to a url builder. */
module Search {
  import opened Wrappers
  import opened Text
  import opened Endpoints
  import opened Collections

  const LIBRARY_URL := API_URL + "/manhwa/library"

  /** Kotlin's 32-bit `Int`. */
  type Int32 = x: int | -0x8000_0000 <= x < 0x8000_0000

  /** `page - 1` on a 32-bit `Int`: two's-complement subtraction, so the result agrees
      with the mathematical difference modulo 2^32; the smallest value wraps round to
      the largest. */
  function PreviousPage(page: Int32): (r: Int32)
    ensures (r - (page - 1)) % 0x1_0000_0000 == 0
    ensures page > -0x8000_0000 ==> r == page - 1
    ensures page == -0x8000_0000 ==> r == 0x7fff_ffff
  {
    if page == -0x8000_0000 then 0x7fff_ffff else page - 1
  }

  /** A genre check box: its numeric id and whether it is ticked. */
  datatype Genre = Genre(id: int, checked: bool)

  /** The state of the sort selector: the chosen property and the direction. */
  datatype SortSelection = SortSelection(index: nat, ascending: bool)

  /** The filters of the search screen. `uriPart` and `selected` stand for the values the
      filter classes compute from their state: `selected` is the sort property the sort
      filter looks up from `state.index`, so the request reads `index` only through it.
      `OtherFilter` is any other entry of the filter list (a separator, a header, a
      future filter kind). */
  datatype Filter =
    | TypeFilter(uriPart: string)
    | DemographyFilter(uriPart: string)
    | StatusFilter(uriPart: string)
    | EroticFilter(uriPart: string)
    | GenreFilter(genres: seq<Genre>)
    | SortByFilter(state: Option<SortSelection>, selected: string)
    | OtherFilter

  /** The `!!` on a sort selector without a state throws. */
  datatype SearchError = NullSortState

  type Param = (string, string)

  datatype HttpUrl = HttpUrl(base: string, query: seq<Param>)

  /** The ids of the ticked genres, in list order: none exactly when no box is ticked. */
  function CheckedIds(genres: seq<Genre>): (r: seq<int>)
    ensures |r| <= |genres|
    ensures r == [] <==> forall g :: g in genres ==> !g.checked
  {
    if genres == [] then []
    else
      assert genres == [genres[0]] + genres[1..];
      (if genres[0].checked then [genres[0].id] else []) + CheckedIds(genres[1..])
  }

  function IdStrings(ids: seq<int>): (r: seq<string>)
    ensures |r| == |ids| && forall i :: 0 <= i < |ids| ==> r[i] == IntToString(ids[i])
  {
    if ids == [] then [] else [IntToString(ids[0])] + IdStrings(ids[1..])
  }

  /** `filter { it.state }.joinToString("a") { it.id.toString() }`: empty exactly when no
      box is ticked. */
  function GenreValue(genres: seq<Genre>): (r: string)
    ensures r == "" <==> forall g :: g in genres ==> !g.checked
  {
    Join(IdStrings(CheckedIds(genres)), 'a')
  }

  function ParseIds(pieces: seq<string>): seq<int>
  {
    if pieces == [] then [] else [ParseInt(pieces[0])] + ParseIds(pieces[1..])
  }

  /** The query parameters one filter contributes, or the error its `!!` throws: only a
      sort selector without a state fails, and every name is one the backend knows. */
  function FilterParams(f: Filter): (r: Result<seq<Param>, SearchError>)
    ensures r.Err? <==> f.SortByFilter? && f.state.None?
    ensures r.Ok? ==> forall i :: 0 <= i < |r.value| ==> r.value[i].0 in QueryNames
    ensures f.OtherFilter? ==> r == Ok([])
  {
    match f
    case TypeFilter(part) => Ok([("tipo", part)])
    case DemographyFilter(part) => Ok([("demografia", part)])
    case StatusFilter(part) => Ok([("estado", part)])
    case EroticFilter(part) => Ok([("erotico", part)])
    case GenreFilter(genres) => Ok([("generes", GenreValue(genres))])
    case SortByFilter(state, selected) =>
      if state.None? then Err(NullSortState)
      else Ok([("order_dir", if state.value.ascending then "asc" else "desc"), ("order_item", selected)])
    case OtherFilter => Ok([])
  }

  /** Both parts succeed and are concatenated, or the first failure is kept. */
  function Then(a: Result<seq<Param>, SearchError>, b: Result<seq<Param>, SearchError>): Result<seq<Param>, SearchError>
  {
    match a
    case Err(e) => Err(e)
    case Ok(x) => match b case Err(e) => Err(e) case Ok(y) => Ok(x + y)
  }

  /** The parameters of a filter list, in its order; the first failing filter fails it. */
  function FiltersParams(fs: seq<Filter>): Result<seq<Param>, SearchError>
  {
    if fs == [] then Ok([]) else Then(FilterParams(fs[0]), FiltersParams(fs[1..]))
  }

  /** The whole query of a search request: it fails exactly when the filters do, and
      otherwise starts with the search text and ends with the page. */
  function SearchQuery(page: Int32, query: string, fs: seq<Filter>): (r: Result<seq<Param>, SearchError>)
    ensures r.Ok? <==> FiltersParams(fs).Ok?
    ensures r.Ok? ==>
      && |r.value| >= 2
      && r.value[0] == ("buscar", query)
      && r.value[|r.value| - 1] == ("page", IntToString(PreviousPage(page)))
  {
    Then(Then(Ok([("buscar", query)]), FiltersParams(fs)), Ok([("page", IntToString(PreviousPage(page)))]))
  }

  lemma ThenAssoc(a: Result<seq<Param>, SearchError>, b: Result<seq<Param>, SearchError>,
                  c: Result<seq<Param>, SearchError>)
    ensures Then(Then(a, b), c) == Then(a, Then(b, c))
  {
    if a.Ok? && b.Ok? && c.Ok? {
      assert a.value + b.value + c.value == a.value + (b.value + c.value);
    }
  }

  /** Filters contribute in input order: the parameters of `a + b` are those of `a`
      followed by those of `b`. */
  lemma {:induction false} FiltersParamsAppend(a: seq<Filter>, b: seq<Filter>)
    ensures FiltersParams(a + b) == Then(FiltersParams(a), FiltersParams(b))
  {
    if a == [] {
      assert a + b == b;
      assert FiltersParams(b).Ok? ==> [] + FiltersParams(b).value == FiltersParams(b).value;
    } else {
      assert (a + b)[0] == a[0];
      assert (a + b)[1..] == a[1..] + b;
      FiltersParamsAppend(a[1..], b);
      ThenAssoc(FilterParams(a[0]), FiltersParams(a[1..]), FiltersParams(b));
    }
  }

  /** One more filter at the end of the list adds its parameters at the end. */
  lemma FiltersParamsSnoc(fs: seq<Filter>, i: nat)
    requires i < |fs|
    ensures FiltersParams(fs[..i + 1]) == Then(FiltersParams(fs[..i]), FilterParams(fs[i]))
  {
    assert fs[..i + 1] == fs[..i] + [fs[i]];
    assert [fs[i]][1..] == [];
    FiltersParamsAppend(fs[..i], [fs[i]]);
    assert FilterParams(fs[i]).Ok? ==> FilterParams(fs[i]).value + [] == FilterParams(fs[i]).value;
  }

  /** A failing filter fails every list it belongs to. */
  lemma FiltersParamsFailsAt(fs: seq<Filter>, i: nat)
    requires i < |fs| && FilterParams(fs[i]).Err?
    ensures FiltersParams(fs).Err?
  {
    assert fs == fs[..i] + fs[i..];
    FiltersParamsAppend(fs[..i], fs[i..]);
    assert fs[i..][0] == fs[i];
  }

  /** A filter list fails exactly when one of its filters fails. */
  lemma {:induction false} FiltersParamsOk(fs: seq<Filter>)
    ensures FiltersParams(fs).Ok? <==> forall i :: 0 <= i < |fs| ==> FilterParams(fs[i]).Ok?
  {
    if fs != [] {
      FiltersParamsOk(fs[1..]);
      assert forall i :: 1 <= i < |fs| ==> fs[i] == fs[1..][i - 1];
    }
  }

  /** The request fails, with the error of the `!!`, exactly when some sort selector of
      the list has no state. */
  lemma SearchQueryFails(page: Int32, query: string, fs: seq<Filter>)
    ensures SearchQuery(page, query, fs).Err? <==>
      exists i :: 0 <= i < |fs| && fs[i].SortByFilter? && fs[i].state.None?
  {
    FiltersParamsOk(fs);
  }

  /** The query starts with the search text, ends with the zero-based page, and holds the
      filters' parameters in between. */
  lemma SearchQueryShape(page: Int32, query: string, fs: seq<Filter>)
    requires SearchQuery(page, query, fs).Ok?
    ensures var q := SearchQuery(page, query, fs).value;
      && |q| == |FiltersParams(fs).value| + 2
      && q[0] == ("buscar", query)
      && q[1..|q| - 1] == FiltersParams(fs).value
      && q[|q| - 1] == ("page", IntToString(PreviousPage(page)))
  {
    var q := SearchQuery(page, query, fs).value;
    assert q == [("buscar", query)] + FiltersParams(fs).value + [("page", IntToString(PreviousPage(page)))];
  }

  /** The page parameter reads back as one less than the requested page (wrapping at the
      smallest 32-bit value). */
  lemma SearchQueryPage(page: Int32, query: string, fs: seq<Filter>)
    requires SearchQuery(page, query, fs).Ok?
    ensures var q := SearchQuery(page, query, fs).value;
      && q[|q| - 1].0 == "page"
      && ParseInt(q[|q| - 1].1) == PreviousPage(page)
      && (page > -0x8000_0000 ==> ParseInt(q[|q| - 1].1) == page - 1)
  {
    SearchQueryShape(page, query, fs);
    ParseIntToString(PreviousPage(page));
  }

  /** Each filter's parameters sit at its own place in the query: after the search text
      and the parameters of the filters before it. */
  lemma SearchQueryFilterAt(page: Int32, query: string, a: seq<Filter>, f: Filter, b: seq<Filter>)
    requires SearchQuery(page, query, a + [f] + b).Ok?
    ensures FiltersParams(a).Ok? && FilterParams(f).Ok?
    ensures var q := SearchQuery(page, query, a + [f] + b).value;
      var start := 1 + |FiltersParams(a).value|;
      && start + |FilterParams(f).value| <= |q|
      && q[start..start + |FilterParams(f).value|] == FilterParams(f).value
  {
    FiltersParamsMiddle(a, f, b);
    var pa, pf, pb := FiltersParams(a).value, FilterParams(f).value, FiltersParams(b).value;
    var first, last := ("buscar", query), ("page", IntToString(PreviousPage(page)));
    assert SearchQuery(page, query, a + [f] + b).value == [first] + (pa + pf + pb) + [last];
    SliceMiddle(first, pa, pf, pb, last);
  }

  lemma FiltersParamsMiddle(a: seq<Filter>, f: Filter, b: seq<Filter>)
    requires FiltersParams(a + [f] + b).Ok?
    ensures FiltersParams(a).Ok? && FilterParams(f).Ok? && FiltersParams(b).Ok?
    ensures FiltersParams(a + [f] + b).value ==
      FiltersParams(a).value + FilterParams(f).value + FiltersParams(b).value
  {
    FiltersParamsAppend(a + [f], b);
    FiltersParamsSnoc(a + [f], |a|);
    assert (a + [f])[..|a|] == a && (a + [f])[..|a| + 1] == a + [f] && (a + [f])[|a|] == f;
  }

  lemma SliceMiddle(first: Param, u: seq<Param>, v: seq<Param>, w: seq<Param>, last: Param)
    ensures 1 + |u| + |v| <= |[first] + (u + v + w) + [last]|
    ensures ([first] + (u + v + w) + [last])[1 + |u|..1 + |u| + |v|] == v
  {
    var q := [first] + (u + v + w) + [last];
    assert forall i :: 0 <= i < |v| ==> q[1 + |u| + i] == v[i];
  }

  /** Entries of the list that are not search filters leave the request unchanged. */
  lemma OtherFilterIgnored(page: Int32, query: string, a: seq<Filter>, b: seq<Filter>)
    ensures SearchQuery(page, query, a + [OtherFilter] + b) == SearchQuery(page, query, a + b)
  {
    FiltersParamsAppend(a + [OtherFilter], b);
    FiltersParamsAppend(a, [OtherFilter]);
    FiltersParamsAppend(a, b);
    assert [OtherFilter][1..] == [];
    if FiltersParams(a).Ok? {
      assert FiltersParams(a).value + ([] + []) == FiltersParams(a).value;
    }
  }

  /** The names of all parameters the request can carry. */
  const QueryNames: set<string> :=
    {"buscar", "tipo", "demografia", "estado", "erotico", "generes", "order_dir", "order_item", "page"}

  /** Every parameter of a filter list has one of the known names. */
  lemma {:induction false} FiltersParamsNames(fs: seq<Filter>)
    requires FiltersParams(fs).Ok?
    ensures forall i :: 0 <= i < |FiltersParams(fs).value| ==> FiltersParams(fs).value[i].0 in QueryNames
  {
    if fs != [] {
      FiltersParamsNames(fs[1..]);
    }
  }

  /** Every parameter of the request has one of the known names. */
  lemma SearchQueryNames(page: Int32, query: string, fs: seq<Filter>)
    requires SearchQuery(page, query, fs).Ok?
    ensures forall i :: 0 <= i < |SearchQuery(page, query, fs).value| ==>
      SearchQuery(page, query, fs).value[i].0 in QueryNames
  {
    FiltersParamsNames(fs);
    SearchQueryShape(page, query, fs);
  }

  /** The ticked genres are exactly the ids of the checked boxes (their order: `CheckedIdsAppend`). */
  lemma {:induction false} CheckedIdsMembers(genres: seq<Genre>)
    ensures forall id :: id in CheckedIds(genres) <==> exists g :: g in genres && g.checked && g.id == id
  {
    if genres != [] {
      CheckedIdsMembers(genres[1..]);
      assert genres == [genres[0]] + genres[1..];
    }
  }

  /** The ticked ids of two genre lists, one after the other, keep the list order. */
  lemma {:induction false} CheckedIdsAppend(a: seq<Genre>, b: seq<Genre>)
    ensures CheckedIds(a + b) == CheckedIds(a) + CheckedIds(b)
  {
    if a == [] {
      assert a + b == b;
    } else {
      SplitFirst(a, b);
      CheckedIdsAppend(a[1..], b);
      CheckedIdsCons(a[0], a[1..] + b);
      CheckedIdsCons(a[0], a[1..]);
      var h := if a[0].checked then [a[0].id] else [];
      Regroup(h, CheckedIds(a[1..]), CheckedIds(b));
    }
  }

  /** One step of the genre filter: the first box contributes its id if ticked. */
  lemma CheckedIdsCons(g: Genre, gs: seq<Genre>)
    ensures CheckedIds([g] + gs) == (if g.checked then [g.id] else []) + CheckedIds(gs)
  {
    assert ([g] + gs)[0] == g;
    assert ([g] + gs)[1..] == gs;
  }

  lemma {:induction false} ParseIdStrings(ids: seq<int>)
    ensures ParseIds(IdStrings(ids)) == ids
  {
    if ids != [] {
      ParseIntToString(ids[0]);
      ParseIdStrings(ids[1..]);
      assert IdStrings(ids)[1..] == IdStrings(ids[1..]);
    }
  }

  /** The `generes` value reads back as the ticked ids: a decimal id never holds the
      separator `a`. With nothing ticked the value is empty. */
  lemma GenreValueRoundTrip(genres: seq<Genre>)
    ensures CheckedIds(genres) == [] ==> GenreValue(genres) == ""
    ensures CheckedIds(genres) != [] ==> ParseIds(Split(GenreValue(genres), 'a')) == CheckedIds(genres)
  {
    var ids := CheckedIds(genres);
    var pieces := IdStrings(ids);
    if ids != [] {
      forall i | 0 <= i < |pieces|
        ensures 'a' !in pieces[i]
      {
        assert pieces[i] == IntToString(ids[i]);
      }
      SplitJoin(pieces, 'a');
      ParseIdStrings(ids);
    }
  }

  /** A url builder: the base url and the query parameters added so far. */
  class UrlBuilder {
    const base: string
    var query: seq<Param>

    constructor (base: string)
      ensures this.base == base && query == []
    {
      this.base := base;
      query := [];
    }

    /** `addQueryParameter`: appends one parameter. */
    method AddQueryParameter(name: string, value: string)
      modifies this
      ensures query == old(query) + [(name, value)]
    {
      query := query + [(name, value)];
    }

    function Build(): HttpUrl
      reads this
    {
      HttpUrl(base, query)
    }
  }

  /** One arm of the `when` over a filter: adds the filter's parameters to `url`, or
      reports the missing sort state before adding anything. */
  method AddFilter(url: UrlBuilder, f: Filter) returns (ok: bool)
    modifies url
    ensures ok <==> FilterParams(f).Ok?
    ensures ok ==> url.query == old(url.query) + FilterParams(f).value
    ensures !ok ==> url.query == old(url.query)
  {
    ok := true;
    match f {
    case TypeFilter(part) =>
      url.AddQueryParameter("tipo", part);
    case DemographyFilter(part) =>
      url.AddQueryParameter("demografia", part);
    case StatusFilter(part) =>
      url.AddQueryParameter("estado", part);
    case EroticFilter(part) =>
      url.AddQueryParameter("erotico", part);
    case GenreFilter(genres) =>
      url.AddQueryParameter("generes", GenreValue(genres));
    case SortByFilter(state, selected) =>
      if state.None? {
        return false;
      }
      url.AddQueryParameter("order_dir", if state.value.ascending then "asc" else "desc");
      url.AddQueryParameter("order_item", selected);
    case OtherFilter =>
    }
  }

  /** `searchMangaRequest`: the library url with `buscar`, each known filter's
      parameters in the order of `filters`, and the zero-based `page`. */
  method SearchMangaRequest(page: Int32, query: string, filters: seq<Filter>)
      returns (r: Result<HttpUrl, SearchError>)
    ensures r.Ok? <==> SearchQuery(page, query, filters).Ok?
    ensures r.Ok? ==> r.value == HttpUrl(LIBRARY_URL, SearchQuery(page, query, filters).value)
    ensures r.Err? ==> r.error == NullSortState
  {
    var url := new UrlBuilder(LIBRARY_URL);
    url.AddQueryParameter("buscar", query);
    var i := 0;
    while i < |filters|
      invariant 0 <= i <= |filters|
      invariant url.base == LIBRARY_URL
      invariant FiltersParams(filters[..i]).Ok?
      invariant url.query == [("buscar", query)] + FiltersParams(filters[..i]).value
    {
      FiltersParamsSnoc(filters, i);
      var ok := AddFilter(url, filters[i]);
      if !ok {
        FiltersParamsFailsAt(filters, i);
        return Err(NullSortState);
      }
      i := i + 1;
    }
    assert filters[..i] == filters;
    url.AddQueryParameter("page", IntToString(PreviousPage(page)));
    r := Ok(url.Build());
  }
}
