/** Paging through a source's catalogue: each page is fetched by its number,
    every fetched record is reconciled with the library, and the page carries
    the keys of its neighbours. */
module SourcePagingSource {
  import opened Wrappers
  import opened MangaModel
  import opened MangaRepositoryImpl
  import opened NetworkToLocalManga

  /** The exceptions the fetch is told apart by. */
  datatype ExceptionKind = HttpRetry | IO | NullPointer | OtherException

  /** One page of a source's listing. */
  datatype MangasPage = MangasPage(mangas: seq<Manga>, hasNextPage: bool)

  /** What the network fetch of one page did. */
  datatype Fetch = Fetched(page: MangasPage) | Threw(kind: ExceptionKind)

  /** A loaded page, keyed by page number. */
  datatype Page = Page(data: seq<Manga>, prevKey: Option<int>, nextKey: Option<int>)

  datatype LoadResult = Loaded(page: Page) | Error(kind: ExceptionKind)

  /** How `load` ends: with a result, or with an exception that escapes it (a
      rethrown fetch failure, or a reconciliation that threw). */
  datatype LoadOutcome = Returned(result: LoadResult) | Rethrown(kind: ExceptionKind) | ReconcileThrew(failure: Failure)

  /** The fetch failures `load` reports as an error result instead of throwing. */
  predicate ReportedAsError(kind: ExceptionKind)
  {
    kind == HttpRetry || kind == IO || kind == NullPointer
  }

  /** `toLoadResult`: the page's data and the keys of its neighbours. */
  function ToLoadResult(mangasPage: MangasPage, manga: seq<Manga>, page: int): (r: Page)
    ensures r.data == manga
    ensures r.prevKey.None? <==> page == 1
    ensures r.prevKey.Some? ==> r.prevKey.value + 1 == page
    ensures r.nextKey.Some? <==> mangasPage.hasNextPage
    ensures r.nextKey.Some? ==> r.nextKey.value - 1 == page
  {
    Page(manga, if page == 1 then None else Some(page - 1), if mangasPage.hasNextPage then Some(page + 1) else None)
  }

  /** `getRefreshKey`: from the page closest to the anchor position, the page after
      its predecessor, else the page before its successor. `closestPage` stands
      for the paging state's lookup of the page nearest a position. */
  function RefreshKey(anchorPosition: Option<int>, closestPage: int -> Option<Page>): Option<int>
  {
    match anchorPosition
    case None => None
    case Some(anchor) =>
      match closestPage(anchor)
      case None => None
      case Some(p) =>
        if p.prevKey.Some? then Some(p.prevKey.value + 1)
        else if p.nextKey.Some? then Some(p.nextKey.value - 1)
        else None
  }

  /** What `load` does to the store and what it ends with. */
  ghost function LoadSpec(t: MangasTable, key: Option<int>, fetch: int -> Fetch): (r: (LoadOutcome, MangasTable))
    requires WellFormed(t)
    ensures WellFormed(r.1)
  {
    var page := key.GetOr(1);
    match fetch(page)
    case Threw(kind) => (if ReportedAsError(kind) then Returned(Error(kind)) else Rethrown(kind), t)
    case Fetched(mp) =>
      var (res, t') := ReconcileAll(t, mp.mangas);
      if res.Failure? then (ReconcileThrew(res.error), t')
      else (Returned(Loaded(ToLoadResult(mp, res.value, page))), t')
  }

  /** `load`: fetch the page (page 1 when no key is given), classify a failure,
      and reconcile the fetched records one after the other. */
  method Load(repo: MangaRepository, key: Option<int>, fetch: int -> Fetch) returns (out: LoadOutcome)
    requires repo.Valid()
    modifies repo`mangas
    ensures repo.Valid()
    ensures (out, repo.mangas) == LoadSpec(old(repo.mangas), key, fetch)
  {
    var page := key.GetOr(1);
    var fetched := fetch(page);
    if fetched.Threw? {
      if fetched.kind == HttpRetry {
        return Returned(Error(fetched.kind));
      }
      if fetched.kind == IO || fetched.kind == NullPointer {
        return Returned(Error(fetched.kind));
      }
      return Rethrown(fetched.kind);
    }
    var items := fetched.page.mangas;
    var mangaList: seq<Manga> := [];
    var i := 0;
    while i < |items|
      invariant 0 <= i <= |items|
      invariant repo.Valid()
      invariant ReconcileAll(old(repo.mangas), items[..i]) == (Success(mangaList), repo.mangas)
    {
      assert items[..i + 1][..i] == items[..i];
      var r := Await(repo, items[i]);
      if r.Failure? {
        ReconcileAllStopsAtFailure(old(repo.mangas), items, i + 1);
        return ReconcileThrew(r.error);
      }
      mangaList := mangaList + [r.value];
      i := i + 1;
    }
    assert items[..i] == items;
    out := Returned(Loaded(ToLoadResult(fetched.page, mangaList, page)));
  }

  // ---------------------------------------------------------------- lemmas

  /** Without a key the first page is fetched; it has no predecessor. */
  lemma LoadWithoutKeyFetchesFirstPage(t: MangasTable, fetch: int -> Fetch)
    requires WellFormed(t)
    requires fetch(1).Fetched?
    ensures var out := LoadSpec(t, None, fetch).0;
      out.Returned? ==>
        && out.result.page.prevKey.None?
        && out.result.page.nextKey == (if fetch(1).page.hasNextPage then Some(2) else None)
  {
  }

  /** HTTP-retry, I/O and null-pointer failures become an error result; every
      other exception escapes `load`. The store is not touched either way. */
  lemma FetchFailureClassification(t: MangasTable, key: Option<int>, fetch: int -> Fetch)
    requires WellFormed(t)
    requires fetch(key.GetOr(1)).Threw?
    ensures var kind := fetch(key.GetOr(1)).kind;
      && LoadSpec(t, key, fetch).1 == t
      && (LoadSpec(t, key, fetch).0 == Returned(Error(kind)) <==> kind in {HttpRetry, IO, NullPointer})
      && (LoadSpec(t, key, fetch).0 == Rethrown(kind) <==> kind == OtherException)
  {
  }

  /** The loaded data has the fetched records' length and order: the i-th item is
      the reconciled i-th fetched record, with its url and source. */
  lemma LoadKeepsFetchedOrder(t: MangasTable, key: Option<int>, fetch: int -> Fetch)
    requires WellFormed(t)
    requires fetch(key.GetOr(1)).Fetched?
    ensures var out := LoadSpec(t, key, fetch).0;
      var fetched := fetch(key.GetOr(1)).page.mangas;
      out.Returned? ==>
        && |out.result.page.data| == |fetched|
        && forall i :: 0 <= i < |fetched| ==>
             out.result.page.data[i].url == fetched[i].url && out.result.page.data[i].source == fetched[i].source
  {
    ReconcileAllKeepsOrder(t, fetch(key.GetOr(1)).page.mangas);
  }

  /** Refreshing at a page that was loaded as page p reloads p, except for a first
      page with no successor, which gives no key at all. */
  lemma RefreshOfLoadedPage(mangasPage: MangasPage, manga: seq<Manga>, page: int, anchor: int, closestPage: int -> Option<Page>)
    requires closestPage(anchor) == Some(ToLoadResult(mangasPage, manga, page))
    ensures RefreshKey(Some(anchor), closestPage) ==
      if page == 1 && !mangasPage.hasNextPage then None else Some(page)
  {
  }

  /** The refresh key: none without an anchor or a page near it; otherwise the
      page after the predecessor, else the page before the successor. */
  lemma RefreshKeyCases(anchorPosition: Option<int>, closestPage: int -> Option<Page>)
    ensures anchorPosition.None? ==> RefreshKey(anchorPosition, closestPage).None?
    ensures anchorPosition.Some? && closestPage(anchorPosition.value).Some? ==>
      var p := closestPage(anchorPosition.value).value;
      && (p.prevKey.Some? ==> RefreshKey(anchorPosition, closestPage) == Some(p.prevKey.value + 1))
      && (p.prevKey.None? && p.nextKey.Some? ==> RefreshKey(anchorPosition, closestPage) == Some(p.nextKey.value - 1))
      && (p.prevKey.None? && p.nextKey.None? ==> RefreshKey(anchorPosition, closestPage).None?)
  {
  }
}
