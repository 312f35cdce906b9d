/** The local manga record: original values from the source (`og*`), the user's
    overrides (`custom*`), the chapter-list settings packed into `chapterFlags`,
    and the sparse patch type the repository applies to it. */
module MangaModel {
  import opened Wrappers

  datatype UpdateStrategy = AlwaysUpdate | OnlyFetchOnce

  /** A filter that is off, keeps matching chapters, or keeps the others. */
  datatype TriState = Disabled | EnabledIs | EnabledNot

  /** Value of `SManga.COMPLETED` in the source API. */
  const COMPLETED: int := 2

  // Chapter-list settings packed into chapterFlags (a Kotlin Long).
  const SHOW_ALL: bv64 := 0x0
  const CHAPTER_SORT_DESC: bv64 := 0x0
  const CHAPTER_SORT_ASC: bv64 := 0x1
  const CHAPTER_SORT_DIR_MASK: bv64 := 0x1
  const CHAPTER_SHOW_UNREAD: bv64 := 0x2
  const CHAPTER_SHOW_READ: bv64 := 0x4
  const CHAPTER_UNREAD_MASK: bv64 := 0x6
  const CHAPTER_SHOW_DOWNLOADED: bv64 := 0x8
  const CHAPTER_SHOW_NOT_DOWNLOADED: bv64 := 0x10
  const CHAPTER_DOWNLOADED_MASK: bv64 := 0x18
  const CHAPTER_SHOW_BOOKMARKED: bv64 := 0x20
  const CHAPTER_SHOW_NOT_BOOKMARKED: bv64 := 0x40
  const CHAPTER_BOOKMARKED_MASK: bv64 := 0x60
  const CHAPTER_SORTING_SOURCE: bv64 := 0x0
  const CHAPTER_SORTING_NUMBER: bv64 := 0x100
  const CHAPTER_SORTING_UPLOAD_DATE: bv64 := 0x200
  const CHAPTER_SORTING_ALPHABET: bv64 := 0x300
  const CHAPTER_SORTING_MASK: bv64 := 0x300
  const CHAPTER_DISPLAY_NAME: bv64 := 0x0
  const CHAPTER_DISPLAY_NUMBER: bv64 := 0x100000
  const CHAPTER_DISPLAY_MASK: bv64 := 0x100000

  /** Long and Int fields are unbounded integers; `chapterFlags` is kept as the
      64-bit pattern its masks are applied to. */
  datatype Manga = Manga(
    id: int,
    source: int,
    favorite: bool,
    lastUpdate: int,
    nextUpdate: int,
    fetchInterval: int,
    dateAdded: int,
    viewerFlags: int,
    chapterFlags: bv64,
    coverLastModified: int,
    url: string,
    ogTitle: string,
    ogArtist: Option<string>,
    ogAuthor: Option<string>,
    ogDescription: Option<string>,
    ogGenre: Option<seq<string>>,
    ogStatus: int,
    ogThumbnailUrl: Option<string>,
    updateStrategy: UpdateStrategy,
    initialized: bool,
    lastModifiedAt: int,
    favoriteModifiedAt: Option<int>,
    customArtist: Option<string>,
    customAuthor: Option<string>,
    customDescription: Option<string>,
    customTitle: Option<string>,
    customGenre: Option<seq<string>>,
    customStatus: Option<int>,
    customThumbnailUrl: Option<string>,
    version: int,
    notes: string)
  {
    // Displayed values: the user's override when there is one, else the original.

    function Title(): string { customTitle.GetOr(ogTitle) }
    function Author(): Option<string> { if customAuthor.Some? then customAuthor else ogAuthor }
    function Artist(): Option<string> { if customArtist.Some? then customArtist else ogArtist }
    function Description(): Option<string> { if customDescription.Some? then customDescription else ogDescription }
    function Genre(): Option<seq<string>> { if customGenre.Some? then customGenre else ogGenre }
    function Status(): int { customStatus.GetOr(ogStatus) }
    function ThumbnailUrl(): Option<string> { if customThumbnailUrl.Some? then customThumbnailUrl else ogThumbnailUrl }

    /** When the next update is expected (epoch milliseconds), unless the series is completed. */
    function ExpectedNextUpdate(): Option<int>
    {
      if Status() != COMPLETED then Some(nextUpdate) else None
    }

    function Sorting(): bv64 { chapterFlags & CHAPTER_SORTING_MASK }
    function DisplayMode(): bv64 { chapterFlags & CHAPTER_DISPLAY_MASK }
    function UnreadFilterRaw(): bv64 { chapterFlags & CHAPTER_UNREAD_MASK }
    function DownloadedFilterRaw(): bv64 { chapterFlags & CHAPTER_DOWNLOADED_MASK }
    function BookmarkedFilterRaw(): bv64 { chapterFlags & CHAPTER_BOOKMARKED_MASK }

    function UnreadFilter(): TriState
    {
      var raw := UnreadFilterRaw();
      if raw == CHAPTER_SHOW_UNREAD then EnabledIs
      else if raw == CHAPTER_SHOW_READ then EnabledNot
      else Disabled
    }

    function BookmarkedFilter(): TriState
    {
      var raw := BookmarkedFilterRaw();
      if raw == CHAPTER_SHOW_BOOKMARKED then EnabledIs
      else if raw == CHAPTER_SHOW_NOT_BOOKMARKED then EnabledNot
      else Disabled
    }

    predicate SortDescending()
    {
      chapterFlags & CHAPTER_SORT_DIR_MASK == CHAPTER_SORT_DESC
    }
  }

  /** `Manga.create()`: the record every mapper starts from. */
  function Create(): Manga
  {
    Manga(
      id := -1, source := -1, favorite := false, lastUpdate := 0, nextUpdate := 0,
      fetchInterval := 0, dateAdded := 0, viewerFlags := 0, chapterFlags := 0,
      coverLastModified := 0, url := "", ogTitle := "", ogArtist := None, ogAuthor := None,
      ogDescription := None, ogGenre := None, ogStatus := 0, ogThumbnailUrl := None,
      updateStrategy := AlwaysUpdate, initialized := false, lastModifiedAt := 0,
      favoriteModifiedAt := None, customArtist := None, customAuthor := None,
      customDescription := None, customTitle := None, customGenre := None,
      customStatus := None, customThumbnailUrl := None, version := 0, notes := "")
  }

  /** A sparse patch: `None` means "leave this column as it is". It carries the
      columns the repository's partial update reads. */
  datatype MangaUpdate = MangaUpdate(
    id: int,
    url: Option<string>,
    source: Option<int>,
    favorite: Option<bool>,
    lastUpdate: Option<int>,
    nextUpdate: Option<int>,
    dateAdded: Option<int>,
    viewerFlags: Option<int>,
    chapterFlags: Option<bv64>,
    coverLastModified: Option<int>,
    title: Option<string>,
    artist: Option<string>,
    author: Option<string>,
    description: Option<string>,
    genre: Option<seq<string>>,
    status: Option<int>,
    thumbnailUrl: Option<string>,
    updateStrategy: Option<UpdateStrategy>,
    initialized: Option<bool>,
    customTitle: Option<string>,
    customAuthor: Option<string>,
    customArtist: Option<string>,
    customDescription: Option<string>)

  /** `MangaUpdate(id = id)`: a patch that names a row and sets nothing. */
  function EmptyUpdate(id: int): (u: MangaUpdate)
    ensures u.id == id
  {
    MangaUpdate(id, None, None, None, None, None, None, None, None, None, None, None,
                None, None, None, None, None, None, None, None, None, None, None)
  }

  /** Every displayed value is the override when one is set, else the original. */
  lemma DisplayPrefersCustom(m: Manga)
    ensures m.customTitle.Some? ==> m.Title() == m.customTitle.value
    ensures m.customTitle.None? ==> m.Title() == m.ogTitle
    ensures m.Author() == (if m.customAuthor.Some? then m.customAuthor else m.ogAuthor)
    ensures m.Artist() == (if m.customArtist.Some? then m.customArtist else m.ogArtist)
    ensures m.Description() == (if m.customDescription.Some? then m.customDescription else m.ogDescription)
    ensures m.Genre() == (if m.customGenre.Some? then m.customGenre else m.ogGenre)
    ensures m.customStatus.Some? ==> m.Status() == m.customStatus.value
    ensures m.customStatus.None? ==> m.Status() == m.ogStatus
    ensures m.ThumbnailUrl() == (if m.customThumbnailUrl.Some? then m.customThumbnailUrl else m.ogThumbnailUrl)
  {
  }

  /** Each decoded group is chapterFlags restricted to its own mask. */
  lemma DecodedGroupsStayInTheirMasks(m: Manga)
    ensures m.Sorting() & !CHAPTER_SORTING_MASK == 0 && m.Sorting() == m.chapterFlags & CHAPTER_SORTING_MASK
    ensures m.DisplayMode() & !CHAPTER_DISPLAY_MASK == 0 && m.DisplayMode() == m.chapterFlags & CHAPTER_DISPLAY_MASK
    ensures m.UnreadFilterRaw() & !CHAPTER_UNREAD_MASK == 0 && m.UnreadFilterRaw() == m.chapterFlags & CHAPTER_UNREAD_MASK
    ensures m.DownloadedFilterRaw() & !CHAPTER_DOWNLOADED_MASK == 0
      && m.DownloadedFilterRaw() == m.chapterFlags & CHAPTER_DOWNLOADED_MASK
    ensures m.BookmarkedFilterRaw() & !CHAPTER_BOOKMARKED_MASK == 0
      && m.BookmarkedFilterRaw() == m.chapterFlags & CHAPTER_BOOKMARKED_MASK
  {
  }

  /** The six chapter masks are pairwise disjoint. */
  lemma ChapterMasksDisjoint()
    ensures var ms := [CHAPTER_SORT_DIR_MASK, CHAPTER_UNREAD_MASK, CHAPTER_DOWNLOADED_MASK,
                       CHAPTER_BOOKMARKED_MASK, CHAPTER_SORTING_MASK, CHAPTER_DISPLAY_MASK];
            forall i, j :: 0 <= i < j < |ms| ==> ms[i] & ms[j] == 0
  {
  }

  /** The decoded settings of one record. */
  datatype ChapterSettings = ChapterSettings(
    descending: bool, unread: bv64, downloaded: bv64, bookmarked: bv64, sorting: bv64, display: bv64)

  function Settings(m: Manga): ChapterSettings
  {
    ChapterSettings(m.SortDescending(), m.UnreadFilterRaw(), m.DownloadedFilterRaw(),
                    m.BookmarkedFilterRaw(), m.Sorting(), m.DisplayMode())
  }

  /** Rewriting the bits of one group leaves the other groups' decoded values
      unchanged. Shown for the unread group and the sorting group. */
  lemma ChangingUnreadBitsKeepsOthers(m: Manga, bits: bv64)
    ensures var m' := m.(chapterFlags := (m.chapterFlags & !CHAPTER_UNREAD_MASK) | (bits & CHAPTER_UNREAD_MASK));
            Settings(m') == Settings(m).(unread := bits & CHAPTER_UNREAD_MASK)
  {
  }

  lemma ChangingSortingBitsKeepsOthers(m: Manga, bits: bv64)
    ensures var m' := m.(chapterFlags := (m.chapterFlags & !CHAPTER_SORTING_MASK) | (bits & CHAPTER_SORTING_MASK));
            Settings(m') == Settings(m).(sorting := bits & CHAPTER_SORTING_MASK)
  {
  }

  /** The unread filter: 0x2 keeps unread chapters, 0x4 keeps read ones, and
      anything else in the two bits (none, or both) filters nothing. */
  lemma UnreadFilterDecoding(m: Manga)
    ensures m.UnreadFilter() == EnabledIs <==> m.chapterFlags & 0x6 == 0x2
    ensures m.UnreadFilter() == EnabledNot <==> m.chapterFlags & 0x6 == 0x4
    ensures m.UnreadFilter() == Disabled <==> m.chapterFlags & 0x6 == 0x0 || m.chapterFlags & 0x6 == 0x6
  {
  }

  lemma BookmarkedFilterDecoding(m: Manga)
    ensures m.BookmarkedFilter() == EnabledIs <==> m.chapterFlags & 0x60 == 0x20
    ensures m.BookmarkedFilter() == EnabledNot <==> m.chapterFlags & 0x60 == 0x40
    ensures m.BookmarkedFilter() == Disabled <==> m.chapterFlags & 0x60 == 0x0 || m.chapterFlags & 0x60 == 0x60
  {
  }

  /** Descending order is the default: it is on exactly when bit 0 is clear. */
  lemma SortDescendingIsBitZeroClear(m: Manga)
    ensures m.SortDescending() <==> (m.chapterFlags >> 0) & 1 == 0
  {
  }

  /** No next update is expected once the displayed status is COMPLETED. */
  lemma ExpectedNextUpdateDecoding(m: Manga)
    ensures m.ExpectedNextUpdate().None? <==> m.Status() == COMPLETED
    ensures m.ExpectedNextUpdate().Some? ==> m.ExpectedNextUpdate().value == m.nextUpdate
  {
  }

  /** The defaults of `create()`. */
  lemma CreateDefaults()
    ensures var m := Create();
      && m.id == -1 && m.source == -1 && !m.favorite && !m.initialized && m.notes == ""
      && m.url == "" && m.ogTitle == "" && m.lastUpdate == 0 && m.nextUpdate == 0 && m.fetchInterval == 0
      && m.dateAdded == 0 && m.coverLastModified == 0 && m.lastModifiedAt == 0 && m.favoriteModifiedAt.None?
      && m.version == 0 && m.ogStatus == 0
      && m.ogArtist.None? && m.ogAuthor.None? && m.ogDescription.None? && m.ogGenre.None? && m.ogThumbnailUrl.None?
      && m.chapterFlags == 0 && m.viewerFlags == 0 && m.updateStrategy == AlwaysUpdate
      && m.customTitle.None? && m.customAuthor.None? && m.customArtist.None? && m.customDescription.None?
      && m.customGenre.None? && m.customStatus.None? && m.customThumbnailUrl.None?
      && m.Title() == "" && m.SortDescending() && m.UnreadFilter() == Disabled
  {
  }
}
