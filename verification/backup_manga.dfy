/** The manga record of a backup and its mapping to a library record. */
module BackupManga {
  import opened Wrappers
  import opened MangaModel

  /** The columns of a backed-up manga that the mapping reads. `viewer` is the
      legacy reading-mode field that `viewerFlags` replaced; `chapterFlags` is a
      32-bit Int in the backup. */
  datatype BackupManga = BackupManga(
    source: int,
    url: string,
    title: string,
    artist: Option<string>,
    author: Option<string>,
    description: Option<string>,
    genre: seq<string>,
    status: int,
    thumbnailUrl: Option<string>,
    dateAdded: int,
    viewer: int,
    favorite: bool,
    chapterFlags: bv32,
    viewerFlags: Option<int>,
    updateStrategy: UpdateStrategy,
    lastModifiedAt: int,
    favoriteModifiedAt: Option<int>,
    version: int,
    notes: string,
    customTitle: Option<string>,
    customArtist: Option<string>,
    customAuthor: Option<string>,
    customDescription: Option<string>,
    customGenre: Option<seq<string>>,
    customStatus: Option<int>,
    customThumbnailUrl: Option<string>)

  /** Widening a 32-bit Int to a 64-bit Long: bit 31 is copied into the upper half. */
  function SignExtend(x: bv32): (r: bv64)
    ensures r & 0xFFFF_FFFF == x as bv64
    ensures x & 0x8000_0000 == 0 ==> r >> 32 == 0
    ensures x & 0x8000_0000 != 0 ==> r >> 32 == 0xFFFF_FFFF
  {
    if x & 0x8000_0000 == 0 then x as bv64 else (x as bv64) | 0xFFFF_FFFF_0000_0000
  }

  /** `getMangaImpl`: the backup's columns copied onto the defaults of `create()`. */
  function GetMangaImpl(b: BackupManga): Manga
  {
    Create().(
      url := b.url, ogTitle := b.title, ogArtist := b.artist, ogAuthor := b.author,
      ogDescription := b.description, ogGenre := Some(b.genre), ogStatus := b.status,
      ogThumbnailUrl := b.thumbnailUrl, favorite := b.favorite, source := b.source,
      dateAdded := b.dateAdded, viewerFlags := b.viewerFlags.GetOr(b.viewer),
      chapterFlags := SignExtend(b.chapterFlags), updateStrategy := b.updateStrategy,
      lastModifiedAt := b.lastModifiedAt, favoriteModifiedAt := b.favoriteModifiedAt,
      customTitle := b.customTitle, customArtist := b.customArtist, customAuthor := b.customAuthor,
      customDescription := b.customDescription, customGenre := b.customGenre,
      customStatus := b.customStatus, customThumbnailUrl := b.customThumbnailUrl,
      version := b.version, notes := b.notes)
  }

  // ---------------------------------------------------------------- lemmas

  /** The reading-mode flags are `viewer_flags` when the backup has them, else the
      legacy `viewer` value. */
  lemma ViewerFlagsFallBackToViewer(b: BackupManga)
    ensures b.viewerFlags.Some? ==> GetMangaImpl(b).viewerFlags == b.viewerFlags.value
    ensures b.viewerFlags.None? ==> GetMangaImpl(b).viewerFlags == b.viewer
  {
  }

  /** A restored record is not yet stored (id -1) and every column the backup does
      not carry has its default. */
  lemma UncopiedColumnsAreDefaults(b: BackupManga)
    ensures var m := GetMangaImpl(b);
      && m.id == -1 && m.lastUpdate == 0 && m.nextUpdate == 0 && m.fetchInterval == 0
      && m.coverLastModified == 0 && !m.initialized
  {
  }

  /** The backup's title, artist, author, description, genre, status and cover
      become the original columns. */
  lemma BackupFillsOriginalColumns(b: BackupManga)
    ensures var m := GetMangaImpl(b);
      && m.ogTitle == b.title && m.ogArtist == b.artist && m.ogAuthor == b.author
      && m.ogDescription == b.description && m.ogGenre == Some(b.genre) && m.ogStatus == b.status
      && m.ogThumbnailUrl == b.thumbnailUrl
  {
  }

  /** The overrides are restored verbatim, so every displayed value is the
      backed-up override when there is one, else the backed-up original. */
  lemma BackupRestoresOverrides(b: BackupManga)
    ensures var m := GetMangaImpl(b);
      && m.customTitle == b.customTitle && m.customArtist == b.customArtist
      && m.customAuthor == b.customAuthor && m.customDescription == b.customDescription
      && m.customGenre == b.customGenre && m.customStatus == b.customStatus
      && m.customThumbnailUrl == b.customThumbnailUrl
      && m.Title() == b.customTitle.GetOr(b.title)
      && m.Author() == (if b.customAuthor.Some? then b.customAuthor else b.author)
      && m.Genre() == (if b.customGenre.Some? then b.customGenre else Some(b.genre))
      && m.Status() == b.customStatus.GetOr(b.status)
  {
  }

  /** Identity, library state, timestamps, version and notes are copied as they are. */
  lemma BackupCopiesColumns(b: BackupManga)
    ensures var m := GetMangaImpl(b);
      && m.url == b.url && m.source == b.source && m.favorite == b.favorite
      && m.dateAdded == b.dateAdded && m.updateStrategy == b.updateStrategy
      && m.lastModifiedAt == b.lastModifiedAt && m.favoriteModifiedAt == b.favoriteModifiedAt
      && m.version == b.version && m.notes == b.notes
  {
  }

  /** Widening the chapter flags keeps every chapter setting: each decoder reads
      the same bits from the restored record as from the backup's Int. */
  lemma BackupKeepsChapterSettings(b: BackupManga)
    ensures var m := GetMangaImpl(b);
      && m.chapterFlags & 0xFFFF_FFFF == b.chapterFlags as bv64
      && m.Sorting() == (b.chapterFlags as bv64) & CHAPTER_SORTING_MASK
      && m.DisplayMode() == (b.chapterFlags as bv64) & CHAPTER_DISPLAY_MASK
      && m.UnreadFilterRaw() == (b.chapterFlags as bv64) & CHAPTER_UNREAD_MASK
      && m.DownloadedFilterRaw() == (b.chapterFlags as bv64) & CHAPTER_DOWNLOADED_MASK
      && m.BookmarkedFilterRaw() == (b.chapterFlags as bv64) & CHAPTER_BOOKMARKED_MASK
  {
  }
}
