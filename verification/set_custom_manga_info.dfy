/** Editing the user's overrides of a manga's title, author, artist and
    description: a patch that names only the id and the four custom columns,
    handed to the repository's single-record update. */
module SetCustomMangaInfo {
  import opened Wrappers
  import opened MangaModel
  import opened MangaRepositoryImpl

  /** The patch `await` builds: the id and the four overrides, nothing else set. */
  function CustomInfoPatch(mangaId: int, customTitle: Option<string>, customAuthor: Option<string>,
                           customArtist: Option<string>, customDescription: Option<string>): (u: MangaUpdate)
    ensures u.id == mangaId
    ensures u.customTitle == customTitle && u.customAuthor == customAuthor
    ensures u.customArtist == customArtist && u.customDescription == customDescription
    ensures u.url.None? && u.source.None? && u.favorite.None? && u.lastUpdate.None?
    ensures u.nextUpdate.None? && u.dateAdded.None? && u.viewerFlags.None? && u.chapterFlags.None?
    ensures u.coverLastModified.None? && u.title.None? && u.artist.None? && u.author.None?
    ensures u.description.None? && u.genre.None? && u.status.None? && u.thumbnailUrl.None?
    ensures u.updateStrategy.None? && u.initialized.None?
  {
    EmptyUpdate(mangaId).(customTitle := customTitle, customAuthor := customAuthor,
                          customArtist := customArtist, customDescription := customDescription)
  }

  /** `await`: the update's outcome is the result. */
  method Await(repo: MangaRepository, mangaId: int, customTitle: Option<string>, customAuthor: Option<string>,
               customArtist: Option<string>, customDescription: Option<string>) returns (ok: bool)
    requires repo.Valid()
    modifies repo`mangas
    ensures repo.Valid()
    ensures ok <==> mangaId in old(repo.mangas.rows)
    ensures var patch := CustomInfoPatch(mangaId, customTitle, customAuthor, customArtist, customDescription);
      repo.mangas.rows ==
        if ok then old(repo.mangas.rows)[mangaId := Merge(old(repo.mangas.rows)[mangaId], patch)]
        else old(repo.mangas.rows)
    ensures repo.mangas.nextRowId == old(repo.mangas.nextRowId)
  {
    var patch := CustomInfoPatch(mangaId, customTitle, customAuthor, customArtist, customDescription);
    SinglePatch(repo.mangas.rows, patch);
    ok := repo.Update(patch);
  }

  // ---------------------------------------------------------------- lemmas

  /** The record's identity, flags, dates and library state are untouched. */
  lemma CustomInfoKeepsRecord(m: Manga, mangaId: int, ct: Option<string>, ca: Option<string>,
                              cr: Option<string>, cd: Option<string>)
    ensures var r := Merge(m, CustomInfoPatch(mangaId, ct, ca, cr, cd));
      && r.id == m.id && r.url == m.url && r.source == m.source && r.favorite == m.favorite
      && r.initialized == m.initialized && r.viewerFlags == m.viewerFlags && r.chapterFlags == m.chapterFlags
      && r.lastUpdate == m.lastUpdate && r.nextUpdate == m.nextUpdate && r.dateAdded == m.dateAdded
      && r.coverLastModified == m.coverLastModified && r.updateStrategy == m.updateStrategy
      && r.Genre() == m.Genre() && r.Status() == m.Status() && r.ThumbnailUrl() == m.ThumbnailUrl()
  {
  }

  /** A given override becomes the displayed value; an absent one leaves the
      displayed value as it was. */
  lemma CustomInfoDisplayedValues(m: Manga, mangaId: int, ct: Option<string>, ca: Option<string>,
                                  cr: Option<string>, cd: Option<string>)
    ensures var r := Merge(m, CustomInfoPatch(mangaId, ct, ca, cr, cd));
      && r.Title() == ct.GetOr(m.Title())
      && r.Author() == (if ca.Some? then ca else m.Author())
      && r.Artist() == (if cr.Some? then cr else m.Artist())
      && r.Description() == (if cd.Some? then cd else m.Description())
  {
  }

  /** Passing null cannot clear an override: the stored one stays. The original
      title column is overwritten with the old displayed title either way. */
  lemma NullKeepsStoredOverride(m: Manga, mangaId: int, ct: Option<string>, ca: Option<string>,
                                cr: Option<string>, cd: Option<string>)
    ensures var r := Merge(m, CustomInfoPatch(mangaId, ct, ca, cr, cd));
      && (ct.None? ==> r.customTitle == m.customTitle)
      && (ca.None? ==> r.customAuthor == m.customAuthor)
      && (cr.None? ==> r.customArtist == m.customArtist)
      && (cd.None? ==> r.customDescription == m.customDescription)
      && r.ogTitle == m.Title()
  {
  }
}
