/** The SQL-backed manga repository: the `mangas` table keyed by row id, the
    `mangas_categories` link table, and the write path (insert, partial update of
    a batch of patches inside one transaction, replacing a manga's categories). */
module MangaRepositoryImpl {
  import opened Wrappers
  import opened MangaModel

  /** Largest value of a Kotlin Long, hence of a SQLite row id. */
  const MAX_ROW_ID: int := 0x7FFF_FFFF_FFFF_FFFF

  /** The `mangas` table: rows by `_id`, and the row id the next insert gets. */
  datatype MangasTable = MangasTable(rows: map<int, Manga>, nextRowId: int)

  /** Every row is stored under its own id, and ids are handed out upwards from 1. */
  ghost predicate WellFormed(t: MangasTable)
  {
    && 1 <= t.nextRowId <= MAX_ROW_ID + 1
    && forall id :: id in t.rows ==> t.rows[id].id == id && 1 <= id < t.nextRowId
  }

  // ---------------------------------------------------------------- lookups

  /** Ids of the rows whose natural key is (url, source). */
  ghost function KeyIds(rows: map<int, Manga>, url: string, source: int): set<int>
  {
    set id | id in rows && rows[id].url == url && rows[id].source == source
  }

  /** What `executeAsOneOrNull` makes of the query by natural key: no row, one
      row, or an error because the query matched several. */
  datatype Lookup = NoRow | OneRow(manga: Manga) | ManyRows

  lemma NonEmptyHasMember(s: set<int>)
    requires s != {}
    ensures exists x :: x in s
  {
    if forall x :: x !in s {
      assert false;
    }
  }

  ghost function FindByKey(rows: map<int, Manga>, url: string, source: int): Lookup
  {
    var ids := KeyIds(rows, url, source);
    if ids == {} then NoRow
    else
      NonEmptyHasMember(ids);
      var id :| id in ids;
      if ids == {id} then OneRow(rows[id]) else ManyRows
  }

  /** A found record is a stored row with that natural key, and it is the only one. */
  lemma FindByKeyFound(rows: map<int, Manga>, url: string, source: int)
    requires FindByKey(rows, url, source).OneRow?
    ensures var m := FindByKey(rows, url, source).manga;
      exists id :: id in rows && rows[id] == m && KeyIds(rows, url, source) == {id}
    ensures FindByKey(rows, url, source).manga.url == url
    ensures FindByKey(rows, url, source).manga.source == source
  {
    var ids := KeyIds(rows, url, source);
    var id :| id in ids && ids == {id} && FindByKey(rows, url, source) == OneRow(rows[id]);
  }

  // ---------------------------------------------------------------- insert

  /** The row an insert writes. The statement stores the record's DISPLAYED
      title, author, artist, description, genre, status and cover in the original
      columns and names no custom column, so the overrides start out empty;
      columns it does not name keep the defaults of `create()`. */
  function InsertedRow(m: Manga, id: int): (r: Manga)
    ensures r.id == id && r.url == m.url && r.source == m.source && r.favorite == m.favorite
    ensures r.Title() == m.Title() && r.Author() == m.Author() && r.Status() == m.Status()
  {
    Create().(
      id := id, source := m.source, url := m.url, ogArtist := m.Artist(), ogAuthor := m.Author(),
      ogDescription := m.Description(), ogGenre := m.Genre(), ogTitle := m.Title(),
      ogStatus := m.Status(), ogThumbnailUrl := m.ThumbnailUrl(), favorite := m.favorite,
      lastUpdate := m.lastUpdate, nextUpdate := m.nextUpdate, initialized := m.initialized,
      viewerFlags := m.viewerFlags, chapterFlags := m.chapterFlags,
      coverLastModified := m.coverLastModified, dateAdded := m.dateAdded,
      updateStrategy := m.updateStrategy, fetchInterval := m.fetchInterval, version := m.version)
  }

  datatype Inserted = Inserted(newId: Option<int>, table: MangasTable)

  /** `insert`: the new row gets the next row id; once the 64-bit id range is used
      up no id is reported and nothing is written. */
  function InsertRow(t: MangasTable, m: Manga): (r: Inserted)
    requires WellFormed(t)
    ensures WellFormed(r.table)
    ensures r.newId.Some? ==>
      && r.newId.value !in t.rows
      && r.table.rows == t.rows[r.newId.value := InsertedRow(m, r.newId.value)]
    ensures r.newId.None? ==> r.table == t
  {
    if t.nextRowId <= MAX_ROW_ID then
      Inserted(Some(t.nextRowId), MangasTable(t.rows[t.nextRowId := InsertedRow(m, t.nextRowId)], t.nextRowId + 1))
    else
      Inserted(None, t)
  }

  // ---------------------------------------------------------------- partial update

  /** One patch applied to the stored record. Every column takes the patch's value
      when it is set and otherwise keeps the old one, except that the fallback for
      title, author, artist, description, genre, status and cover is the old
      record's DISPLAYED value (override first), written to the original column.
      The id is never changed. */
  function Merge(old_: Manga, u: MangaUpdate): Manga
  {
    old_.(
      url := u.url.GetOr(old_.url),
      source := u.source.GetOr(old_.source),
      favorite := u.favorite.GetOr(old_.favorite),
      lastUpdate := u.lastUpdate.GetOr(old_.lastUpdate),
      nextUpdate := u.nextUpdate.GetOr(old_.nextUpdate),
      dateAdded := u.dateAdded.GetOr(old_.dateAdded),
      viewerFlags := u.viewerFlags.GetOr(old_.viewerFlags),
      chapterFlags := u.chapterFlags.GetOr(old_.chapterFlags),
      coverLastModified := u.coverLastModified.GetOr(old_.coverLastModified),
      ogTitle := u.title.GetOr(old_.Title()),
      ogArtist := if u.artist.Some? then u.artist else old_.Artist(),
      ogAuthor := if u.author.Some? then u.author else old_.Author(),
      ogDescription := if u.description.Some? then u.description else old_.Description(),
      ogGenre := if u.genre.Some? then u.genre else old_.Genre(),
      ogStatus := u.status.GetOr(old_.Status()),
      ogThumbnailUrl := if u.thumbnailUrl.Some? then u.thumbnailUrl else old_.ThumbnailUrl(),
      updateStrategy := u.updateStrategy.GetOr(old_.updateStrategy),
      initialized := u.initialized.GetOr(old_.initialized),
      customTitle := if u.customTitle.Some? then u.customTitle else old_.customTitle,
      customAuthor := if u.customAuthor.Some? then u.customAuthor else old_.customAuthor,
      customArtist := if u.customArtist.Some? then u.customArtist else old_.customArtist,
      customDescription := if u.customDescription.Some? then u.customDescription else old_.customDescription)
  }

  /** The patches applied in list order, each to the rows as the earlier ones left
      them; `None` as soon as one names an id with no row (the lookup throws and
      the transaction is rolled back). */
  function ApplyPatches(rows: map<int, Manga>, patches: seq<MangaUpdate>): Option<map<int, Manga>>
  {
    if patches == [] then Some(rows)
    else
      match ApplyPatches(rows, patches[..|patches| - 1])
      case None => None
      case Some(staged) =>
        var u := patches[|patches| - 1];
        if u.id in staged then Some(staged[u.id := Merge(staged[u.id], u)]) else None
  }

  /** The link rows after `setMangaCategories(mangaId, categoryIds)`: the manga's
      old links deleted, one link per given category id inserted. */
  function ReplaceLinks(links: set<(int, int)>, mangaId: int, categoryIds: seq<int>): set<(int, int)>
  {
    (set p | p in links && p.0 != mangaId) + (set c | c in categoryIds :: (mangaId, c))
  }

  /** The categories a manga is linked to. */
  function CategoriesOf(links: set<(int, int)>, mangaId: int): set<int>
  {
    set p | p in links && p.0 == mangaId :: p.1
  }

  // ---------------------------------------------------------------- the repository

  class MangaRepository {
    var mangas: MangasTable
    /** Rows of `mangas_categories`: (manga id, category id). */
    var mangaCategories: set<(int, int)>

    ghost predicate Valid()
      reads this
    {
      WellFormed(mangas)
    }

    constructor ()
      ensures Valid()
      ensures mangas.rows == map[] && mangaCategories == {}
    {
      mangas := MangasTable(map[], 1);
      mangaCategories := {};
    }

    /** `getMangaByUrlAndSourceId`. */
    method GetMangaByUrlAndSourceId(url: string, source: int) returns (r: Lookup)
      ensures r == FindByKey(mangas.rows, url, source)
    {
      var rows := mangas.rows;
      var ids := set id | id in rows && rows[id].url == url && rows[id].source == source;
      assert ids == KeyIds(rows, url, source);
      if ids == {} {
        r := NoRow;
      } else {
        NonEmptyHasMember(ids);
        var id :| id in ids;
        r := if ids == {id} then OneRow(rows[id]) else ManyRows;
      }
    }

    /** `insert`: adds one row and reports its id. */
    method Insert(m: Manga) returns (newId: Option<int>)
      requires Valid()
      modifies this`mangas
      ensures Valid()
      ensures Inserted(newId, mangas) == InsertRow(old(mangas), m)
    {
      if mangas.nextRowId <= MAX_ROW_ID {
        newId := Some(mangas.nextRowId);
        mangas := MangasTable(mangas.rows[mangas.nextRowId := InsertedRow(m, mangas.nextRowId)], mangas.nextRowId + 1);
      } else {
        newId := None;
      }
    }

    /** `partialUpdate`: applies the patches in order on a staged copy of the rows
        (the transaction) and writes it back only if every patch found its row. */
    method PartialUpdate(patches: seq<MangaUpdate>) returns (ok: bool)
      requires Valid()
      modifies this`mangas
      ensures Valid()
      ensures ok == ApplyPatches(old(mangas.rows), patches).Some?
      ensures mangas.rows == if ok then ApplyPatches(old(mangas.rows), patches).value else old(mangas.rows)
      ensures mangas.nextRowId == old(mangas.nextRowId)
    {
      var staged := mangas.rows;
      var i := 0;
      while i < |patches|
        invariant 0 <= i <= |patches|
        invariant ApplyPatches(mangas.rows, patches[..i]) == Some(staged)
        invariant WellFormed(MangasTable(staged, mangas.nextRowId))
      {
        var u := patches[i];
        assert patches[..i + 1][..i] == patches[..i];
        if u.id !in staged {
          ApplyPatchesStopsAtMissingRow(mangas.rows, patches, i + 1);
          return false;
        }
        staged := staged[u.id := Merge(staged[u.id], u)];
        i := i + 1;
      }
      assert patches[..i] == patches;
      mangas := mangas.(rows := staged);
      ok := true;
    }

    /** `update`: one patch; any failure is reported as `false`. */
    method Update(u: MangaUpdate) returns (ok: bool)
      requires Valid()
      modifies this`mangas
      ensures Valid()
      ensures ok == ApplyPatches(old(mangas.rows), [u]).Some?
      ensures mangas.rows == if ok then ApplyPatches(old(mangas.rows), [u]).value else old(mangas.rows)
      ensures mangas.nextRowId == old(mangas.nextRowId)
    {
      ok := PartialUpdate([u]);
    }

    /** `updateAll`: the whole batch in one transaction; all or nothing. */
    method UpdateAll(patches: seq<MangaUpdate>) returns (ok: bool)
      requires Valid()
      modifies this`mangas
      ensures Valid()
      ensures ok == ApplyPatches(old(mangas.rows), patches).Some?
      ensures mangas.rows == if ok then ApplyPatches(old(mangas.rows), patches).value else old(mangas.rows)
      ensures mangas.nextRowId == old(mangas.nextRowId)
    {
      ok := PartialUpdate(patches);
    }

    /** `setMangaCategories`: deletes the manga's links, then inserts one per id. */
    method SetMangaCategories(mangaId: int, categoryIds: seq<int>)
      modifies this`mangaCategories
      ensures mangaCategories == ReplaceLinks(old(mangaCategories), mangaId, categoryIds)
    {
      mangaCategories := set p | p in mangaCategories && p.0 != mangaId;
      ghost var kept := mangaCategories;
      var i := 0;
      while i < |categoryIds|
        invariant 0 <= i <= |categoryIds|
        invariant mangaCategories == kept + (set c | c in categoryIds[..i] :: (mangaId, c))
      {
        assert categoryIds[..i + 1] == categoryIds[..i] + [categoryIds[i]];
        LinksExtend(mangaId, categoryIds, i);
        mangaCategories := mangaCategories + {(mangaId, categoryIds[i])};
        i := i + 1;
      }
      assert categoryIds[..i] == categoryIds;
    }
  }

  // ---------------------------------------------------------------- lemmas

  lemma LinksExtend(mangaId: int, categoryIds: seq<int>, i: nat)
    requires i < |categoryIds|
    ensures (set c | c in categoryIds[..i + 1] :: (mangaId, c))
         == (set c | c in categoryIds[..i] :: (mangaId, c)) + {(mangaId, categoryIds[i])}
  {
    var a := set c | c in categoryIds[..i + 1] :: (mangaId, c);
    var b := set c | c in categoryIds[..i] :: (mangaId, c);
    assert categoryIds[..i + 1] == categoryIds[..i] + [categoryIds[i]];
    forall p | p in a ensures p in b + {(mangaId, categoryIds[i])} {
      var c :| c in categoryIds[..i + 1] && p == (mangaId, c);
    }
    var last := categoryIds[i];
    assert last in categoryIds[..i + 1];
    assert (mangaId, last) in a;
  }

  lemma {:induction false} ApplyPatchesStopsAtMissingRow(rows: map<int, Manga>, patches: seq<MangaUpdate>, k: nat)
    requires k <= |patches|
    requires ApplyPatches(rows, patches[..k]).None?
    ensures ApplyPatches(rows, patches).None?
    decreases |patches| - k
  {
    if k < |patches| {
      assert patches[..k + 1][..k] == patches[..k];
      ApplyPatchesStopsAtMissingRow(rows, patches, k + 1);
    } else {
      assert patches[..k] == patches;
    }
  }

  /** Column by column: a set patch value is written, an unset one falls back to
      the old record (its displayed value for the seven displayed columns). An
      explicit `false` is a value like any other. */
  lemma MergeColumnByColumn(m: Manga, u: MangaUpdate)
    ensures var r := Merge(m, u);
      && r.url == u.url.GetOr(m.url) && r.source == u.source.GetOr(m.source)
      && r.favorite == (if u.favorite.Some? then u.favorite.value else m.favorite)
      && r.initialized == (if u.initialized.Some? then u.initialized.value else m.initialized)
      && r.lastUpdate == u.lastUpdate.GetOr(m.lastUpdate) && r.nextUpdate == u.nextUpdate.GetOr(m.nextUpdate)
      && r.dateAdded == u.dateAdded.GetOr(m.dateAdded) && r.viewerFlags == u.viewerFlags.GetOr(m.viewerFlags)
      && r.chapterFlags == u.chapterFlags.GetOr(m.chapterFlags)
      && r.coverLastModified == u.coverLastModified.GetOr(m.coverLastModified)
      && r.updateStrategy == u.updateStrategy.GetOr(m.updateStrategy)
      && (u.title.Some? ==> r.ogTitle == u.title.value) && (u.title.None? ==> r.ogTitle == m.Title())
      && (u.status.Some? ==> r.ogStatus == u.status.value) && (u.status.None? ==> r.ogStatus == m.Status())
      && r.ogArtist == (if u.artist.Some? then u.artist else m.Artist())
      && r.ogAuthor == (if u.author.Some? then u.author else m.Author())
      && r.ogDescription == (if u.description.Some? then u.description else m.Description())
      && r.ogGenre == (if u.genre.Some? then u.genre else m.Genre())
      && r.ogThumbnailUrl == (if u.thumbnailUrl.Some? then u.thumbnailUrl else m.ThumbnailUrl())
      && r.customTitle == (if u.customTitle.Some? then u.customTitle else m.customTitle)
      && r.customAuthor == (if u.customAuthor.Some? then u.customAuthor else m.customAuthor)
      && r.customArtist == (if u.customArtist.Some? then u.customArtist else m.customArtist)
      && r.customDescription == (if u.customDescription.Some? then u.customDescription else m.customDescription)
  {
  }

  /** The stored id never changes (the patch id only selects the row), and the
      columns the update statement does not name keep their values. */
  lemma MergeKeepsIdentityAndUnnamedColumns(m: Manga, u: MangaUpdate)
    ensures var r := Merge(m, u);
      && r.id == m.id && r.fetchInterval == m.fetchInterval && r.lastModifiedAt == m.lastModifiedAt
      && r.favoriteModifiedAt == m.favoriteModifiedAt && r.customGenre == m.customGenre
      && r.customStatus == m.customStatus && r.customThumbnailUrl == m.customThumbnailUrl
      && r.version == m.version && r.notes == m.notes
  {
  }

  /** Although unset columns are refilled from displayed values, what the user
      sees is unchanged: a patch that sets neither a displayed column nor its
      override leaves that displayed value as it was. */
  lemma MergeKeepsDisplayedValues(m: Manga, u: MangaUpdate)
    ensures u.title.None? && u.customTitle.None? ==> Merge(m, u).Title() == m.Title()
    ensures u.author.None? && u.customAuthor.None? ==> Merge(m, u).Author() == m.Author()
    ensures u.artist.None? && u.customArtist.None? ==> Merge(m, u).Artist() == m.Artist()
    ensures u.description.None? && u.customDescription.None? ==> Merge(m, u).Description() == m.Description()
    ensures u.genre.None? ==> Merge(m, u).Genre() == m.Genre()
    ensures u.status.None? ==> Merge(m, u).Status() == m.Status()
    ensures u.thumbnailUrl.None? ==> Merge(m, u).ThumbnailUrl() == m.ThumbnailUrl()
  {
  }

  /** The fallback reads displayed values: a patch that leaves a displayed column
      unset copies an existing override of it into the original column, and the
      original value is gone. */
  lemma MergeCopiesOverridesIntoOriginalColumns(m: Manga, u: MangaUpdate)
    ensures m.customTitle.Some? && u.title.None? ==> Merge(m, u).ogTitle == m.customTitle.value
    ensures m.customAuthor.Some? && u.author.None? ==> Merge(m, u).ogAuthor == m.customAuthor
    ensures m.customArtist.Some? && u.artist.None? ==> Merge(m, u).ogArtist == m.customArtist
    ensures m.customDescription.Some? && u.description.None? ==> Merge(m, u).ogDescription == m.customDescription
    ensures m.customGenre.Some? && u.genre.None? ==> Merge(m, u).ogGenre == m.customGenre
    ensures m.customStatus.Some? && u.status.None? ==> Merge(m, u).ogStatus == m.customStatus.value
    ensures m.customThumbnailUrl.Some? && u.thumbnailUrl.None? ==> Merge(m, u).ogThumbnailUrl == m.customThumbnailUrl
  {
  }

  /** A batch succeeds exactly when every patch names an existing row; rows are
      never added or removed, and rows no patch names are left alone. */
  lemma {:induction false} ApplyPatchesOutcome(rows: map<int, Manga>, patches: seq<MangaUpdate>)
    ensures ApplyPatches(rows, patches).Some? <==> forall i :: 0 <= i < |patches| ==> patches[i].id in rows
    ensures ApplyPatches(rows, patches).Some? ==>
      && ApplyPatches(rows, patches).value.Keys == rows.Keys
      && forall id :: id in rows && (forall i :: 0 <= i < |patches| ==> patches[i].id != id) ==>
           ApplyPatches(rows, patches).value[id] == rows[id]
  {
    if patches != [] {
      var init := patches[..|patches| - 1];
      ApplyPatchesOutcome(rows, init);
      assert forall i :: 0 <= i < |init| ==> init[i] == patches[i];
    }
  }

  /** Batches compose: applying `a + b` is applying `a`, then `b` to its result. */
  lemma {:induction false} ApplyPatchesAppend(rows: map<int, Manga>, a: seq<MangaUpdate>, b: seq<MangaUpdate>)
    ensures ApplyPatches(rows, a + b) ==
      match ApplyPatches(rows, a)
      case None => None
      case Some(staged) => ApplyPatches(staged, b)
  {
    if b == [] {
      assert a + b == a;
    } else {
      var b' := b[..|b| - 1];
      assert (a + b)[..|a + b| - 1] == a + b';
      ApplyPatchesAppend(rows, a, b');
    }
  }

  /** `update(u)` and `updateAll([u])` do the same thing: merge u into its row, or
      fail when the row is missing. */
  lemma SinglePatch(rows: map<int, Manga>, u: MangaUpdate)
    ensures ApplyPatches(rows, [u]) ==
      if u.id in rows then Some(rows[u.id := Merge(rows[u.id], u)]) else None
  {
    assert [u][..0] == [];
  }

  /** Two patches for the same row compose: the second reads what the first wrote. */
  lemma TwoPatchesForOneRow(rows: map<int, Manga>, u1: MangaUpdate, u2: MangaUpdate)
    requires u1.id == u2.id && u1.id in rows
    ensures ApplyPatches(rows, [u1, u2]) == Some(rows[u1.id := Merge(Merge(rows[u1.id], u1), u2)])
  {
    ApplyPatchesAppend(rows, [u1], [u2]);
    assert [u1] + [u2] == [u1, u2];
    SinglePatch(rows, u1);
    var first := rows[u1.id := Merge(rows[u1.id], u1)];
    SinglePatch(first, u2);
    assert first[u1.id := Merge(first[u1.id], u2)] == rows[u1.id := Merge(Merge(rows[u1.id], u1), u2)];
  }

  /** After `setMangaCategories(m, cs)`, m's categories are exactly the ids in cs
      (a repeated id gives one link) and every other manga keeps its categories. */
  lemma SetCategoriesReplaces(links: set<(int, int)>, mangaId: int, categoryIds: seq<int>)
    ensures CategoriesOf(ReplaceLinks(links, mangaId, categoryIds), mangaId) == set c | c in categoryIds
    ensures forall other :: other != mangaId ==>
      CategoriesOf(ReplaceLinks(links, mangaId, categoryIds), other) == CategoriesOf(links, other)
  {
    var after := ReplaceLinks(links, mangaId, categoryIds);
    forall c | c in categoryIds
      ensures c in CategoriesOf(after, mangaId)
    {
      assert (mangaId, c) in after;
    }
    forall other | other != mangaId
      ensures CategoriesOf(after, other) == CategoriesOf(links, other)
    {
      forall c | c in CategoriesOf(links, other)
        ensures c in CategoriesOf(after, other)
      {
        var p :| p in links && p.0 == other && p.1 == c;
        assert p in after;
      }
    }
  }
}
