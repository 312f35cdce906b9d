# Manga records and the migration-source picker, modelled in Dafny

This project models the record logic under the manga reader's interface:

- **Migration facets.** These are the seven bit checks on the 32-bit mask of facets a migration carries over.
- **The manga record.**
  - Its displayed values prefer the user's override to the original.
  - Its chapter flags are decoded through disjoint masks.
  - `create()` supplies the defaults.
- **The repository's write path.** The `mangas` table is a map from row id to record. The write path covers:
  - the insert;
  - the field-by-field partial update of a batch of patches inside one transaction, which succeeds for all patches or none;
  - `update` and `updateAll`, which report failure as `false`;
  - replacing a manga's category links.
- **Network-to-local reconciliation.** A fetched record is looked up by its natural key (url, source). Then:
  - when no row has that key, the record is inserted;
  - when a non-favourite row has it, the record is re-keyed to the local id;
  - when a favourite row has it, the record is replaced by the local one.
- **Custom info.** This is the patch that sets only the id and four overrides.
- **Backup restore.** A backed-up manga is mapped onto `create()`, with the legacy `viewer` fallback and the widening of its 32-bit chapter flags.
- **Paging.** This part covers:
  - page keys;
  - the refresh key;
  - the classification of fetch failures into error results or rethrown exceptions;
  - the in-order reconciliation of a page's records.
- **The migration-source picker.** This part covers:
  - the initial selection rule;
  - toggling by id and by preset;
  - moving a source;
  - the stable re-sort after every change (selected sources first, in the order the action produced, then the rest by name);
  - persisting the selected ids.

There is one module per source file.

| file | module | form |
|---|---|---|
| `wrappers.dfy` | `Wrappers` | `Option` with Kotlin's elvis operator as `GetOr`, and `Result` for calls that throw |
| `migration_flags.dfy` | `MigrationFlags` | pure functions on `bv32` |
| `manga.dfy` | `MangaModel` | the `Manga` datatype with its getters; `MangaUpdate` |
| `manga_repository.dfy` | `MangaRepositoryImpl` | class `MangaRepository` with the `mangas` table and the link table as fields; `PartialUpdate` applies the patches in a loop to a staged copy of the rows and writes it back only when every patch found its row |
| `network_to_local_manga.dfy` | `NetworkToLocalManga` | `Await` is a method on the repository, proved equal to the three-way decision `Reconcile` |
| `set_custom_manga_info.dfy` | `SetCustomMangaInfo` | the patch as a function; `Await` calls the repository |
| `backup_manga.dfy` | `BackupManga` | the mapping as a function |
| `source_paging_source.dfy` | `SourcePagingSource` | `Load` is a loop over the fetched records, proved against `LoadSpec` |
| `long_parsing.dfy` | `LongParsing` | Kotlin's `toLongOrNull`, which the picker uses to read stored ids |
| `migrate_manga_config_screen.dfy` | `MigrateMangaConfigScreen` | the comparator and the actions as functions; class `ScreenModel` holds the displayed list and class `SourcePreferences` the preferences |

**The partial-update quirk is kept on purpose.** When a patch leaves title, author, artist, description, genre, status or cover unset, the column is refilled from the old record's *displayed* value (`oldManga.title`, which is `customTitle ?: ogTitle`). An existing override is thereby copied into the original column.

- `MergeCopiesOverridesIntoOriginalColumns` shows this for all seven columns.
- `MergeKeepsDisplayedValues` shows that what the user sees does not change.

`insert` similarly stores displayed values in the original columns. It names no override column.

The interfaces that the core calls but whose source is not part of this model are represented as follows:

- The insert statement, the key query and the update statement are read from their call sites in `MangaRepositoryImpl.kt`. An insert allocates the next row id. Once the 64-bit range is used up, the model's insert reports no id. SQLite instead tries random unused ids and then fails with SQLITE_FULL. Reporting no id is the model's stand-in for that failure: it keeps the `!!` failure path of `NetworkToLocalManga.await` reachable.
- The key query returns at most one row (`executeAsOneOrNull`). Several matching rows are a failure.
- `UpdateManga` is taken to forward to `MangaRepository.update`.
- `SManga.COMPLETED` is 2.
- `MangaUpdate` has exactly the fields the update statement reads.

External behaviour becomes function parameters:

- the network fetch of a page is `fetch: int -> Fetch`;
- the paging state's nearest page is `closestPage`;
- the localized language name is `displayLanguage`.

## Model

| member | source | states |
|---|---|---|
| MigrationFlags.HasChapters | app/src/main/java/eu/kanade/tachiyomi/ui/browse/migration/MigrationFlags.kt:13-15 | true exactly when bit 0 of the mask is set |
| MigrationFlags.HasCategories | app/src/main/java/eu/kanade/tachiyomi/ui/browse/migration/MigrationFlags.kt:17-19 | true exactly when bit 1 is set |
| MigrationFlags.HasTracks | app/src/main/java/eu/kanade/tachiyomi/ui/browse/migration/MigrationFlags.kt:21-23 | true exactly when bit 2 is set |
| MigrationFlags.HasCustomCover | app/src/main/java/eu/kanade/tachiyomi/ui/browse/migration/MigrationFlags.kt:25-27 | true exactly when bit 3 is set |
| MigrationFlags.HasExtra | app/src/main/java/eu/kanade/tachiyomi/ui/browse/migration/MigrationFlags.kt:29-31 | true exactly when bit 4 is set |
| MigrationFlags.HasDeleteChapters | app/src/main/java/eu/kanade/tachiyomi/ui/browse/migration/MigrationFlags.kt:33-35 | true exactly when bit 5 is set |
| MigrationFlags.HasNotes | app/src/main/java/eu/kanade/tachiyomi/ui/browse/migration/MigrationFlags.kt:37-39 | true exactly when bit 6 is set |
| MigrationFlags.FlagsAreSingleBits | app/src/main/java/eu/kanade/tachiyomi/ui/browse/migration/MigrationFlags.kt:5-11 | the k-th constant is 1 << k; the seven are distinct and pairwise disjoint, and together make 0b1111111 |
| MigrationFlags.SetOrClearChapters | app/src/main/java/eu/kanade/tachiyomi/ui/browse/migration/MigrationFlags.kt:13-15 | OR-ing the chapters flag in turns its check on and clearing it turns it off; the six other checks keep their answers |
| MigrationFlags.SetOrClearCategories | app/src/main/java/eu/kanade/tachiyomi/ui/browse/migration/MigrationFlags.kt:17-19 | the same for the categories flag |
| MigrationFlags.SetOrClearTrack | app/src/main/java/eu/kanade/tachiyomi/ui/browse/migration/MigrationFlags.kt:21-23 | the same for the track flag |
| MigrationFlags.SetOrClearCustomCover | app/src/main/java/eu/kanade/tachiyomi/ui/browse/migration/MigrationFlags.kt:25-27 | the same for the custom-cover flag |
| MigrationFlags.SetOrClearExtra | app/src/main/java/eu/kanade/tachiyomi/ui/browse/migration/MigrationFlags.kt:29-31 | the same for the extra flag |
| MigrationFlags.SetOrClearDeleteChapters | app/src/main/java/eu/kanade/tachiyomi/ui/browse/migration/MigrationFlags.kt:33-35 | the same for the delete-chapters flag |
| MigrationFlags.SetOrClearNotes | app/src/main/java/eu/kanade/tachiyomi/ui/browse/migration/MigrationFlags.kt:37-39 | the same for the notes flag |
| MigrationFlags.UnknownBitsIgnored | app/src/main/java/eu/kanade/tachiyomi/ui/browse/migration/MigrationFlags.kt:13-39 | masking off every bit above bit 6 changes none of the seven answers |
| MigrationFlags.EmptyAndFullMasks | app/src/main/java/eu/kanade/tachiyomi/ui/browse/migration/MigrationFlags.kt:13-39 | every check is false for 0 and true for 0b1111111 |
| MangaModel.DisplayPrefersCustom | domain/src/main/java/tachiyomi/domain/manga/model/Manga.kt:44-63 | title, author, artist, description, genre, status and cover are the override when it is set, else the original value |
| MangaModel.DecodedGroupsStayInTheirMasks | domain/src/main/java/tachiyomi/domain/manga/model/Manga.kt:70-83 | sorting, display mode and the three raw filters are chapterFlags ANDed with their own mask and have no bit outside it |
| MangaModel.ChapterMasksDisjoint | domain/src/main/java/tachiyomi/domain/manga/model/Manga.kt:105-131 | the sort-direction, unread, downloaded, bookmarked, sorting and display masks are pairwise disjoint |
| MangaModel.ChangingUnreadBitsKeepsOthers | domain/src/main/java/tachiyomi/domain/manga/model/Manga.kt:105-131 | rewriting the unread bits changes the decoded unread value only; every other decoded setting is unchanged |
| MangaModel.ChangingSortingBitsKeepsOthers | domain/src/main/java/tachiyomi/domain/manga/model/Manga.kt:105-131 | rewriting the sorting bits changes the decoded sorting value only |
| MangaModel.UnreadFilterDecoding | domain/src/main/java/tachiyomi/domain/manga/model/Manga.kt:85-90 | ENABLED_IS iff the unread bits are 0x2, ENABLED_NOT iff 0x4, DISABLED iff 0 or both bits |
| MangaModel.BookmarkedFilterDecoding | domain/src/main/java/tachiyomi/domain/manga/model/Manga.kt:92-97 | ENABLED_IS iff the bookmark bits are 0x20, ENABLED_NOT iff 0x40, DISABLED otherwise |
| MangaModel.SortDescendingIsBitZeroClear | domain/src/main/java/tachiyomi/domain/manga/model/Manga.kt:99-101 | descending order holds exactly when bit 0 of chapterFlags is clear |
| MangaModel.ExpectedNextUpdateDecoding | domain/src/main/java/tachiyomi/domain/manga/model/Manga.kt:65-68 | absent exactly when the displayed status is COMPLETED; otherwise it is nextUpdate |
| MangaModel.CreateDefaults | domain/src/main/java/tachiyomi/domain/manga/model/Manga.kt:133-165 | every column takes its default: id and source -1, empty url and title, not a favourite, not initialized, no override and no optional original value, status 0, empty notes, zero dates, flags, interval and version, always-update strategy |
| MangaRepositoryImpl.FindByKeyFound | data/src/main/java/tachiyomi/data/manga/MangaRepositoryImpl.kt:27-35 | a record the key query returns is the one stored row with that url and source |
| MangaRepositoryImpl.InsertedRow | data/src/main/java/tachiyomi/data/manga/MangaRepositoryImpl.kt:120-143 | the inserted row carries the new id and the record's url, source and favourite flag; its displayed title, author and status are the record's |
| MangaRepositoryImpl.InsertRow | data/src/main/java/tachiyomi/data/manga/MangaRepositoryImpl.kt:120-146 | the new id was not in use and the table gains exactly that row; with no id left, nothing is written and no id is reported |
| MangaRepositoryImpl.MangaRepository.GetMangaByUrlAndSourceId | data/src/main/java/tachiyomi/data/manga/MangaRepositoryImpl.kt:27-35 | the result is the lookup by natural key: no row, the one row, or an error for several |
| MangaRepositoryImpl.MangaRepository.Insert | data/src/main/java/tachiyomi/data/manga/MangaRepositoryImpl.kt:120-146 | the id reported and the new table are those of InsertRow on the old table |
| MangaRepositoryImpl.MangaRepository.PartialUpdate | data/src/main/java/tachiyomi/data/manga/MangaRepositoryImpl.kt:158-192 | succeeds exactly when every patch finds its row, then the table holds all patches applied in order; otherwise nothing changes |
| MangaRepositoryImpl.MangaRepository.Update | data/src/main/java/tachiyomi/data/manga/MangaRepositoryImpl.kt:99-107 | true exactly when the patch's row exists, in which case the row is merged; on false the table is unchanged |
| MangaRepositoryImpl.MangaRepository.UpdateAll | data/src/main/java/tachiyomi/data/manga/MangaRepositoryImpl.kt:109-117 | all patches applied in one transaction, or none and false |
| MangaRepositoryImpl.MangaRepository.SetMangaCategories | data/src/main/java/tachiyomi/data/manga/MangaRepositoryImpl.kt:90-97 | the link table is the old links of other mangas plus one link per given category id |
| MangaRepositoryImpl.SetCategoriesReplaces | data/src/main/java/tachiyomi/data/manga/MangaRepositoryImpl.kt:90-97 | afterwards the manga's category set is exactly the given ids and every other manga's set is unchanged |
| MangaRepositoryImpl.ApplyPatchesStopsAtMissingRow | data/src/main/java/tachiyomi/data/manga/MangaRepositoryImpl.kt:158-192 | once a patch misses its row the whole batch fails |
| MangaRepositoryImpl.MergeColumnByColumn | data/src/main/java/tachiyomi/data/manga/MangaRepositoryImpl.kt:165-188 | each column is the patch value when set, else the old value (the displayed one for the seven displayed columns); an explicit false overwrites |
| MangaRepositoryImpl.MergeKeepsIdentityAndUnnamedColumns | data/src/main/java/tachiyomi/data/manga/MangaRepositoryImpl.kt:161-164 | the stored id never changes, and columns the statement does not name keep their values |
| MangaRepositoryImpl.MergeKeepsDisplayedValues | data/src/main/java/tachiyomi/data/manga/MangaRepositoryImpl.kt:174-180 | a patch that sets neither a displayed column nor its override leaves what is displayed unchanged |
| MangaRepositoryImpl.MergeCopiesOverridesIntoOriginalColumns | data/src/main/java/tachiyomi/data/manga/MangaRepositoryImpl.kt:174-180 | for each of the seven displayed columns, a patch that leaves it unset copies an existing override into the original column |
| MangaRepositoryImpl.ApplyPatchesOutcome | data/src/main/java/tachiyomi/data/manga/MangaRepositoryImpl.kt:158-192 | a batch succeeds iff every patch names a stored row; it adds and removes no row and leaves rows no patch names alone |
| MangaRepositoryImpl.ApplyPatchesAppend | data/src/main/java/tachiyomi/data/manga/MangaRepositoryImpl.kt:159-163 | applying a + b is applying a, then b to its result |
| MangaRepositoryImpl.SinglePatch | data/src/main/java/tachiyomi/data/manga/MangaRepositoryImpl.kt:99-117 | update(u) and updateAll([u]) both merge u into its row, or fail when the row is missing |
| MangaRepositoryImpl.TwoPatchesForOneRow | data/src/main/java/tachiyomi/data/manga/MangaRepositoryImpl.kt:159-163 | two patches for one row compose: the second merges into what the first wrote |
| NetworkToLocalManga.Reconcile | domain/src/main/java/tachiyomi/domain/manga/interactor/NetworkToLocalManga.kt:10-24 | the result keeps the incoming url and source, and the table stays well formed |
| NetworkToLocalManga.Await | domain/src/main/java/tachiyomi/domain/manga/interactor/NetworkToLocalManga.kt:10-24 | the result and the new store are those of the three-way decision on the old store |
| NetworkToLocalManga.NotFoundInserts | domain/src/main/java/tachiyomi/domain/manga/interactor/NetworkToLocalManga.kt:13-16 | with no stored record exactly one row is inserted and the result is the incoming record under the new id; without an id the call fails |
| NetworkToLocalManga.NonFavouriteTakesLocalId | domain/src/main/java/tachiyomi/domain/manga/interactor/NetworkToLocalManga.kt:17-19 | a non-favourite record: no write, and the incoming data under the local id |
| NetworkToLocalManga.FavouriteReturnsLocal | domain/src/main/java/tachiyomi/domain/manga/interactor/NetworkToLocalManga.kt:20-22 | a favourite record: no write, and the local record itself |
| NetworkToLocalManga.OnlyInsertBranchWrites | domain/src/main/java/tachiyomi/domain/manga/interactor/NetworkToLocalManga.kt:10-24 | when a row with the key exists the table is unchanged; a success always names a stored row |
| NetworkToLocalManga.InsertedRowIsFoundByKey | domain/src/main/java/tachiyomi/domain/manga/interactor/NetworkToLocalManga.kt:13-16 | after the insert the new row is the only one with the record's url and source |
| NetworkToLocalManga.AwaitTwiceInsertsOnce | domain/src/main/java/tachiyomi/domain/manga/interactor/NetworkToLocalManga.kt:10-24 | a second await of the same record writes nothing and returns the same id; the whole result is the same unless the first call inserted a favourite record |
| NetworkToLocalManga.FavouriteInsertComesBackStored | domain/src/main/java/tachiyomi/domain/manga/interactor/NetworkToLocalManga.kt:13-22 | after inserting a favourite record, a second await finds it as a stored favourite and returns the stored row, which lacks the record's notes and overrides |
| NetworkToLocalManga.ReconcileAllKeepsOrder | data/src/main/java/tachiyomi/data/source/SourcePagingSource.kt:46-48 | reconciling a list keeps its length and order: the i-th result has the i-th input's url and source |
| NetworkToLocalManga.ReconcileAllStopsAtFailure | data/src/main/java/tachiyomi/data/source/SourcePagingSource.kt:46-48 | after a record throws, the rest of the list is not reconciled |
| SetCustomMangaInfo.CustomInfoPatch | domain/src/main/java/tachiyomi/domain/manga/interactor/SetCustomMangaInfo.kt:17-23 | the patch carries the id and the four given overrides, and every other field is unset |
| SetCustomMangaInfo.Await | domain/src/main/java/tachiyomi/domain/manga/interactor/SetCustomMangaInfo.kt:10-26 | true exactly when the id has a row, which then gets the patch merged; otherwise nothing changes |
| SetCustomMangaInfo.CustomInfoKeepsRecord | domain/src/main/java/tachiyomi/domain/manga/interactor/SetCustomMangaInfo.kt:17-25 | url, source, favourite flag, flags, dates, strategy, genre, status and cover are unchanged |
| SetCustomMangaInfo.CustomInfoDisplayedValues | domain/src/main/java/tachiyomi/domain/manga/interactor/SetCustomMangaInfo.kt:17-25 | a given override becomes the displayed value; an absent one leaves it as it was |
| SetCustomMangaInfo.NullKeepsStoredOverride | domain/src/main/java/tachiyomi/domain/manga/interactor/SetCustomMangaInfo.kt:18-22 | null cannot clear a stored override; the original title becomes the old displayed title |
| BackupManga.SignExtend | app/src/main/java/eu/kanade/tachiyomi/data/backup/models/BackupManga.kt:69 | the low 32 bits are the Int's; the upper half is all ones exactly when bit 31 is set |
| BackupManga.ViewerFlagsFallBackToViewer | app/src/main/java/eu/kanade/tachiyomi/data/backup/models/BackupManga.kt:68 | viewer_flags when present, else the legacy viewer value |
| BackupManga.UncopiedColumnsAreDefaults | app/src/main/java/eu/kanade/tachiyomi/data/backup/models/BackupManga.kt:55-56 | id -1, and uncopied columns keep the defaults of create() |
| BackupManga.BackupFillsOriginalColumns | app/src/main/java/eu/kanade/tachiyomi/data/backup/models/BackupManga.kt:57-64 | title, artist, author, description, genre, status and cover fill the original columns |
| BackupManga.BackupRestoresOverrides | app/src/main/java/eu/kanade/tachiyomi/data/backup/models/BackupManga.kt:73-79 | the seven overrides are copied verbatim, so the displayed title is the custom title if present, else the title |
| BackupManga.BackupCopiesColumns | app/src/main/java/eu/kanade/tachiyomi/data/backup/models/BackupManga.kt:57-81 | url, source, favourite, date added, strategy, modification times, version and notes are copied unchanged |
| BackupManga.BackupKeepsChapterSettings | app/src/main/java/eu/kanade/tachiyomi/data/backup/models/BackupManga.kt:69 | widening chapterFlags keeps every decoded chapter setting |
| SourcePagingSource.ToLoadResult | data/src/main/java/tachiyomi/data/source/SourcePagingSource.kt:53-63 | the data is the list given; prevKey is absent on page 1 and page - 1 otherwise; nextKey is page + 1 exactly when there is a next page |
| SourcePagingSource.LoadSpec | data/src/main/java/tachiyomi/data/source/SourcePagingSource.kt:29-51 | the store it leaves is well formed |
| SourcePagingSource.Load | data/src/main/java/tachiyomi/data/source/SourcePagingSource.kt:29-51 | the outcome and the new store are those of fetching the key's page and reconciling its items in order |
| SourcePagingSource.LoadWithoutKeyFetchesFirstPage | data/src/main/java/tachiyomi/data/source/SourcePagingSource.kt:30 | without a key page 1 is fetched; it has no previous key, and its next key is 2 exactly when there is a next page |
| SourcePagingSource.FetchFailureClassification | data/src/main/java/tachiyomi/data/source/SourcePagingSource.kt:34-44 | HTTP-retry, I/O and null-pointer failures become an error result, any other exception is rethrown; the store is untouched |
| SourcePagingSource.LoadKeepsFetchedOrder | data/src/main/java/tachiyomi/data/source/SourcePagingSource.kt:46-48 | the loaded data has the fetched list's length, and each item the url and source of the fetched item at its position |
| SourcePagingSource.RefreshOfLoadedPage | data/src/main/java/tachiyomi/data/source/SourcePagingSource.kt:22-27 | refreshing at a loaded page p gives p, except page 1 with no next page, which gives no key |
| SourcePagingSource.RefreshKeyCases | data/src/main/java/tachiyomi/data/source/SourcePagingSource.kt:22-27 | no key without an anchor; else the anchor page's prevKey + 1, else its nextKey - 1, else none |
| LongParsing.ParseLong | app/src/main/java/mihon/feature/migration/MigrateMangaConfigScreen.kt:311-314 | a parsed value lies in the Long range and the text holds a digit |
| LongParsing.ParseLongRoundTrip | app/src/main/java/mihon/feature/migration/MigrateMangaConfigScreen.kt:311-314 | every Long written in decimal parses back to itself |
| LongParsing.ParseLongRejects | app/src/main/java/mihon/feature/migration/MigrateMangaConfigScreen.kt:311-314 | empty text, a lone sign, a stray character and a value beyond the Long range give null |
| LongParsing.ParseIds | app/src/main/java/mihon/feature/migration/MigrateMangaConfigScreen.kt:311-314 | the result is no longer than the input |
| LongParsing.ParseIdsMembership | app/src/main/java/mihon/feature/migration/MigrateMangaConfigScreen.kt:311-314 | an id is kept exactly when some stored entry parses to it; entries that do not parse are dropped |
| MigrateMangaConfigScreen.IndexOf | app/src/main/java/mihon/feature/migration/MigrateMangaConfigScreen.kt:291 | -1 exactly when the id is absent, else the position of its first occurrence |
| MigrateMangaConfigScreen.StrLessAsymmetric | app/src/main/java/mihon/feature/migration/MigrateMangaConfigScreen.kt:292 | string order is asymmetric |
| MigrateMangaConfigScreen.StrLessTransitive | app/src/main/java/mihon/feature/migration/MigrateMangaConfigScreen.kt:292 | string order is transitive |
| MigrateMangaConfigScreen.StrLessTotal | app/src/main/java/mihon/feature/migration/MigrateMangaConfigScreen.kt:292 | two different strings are ordered one way or the other |
| MigrateMangaConfigScreen.KeyLessAsymmetric | app/src/main/java/mihon/feature/migration/MigrateMangaConfigScreen.kt:288-294 | the comparator never puts two sources strictly before each other |
| MigrateMangaConfigScreen.KeyLessTransitive | app/src/main/java/mihon/feature/migration/MigrateMangaConfigScreen.kt:288-294 | the comparator's strict order is transitive |
| MigrateMangaConfigScreen.Insert | app/src/main/java/mihon/feature/migration/MigrateMangaConfigScreen.kt:299-300 | inserting adds exactly the new element |
| MigrateMangaConfigScreen.SortWith | app/src/main/java/mihon/feature/migration/MigrateMangaConfigScreen.kt:299-300 | the sort is a permutation of its input |
| MigrateMangaConfigScreen.InsertSorted | app/src/main/java/mihon/feature/migration/MigrateMangaConfigScreen.kt:299-300 | inserting into a sorted list keeps it sorted |
| MigrateMangaConfigScreen.SortWithSorted | app/src/main/java/mihon/feature/migration/MigrateMangaConfigScreen.kt:299-300 | no element of the sorted list sorts strictly before one in front of it |
| MigrateMangaConfigScreen.InsertTied | app/src/main/java/mihon/feature/migration/MigrateMangaConfigScreen.kt:299-300 | an inserted element goes after every element it ties with |
| MigrateMangaConfigScreen.SortWithStable | app/src/main/java/mihon/feature/migration/MigrateMangaConfigScreen.kt:299-300 | the sort is stable: the elements tied with any given one keep their input order |
| MigrateMangaConfigScreen.SortKeepsSelectedOrder | app/src/main/java/mihon/feature/migration/MigrateMangaConfigScreen.kt:298-300 | sorting by the list's own selected ids keeps the selected ids in order |
| MigrateMangaConfigScreen.ResortIsPermutation | app/src/main/java/mihon/feature/migration/MigrateMangaConfigScreen.kt:296-300 | the stored list is a permutation of what the action produced |
| MigrateMangaConfigScreen.ResortSelectedFirst | app/src/main/java/mihon/feature/migration/MigrateMangaConfigScreen.kt:288-300 | every selected source comes before every unselected one |
| MigrateMangaConfigScreen.ResortKeepsSelectedOrder | app/src/main/java/mihon/feature/migration/MigrateMangaConfigScreen.kt:296-300 | the selected sources keep the order the action gave them |
| MigrateMangaConfigScreen.ResortIsStable | app/src/main/java/mihon/feature/migration/MigrateMangaConfigScreen.kt:296-300 | sources the comparator cannot tell apart keep the order the action gave them |
| MigrateMangaConfigScreen.ResortUnselectedByName | app/src/main/java/mihon/feature/migration/MigrateMangaConfigScreen.kt:288-294 | unselected sources follow in ascending order of name and displayed language |
| MigrateMangaConfigScreen.FlipById | app/src/main/java/mihon/feature/migration/MigrateMangaConfigScreen.kt:341-347 | same length and sources; exactly the entries with that id change their flag |
| MigrateMangaConfigScreen.FlipByIdInvolution | app/src/main/java/mihon/feature/migration/MigrateMangaConfigScreen.kt:341-347 | toggling one id twice restores the list |
| MigrateMangaConfigScreen.FlipByIdSelection | app/src/main/java/mihon/feature/migration/MigrateMangaConfigScreen.kt:341-347 | the id's selection flips when such a source exists; no other id's selection changes |
| MigrateMangaConfigScreen.SetSelection | app/src/main/java/mihon/feature/migration/MigrateMangaConfigScreen.kt:349-365 | same length and sources; only the flags are set |
| MigrateMangaConfigScreen.SelectionPresets | app/src/main/java/mihon/feature/migration/MigrateMangaConfigScreen.kt:349-365 | All selects every source, None none, Pinned exactly the pinned ones, Enabled exactly those not disabled |
| MigrateMangaConfigScreen.Move | app/src/main/java/mihon/feature/migration/MigrateMangaConfigScreen.kt:367-375 | defined exactly when both indices are in range; the moved element lands at `to` and the result is a permutation |
| MigrateMangaConfigScreen.MoveKeepsOthersInOrder | app/src/main/java/mihon/feature/migration/MigrateMangaConfigScreen.kt:367-375 | removing the moved element again gives the list without it, so the others keep their relative order |
| MigrateMangaConfigScreen.MoveRoundTrip | app/src/main/java/mihon/feature/migration/MigrateMangaConfigScreen.kt:367-375 | moving back undoes a move |
| MigrateMangaConfigScreen.InitialSourcesContents | app/src/main/java/mihon/feature/migration/MigrateMangaConfigScreen.kt:309-339 | the initial list holds exactly the HTTP sources in an enabled language, each flagged by the saved list, else the pinned ones, else not disabled |
| MigrateMangaConfigScreen.InitialSourcesDistinct | app/src/main/java/mihon/feature/migration/MigrateMangaConfigScreen.kt:309-339 | distinct catalogue ids give distinct initial ids |
| MigrateMangaConfigScreen.ScreenModel.UpdateSources | app/src/main/java/mihon/feature/migration/MigrateMangaConfigScreen.kt:296-307 | the stored list is the action's list re-sorted; a saving update persists the selected ids in displayed order, equal to the action's order |
| MigrateMangaConfigScreen.ScreenModel.InitSources | app/src/main/java/mihon/feature/migration/MigrateMangaConfigScreen.kt:309-339 | stores the re-sorted initial list built from the preferences and persists nothing |
| MigrateMangaConfigScreen.ScreenModel.ToggleSelection | app/src/main/java/mihon/feature/migration/MigrateMangaConfigScreen.kt:341-347 | stores the re-sorted toggled list and persists its selected ids |
| MigrateMangaConfigScreen.ScreenModel.ToggleSelectionConfig | app/src/main/java/mihon/feature/migration/MigrateMangaConfigScreen.kt:349-365 | stores the re-sorted preset list, with pinned and disabled ids parsed from the preferences, and persists its selected ids |
| MigrateMangaConfigScreen.ScreenModel.OrderSource | app/src/main/java/mihon/feature/migration/MigrateMangaConfigScreen.kt:367-375 | with indices in range, stores the re-sorted moved list and persists its selected ids; otherwise nothing changes |
## Left out

- Queries whose SQL is not part of this model are not modelled: `getFavorites`, `getLibraryManga`, `getDuplicateLibraryManga`, `getReadMangaNotInLibrary`, `resetViewerFlags` and the clock-based `getUpcomingManga`. Database triggers (`version`, `last_modified_at`) are not modelled either.
- `insertNetworkManga` is declared by the repository interface but has no implementation here, so it is not modelled.
- Flows, subscriptions, coroutines (`launchIO`), the atomic `updateAndGet`, and isolation against concurrent readers are not modelled. A transaction is all-or-nothing for one sequential caller.
- Composables, dialogs and the user interface are not modelled.
- `update` and `updateAll` log the exception they catch with `logcat` before returning `false` (`MangaRepositoryImpl.kt` lines 104 and 114). Logging is not modelled.
- Some exceptions escape `load` and `await`: a rethrown fetch failure, the `!!` on a missing insert id, and a key query that matches several rows. The model returns these as values (`Rethrown`, `ReconcileThrew`, `Failure`) instead of unwinding.
- The network fetch and the exception types are inputs. `toDomainManga` is taken to be applied already: fetched items are domain records.
- `page.toInt()` truncation is not modelled, nor is the 64-bit wrap of `page + 1` and `page - 1`. Keys are unbounded integers.
- SQLite may reuse the row id of a deleted row. The model always hands out the next id, and no operation in the core deletes manga rows.
- Only `getMangaImpl` of the backup record is modelled. Its chapters, categories, tracking, history and excluded scanlators are not, and neither is protobuf serialisation.
- `setMangaCategories` stores the links as a set, so a repeated category id gives one link. The real table may hold duplicate rows.
- `LocaleHelper.getLocalizedDisplayName` is the `displayLanguage` parameter.
- A custom order of the selected sources is not restored across restarts, and the model keeps that behaviour. `initSources` re-sorts the new list with a comparator built from the new list's own selected ids, and those ids are in catalogue order (`MigrateMangaConfigScreen.kt:288-300` with `309-339`). So `InitSources` brings the selected sources back in catalogue order, not in the saved order (`ResortKeepsSelectedOrder`). `InitialSourcesContents` speaks of membership and selection, not of order.
- The source manager is the `catalogue` sequence, whose ids are taken to be distinct (`ScreenModel.Valid`). Preference sets are stored in their iteration order.
- `MigrateMangaConfigScreen.StrLess`: compares by Dafny `char` rather than by UTF-16 code unit. The two orders differ only for characters outside the Basic Multilingual Plane.
- `LongParsing.ParseLong`: accepts ASCII digits only, where Kotlin's `toLongOrNull` also accepts other Unicode decimal digits.
- `MigrateMangaConfigScreen.ScreenModel.OrderSource`: an index out of range makes `removeAt` or `add` throw. The model returns `false` and leaves the state unchanged.
- `MangaModel.ChangingUnreadBitsKeepsOthers`: group independence is proved for the unread and sorting groups only. `ChapterMasksDisjoint` covers all six masks.
