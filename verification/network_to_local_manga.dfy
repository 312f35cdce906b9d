/** Reconciling a manga fetched from a source with the local library: the record
    is looked up by its natural key (url, source) and is either inserted, re-keyed
    to the local id, or replaced by the local favourite. */
module NetworkToLocalManga {
  import opened Wrappers
  import opened MangaModel
  import opened MangaRepositoryImpl

  /** Ways `await` can throw instead of returning a record: the insert reported
      no id (the `!!` on it), or the key query matched several rows. */
  datatype Failure = MissingInsertedId | SeveralRowsForKey

  /** The outcome of one `await` and the table it leaves behind. */
  datatype Reconciled = Reconciled(result: Result<Manga, Failure>, table: MangasTable)

  /** The three-way decision of `await`, on the table it runs against. */
  ghost function Reconcile(t: MangasTable, m: Manga): (r: Reconciled)
    requires WellFormed(t)
    ensures WellFormed(r.table)
    ensures r.result.Success? ==> r.result.value.url == m.url && r.result.value.source == m.source
  {
    match FindByKey(t.rows, m.url, m.source)
    case ManyRows => Reconciled(Failure(SeveralRowsForKey), t)
    case NoRow =>
      var ins := InsertRow(t, m);
      if ins.newId.None? then Reconciled(Failure(MissingInsertedId), ins.table)
      else Reconciled(Success(m.(id := ins.newId.value)), ins.table)
    case OneRow(local) =>
      FindByKeyFound(t.rows, m.url, m.source);
      if !local.favorite then Reconciled(Success(m.(id := local.id)), t)
      else Reconciled(Success(local), t)
  }

  /** `await`: looks the incoming record up and reconciles it with the store. */
  method Await(repo: MangaRepository, manga: Manga) returns (r: Result<Manga, Failure>)
    requires repo.Valid()
    modifies repo`mangas
    ensures repo.Valid()
    ensures Reconciled(r, repo.mangas) == Reconcile(old(repo.mangas), manga)
  {
    var local := repo.GetMangaByUrlAndSourceId(manga.url, manga.source);
    match local
    case NoRow =>
      var newId := repo.Insert(manga);
      if newId.None? {
        r := Failure(MissingInsertedId);
      } else {
        r := Success(manga.(id := newId.value));
      }
    case OneRow(found) =>
      if !found.favorite {
        r := Success(manga.(id := found.id));
      } else {
        r := Success(found);
      }
    case ManyRows =>
      r := Failure(SeveralRowsForKey);
  }

  // ---------------------------------------------------------------- lemmas

  /** No stored record: exactly one row is inserted, and the result is the
      incoming record under the new id; without an id the call fails. */
  lemma NotFoundInserts(t: MangasTable, m: Manga)
    requires WellFormed(t)
    requires KeyIds(t.rows, m.url, m.source) == {}
    ensures var r := Reconcile(t, m);
      && r.table == InsertRow(t, m).table
      && (InsertRow(t, m).newId.Some? ==>
            && r.result == Success(m.(id := InsertRow(t, m).newId.value))
            && r.table.rows.Keys == t.rows.Keys + {InsertRow(t, m).newId.value})
      && (InsertRow(t, m).newId.None? ==> r.result == Failure(MissingInsertedId) && r.table == t)
  {
  }

  /** A non-favourite record: nothing is written, and the result is the incoming
      data carrying the local id. */
  lemma NonFavouriteTakesLocalId(t: MangasTable, m: Manga, id: int)
    requires WellFormed(t)
    requires KeyIds(t.rows, m.url, m.source) == {id} && !t.rows[id].favorite
    ensures Reconcile(t, m) == Reconciled(Success(m.(id := id)), t)
  {
    assert FindByKey(t.rows, m.url, m.source) == OneRow(t.rows[id]);
  }

  /** A favourite record: nothing is written, and the result is the local record
      itself, with nothing taken from the incoming one. */
  lemma FavouriteReturnsLocal(t: MangasTable, m: Manga, id: int)
    requires WellFormed(t)
    requires KeyIds(t.rows, m.url, m.source) == {id} && t.rows[id].favorite
    ensures Reconcile(t, m) == Reconciled(Success(t.rows[id]), t)
  {
    assert FindByKey(t.rows, m.url, m.source) == OneRow(t.rows[id]);
  }

  /** Only the not-found branch writes; every other outcome leaves the table as
      it was. A success always names a stored row. */
  lemma OnlyInsertBranchWrites(t: MangasTable, m: Manga)
    requires WellFormed(t)
    ensures var r := Reconcile(t, m);
      && (KeyIds(t.rows, m.url, m.source) != {} ==> r.table == t)
      && (r.result.Success? ==> r.result.value.id in r.table.rows)
  {
    if KeyIds(t.rows, m.url, m.source) != {} {
      assert !FindByKey(t.rows, m.url, m.source).NoRow?;
    }
  }

  /** After an insert the new row is the only one with its natural key. */
  lemma InsertedRowIsFoundByKey(t: MangasTable, m: Manga)
    requires WellFormed(t)
    requires KeyIds(t.rows, m.url, m.source) == {}
    requires InsertRow(t, m).newId.Some?
    ensures var k := InsertRow(t, m).newId.value;
      KeyIds(InsertRow(t, m).table.rows, m.url, m.source) == {k}
  {
    var k := InsertRow(t, m).newId.value;
    KeyIdsAfterInsert(t.rows, k, InsertedRow(m, k));
  }

  lemma KeyIdsAfterInsert(rows: map<int, Manga>, k: int, row: Manga)
    requires k !in rows
    ensures KeyIds(rows[k := row], row.url, row.source) == KeyIds(rows, row.url, row.source) + {k}
  {
  }

  /** Running `await` twice on the same record inserts at most once: when the
      first call succeeds, the second writes nothing and returns the same id.
      The whole result is the same too, unless the first call inserted a
      favourite record; `FavouriteInsertComesBackStored` covers that case. */
  lemma AwaitTwiceInsertsOnce(t: MangasTable, m: Manga)
    requires WellFormed(t)
    requires Reconcile(t, m).result.Success?
    ensures var r1 := Reconcile(t, m);
      var r2 := Reconcile(r1.table, m);
      && r2.table == r1.table
      && r2.result.Success?
      && r2.result.value.id == r1.result.value.id
      && (!m.favorite || KeyIds(t.rows, m.url, m.source) != {} ==> r2.result == r1.result)
  {
    var r1 := Reconcile(t, m);
    match FindByKey(t.rows, m.url, m.source)
    case NoRow =>
      InsertedRowIsFoundByKey(t, m);
      var k := InsertRow(t, m).newId.value;
      assert FindByKey(r1.table.rows, m.url, m.source) == OneRow(r1.table.rows[k]);
    case OneRow(local) =>
      FindByKeyFound(t.rows, m.url, m.source);
    case ManyRows =>
  }

  /** A favourite record that was just inserted is found as a favourite on the
      second call, which returns the stored row rather than the incoming record:
      the row lacks the record's overrides and notes, which the insert does not
      write, so the two results differ whenever the record had any. */
  lemma FavouriteInsertComesBackStored(t: MangasTable, m: Manga)
    requires WellFormed(t)
    requires KeyIds(t.rows, m.url, m.source) == {} && m.favorite
    requires InsertRow(t, m).newId.Some?
    ensures var k := InsertRow(t, m).newId.value;
      var r1 := Reconcile(t, m);
      var r2 := Reconcile(r1.table, m);
      && r1.result == Success(m.(id := k))
      && r2.result == Success(InsertedRow(m, k))
      && (m.notes != "" || m.customTitle.Some? ==> r2.result != r1.result)
  {
    var k := InsertRow(t, m).newId.value;
    InsertedRowIsFoundByKey(t, m);
    assert FindByKey(Reconcile(t, m).table.rows, m.url, m.source) == OneRow(InsertedRow(m, k));
  }

  // ---------------------------------------------------------------- a list of records

  /** `await` on each record in turn, stopping at the first that throws; the
      result list is in the order of the input. */
  ghost function ReconcileAll(t: MangasTable, ms: seq<Manga>): (r: (Result<seq<Manga>, Failure>, MangasTable))
    requires WellFormed(t)
    ensures WellFormed(r.1)
    decreases |ms|
  {
    if ms == [] then (Success([]), t)
    else
      var (prefix, t') := ReconcileAll(t, ms[..|ms| - 1]);
      if prefix.Failure? then (prefix, t')
      else
        var step := Reconcile(t', ms[|ms| - 1]);
        if step.result.Failure? then (Failure(step.result.error), step.table)
        else (Success(prefix.value + [step.result.value]), step.table)
  }

  /** Reconciling a list keeps its length and order: the i-th result has the url
      and source of the i-th input. */
  lemma {:induction false} ReconcileAllKeepsOrder(t: MangasTable, ms: seq<Manga>)
    requires WellFormed(t)
    ensures var r := ReconcileAll(t, ms).0;
      r.Success? ==>
        && |r.value| == |ms|
        && forall i :: 0 <= i < |ms| ==> r.value[i].url == ms[i].url && r.value[i].source == ms[i].source
    decreases |ms|
  {
    if ms != [] {
      ReconcileAllKeepsOrder(t, ms[..|ms| - 1]);
    }
  }

  /** Once a record throws, the rest of the list is not reconciled: the outcome of
      the whole list is that of the prefix ending at the failure. */
  lemma {:induction false} ReconcileAllStopsAtFailure(t: MangasTable, ms: seq<Manga>, k: nat)
    requires WellFormed(t)
    requires k <= |ms|
    requires ReconcileAll(t, ms[..k]).0.Failure?
    ensures ReconcileAll(t, ms) == ReconcileAll(t, ms[..k])
    decreases |ms| - k
  {
    if k < |ms| {
      assert ms[..k + 1][..k] == ms[..k];
      ReconcileAllStopsAtFailure(t, ms, k + 1);
    } else {
      assert ms[..k] == ms;
    }
  }
}
