/** The catalog store behind the HTTP endpoints: the `mm_models` table and
    the `mm_settings` table, and the operations that change them — scanning,
    listing, the remote-metadata update, the full-hash request and saving
    the models folder. Each operation runs in one transaction, so the tables
    move from one committed state to the next. */
module Catalogs {

  import opened Common
  import opened Strings
  import opened Config
  import opened Records
  import opened Scanning
  import opened Listing
  import opened RemoteUpdates

  // ---------------------------------------------------------------------------
  // Full hash
  // ---------------------------------------------------------------------------

  /** What the full-hash request reports for one id. */
  datatype HashOutcome = HashError(message: string) | Hashed(hash: string)

  datatype HashResult = HashResult(modelId: Id, outcome: HashOutcome)

  /** The outcome for one id: unknown id, a file no longer on disk, a digest
      that came back empty, or the digest. `onDisk` and `fullHash` are the
      file system's answers for a path. */
  function HashOutcomeOf(rows: map<Id, Row>, id: Id, onDisk: string -> bool, fullHash: string -> Text): HashOutcome {
    if id !in rows then HashError("Model not found")
    else if !onDisk(rows[id].path) then HashError("File not found")
    else
      var h := fullHash(rows[id].path);
      if Truthy(h) then Hashed(h.value) else HashError("Hash calculation failed")
  }

  /** The catalog after the request: every requested, known id whose digest
      was computed has it stored; nothing else changes. */
  function Rehashed(rows: map<Id, Row>, ids: seq<Id>, onDisk: string -> bool, fullHash: string -> Text): map<Id, Row> {
    map id | id in rows ::
      if id in ids && HashOutcomeOf(rows, id, onDisk, fullHash).Hashed?
      then rows[id].(hash := Some(HashOutcomeOf(rows, id, onDisk, fullHash).hash))
      else rows[id]
  }

  /** One result per requested id, in request order. */
  function HashResults(rows: map<Id, Row>, ids: seq<Id>, onDisk: string -> bool, fullHash: string -> Text): seq<HashResult> {
    seq(|ids|, i requires 0 <= i < |ids| => HashResult(ids[i], HashOutcomeOf(rows, ids[i], onDisk, fullHash)))
  }

  /** The request only ever writes the `hash` column, only of requested
      rows, and stores exactly the digests it reports. */
  lemma RehashWritesOnlyReportedHashes(rows: map<Id, Row>, ids: seq<Id>, onDisk: string -> bool, fullHash: string -> Text)
    ensures var r := Rehashed(rows, ids, onDisk, fullHash);
            && r.Keys == rows.Keys
            && (forall id :: id in rows ==> r[id] == rows[id].(hash := r[id].hash))
            && (forall id :: id in rows && id !in ids ==> r[id] == rows[id])
            && (forall id :: id in rows && r[id].hash != rows[id].hash ==>
                  exists i :: 0 <= i < |ids| && ids[i] == id &&
                    HashResults(rows, ids, onDisk, fullHash)[i].outcome == Hashed(r[id].hash.value))
            && (forall i :: 0 <= i < |ids| && HashResults(rows, ids, onDisk, fullHash)[i].outcome.Hashed? ==>
                  ids[i] in r && Truthy(r[ids[i]].hash) &&
                  r[ids[i]].hash.value == HashResults(rows, ids, onDisk, fullHash)[i].outcome.hash)
  {
    var r := Rehashed(rows, ids, onDisk, fullHash);
    forall id | id in rows && r[id].hash != rows[id].hash
      ensures exists i :: 0 <= i < |ids| && ids[i] == id &&
                HashResults(rows, ids, onDisk, fullHash)[i].outcome == Hashed(r[id].hash.value)
    {
      var i :| 0 <= i < |ids| && ids[i] == id;
      assert HashResults(rows, ids, onDisk, fullHash)[i].outcome == Hashed(r[id].hash.value);
    }
  }

  lemma RehashKeepsPathsUnique(rows: map<Id, Row>, ids: seq<Id>, onDisk: string -> bool, fullHash: string -> Text)
    requires PathsUnique(rows)
    ensures PathsUnique(Rehashed(rows, ids, onDisk, fullHash))
  {
    var r := Rehashed(rows, ids, onDisk, fullHash);
    assert forall id :: id in r ==> r[id].path == rows[id].path;
  }

  /** The request reports an error for exactly the ids it cannot hash, and
      a reported digest is never empty. */
  lemma HashErrorsAreExactlyTheFailures(rows: map<Id, Row>, id: Id, onDisk: string -> bool, fullHash: string -> Text)
    ensures HashOutcomeOf(rows, id, onDisk, fullHash).HashError? <==>
            id !in rows || !onDisk(rows[id].path) || !Truthy(fullHash(rows[id].path))
    ensures HashOutcomeOf(rows, id, onDisk, fullHash).Hashed? ==> HashOutcomeOf(rows, id, onDisk, fullHash).hash != ""
  {
  }

  /** The result of a `DELETE ... WHERE path = ?` for each of `paths`. */
  function Without(rows: map<Id, Row>, paths: set<string>): map<Id, Row> {
    map id | id in rows && rows[id].path !in paths :: rows[id]
  }

  lemma DeleteOneMorePath(rows: map<Id, Row>, paths: set<string>, path: string)
    ensures var w := Without(rows, paths);
            (map id | id in w && w[id].path != path :: w[id]) == Without(rows, paths + {path})
  {
  }

  /** Deleting the stored paths that were not scanned is the prune. */
  lemma UnseenPathsArePruned(rows: map<Id, Row>, scanned: set<string>)
    ensures Without(rows, (set id | id in rows :: rows[id].path) - scanned) == Prune(rows, scanned)
  {
    var dbPaths := set id | id in rows :: rows[id].path;
    forall id | id in rows ensures rows[id].path in dbPaths {
    }
  }

  /** Rehashing one more id: the stored path is still the original one, and
      the catalog and the results grow by that id's outcome. */
  lemma RehashStep(rows: map<Id, Row>, done: seq<Id>, id: Id, onDisk: string -> bool, fullHash: string -> Text)
    ensures var r := Rehashed(rows, done, onDisk, fullHash);
            && (id in r <==> id in rows)
            && (id in r ==> r[id].path == rows[id].path)
            && Rehashed(rows, done + [id], onDisk, fullHash) ==
                 (match HashOutcomeOf(rows, id, onDisk, fullHash)
                  case Hashed(h) => r[id := r[id].(hash := Some(h))]
                  case HashError(_) => r)
            && HashResults(rows, done + [id], onDisk, fullHash) ==
                 HashResults(rows, done, onDisk, fullHash) + [HashResult(id, HashOutcomeOf(rows, id, onDisk, fullHash))]
  {
    assert forall k :: k in done + [id] <==> k in done || k == id;
  }

  /** `DELETE FROM mm_models WHERE path = ?` for each of `paths`, one path at a time. */
  method DeletePaths(rows: map<Id, Row>, paths: set<string>) returns (kept: map<Id, Row>)
    ensures kept == Without(rows, paths)
  {
    var remaining := paths;
    ghost var deleted: set<string> := {};
    kept := rows;
    while remaining != {}
      invariant deleted + remaining == paths && deleted !! remaining
      invariant kept == Without(rows, deleted)
      decreases |remaining|
    {
      var path :| path in remaining;
      DeleteOneMorePath(rows, deleted, path);
      kept := map id | id in kept && kept[id].path != path :: kept[id];
      deleted := deleted + {path};
      remaining := remaining - {path};
    }
  }

  // ---------------------------------------------------------------------------
  // Endpoint outcomes
  // ---------------------------------------------------------------------------

  datatype UpdateOutcome = MissingUpdates | UpdateFailed | Updated(count: nat)

  datatype HashBatch = MissingIds | HashReport(results: seq<HashResult>)

  datatype SaveOutcome = Saved | Rejected(message: string)

  const ModelsPathKey: string := "models_path"

  /** The two tables. */
  class Catalog {
    var rows: map<Id, Row>
    var settings: map<string, string>

    /** The `UNIQUE` constraint on `path`. */
    ghost predicate Valid()
      reads this
    {
      PathsUnique(rows)
    }

    /** A fresh database: both tables empty. */
    constructor()
      ensures rows == map[] && settings == map[] && Valid()
    {
      rows := map[];
      settings := map[];
    }

    /** `scan_models`: walk the model folders, bring each recognized file's
        row up to date, then delete the rows of paths that were not seen;
        `found` holds one record per recognized, readable file, in walk order. */
    method Scan(base: string, tree: Tree, force: bool, now: int) returns (found: seq<ModelView>)
      requires Valid()
      modifies this
      ensures rows == ScannedRows(old(rows), base, tree, force, now)
      ensures found == ScanOutcome(old(rows), base, tree, force, now).found
      ensures settings == old(settings) && Valid()
    {
      var files := Walk(base, tree);
      var scanned: set<string> := {};
      found := [];
      var i := 0;
      while i < |files|
        invariant 0 <= i <= |files|
        invariant Pass(rows, scanned, found) == Steps(Pass(old(rows), {}, []), files[..i], force, now)
        invariant PathsUnique(rows) && settings == old(settings)
      {
        var v := files[i];
        assert files[..i + 1][..i] == files[..i];
        StepKeepsPathsUnique(Pass(rows, scanned, found), v, force, now);
        if HasModelExtension(v.file.fileName) {
          scanned := scanned + {v.file.path};
          if v.file.stat.Some? {
            var st := v.file.stat.value;
            if st.id in rows && !force && rows[st.id].mtime == st.mtime {
              var row := Backfilled(rows[st.id], SplitExtRoot(v.file.fileName));
              rows := rows[st.id := row];
              found := found + [FastPathView(st.id, row, v, st)];
            } else {
              var existing := if st.id in rows then Some(rows[st.id]) else None;
              rows := Upsert(rows, st.id, Rescanned(v, st, existing, now));
              found := found + [SlowPathView(st.id, v, st, existing)];
            }
          }
        }
        i := i + 1;
      }
      assert files[..|files|] == files;
      PruneUnseen(scanned);
    }

    /** The prune loop: delete the rows of each path in the catalog that the
        walk did not record. */
    method PruneUnseen(scanned: set<string>)
      requires Valid()
      modifies this
      ensures rows == Prune(old(rows), scanned)
      ensures settings == old(settings) && Valid()
    {
      var before := rows;
      var dbPaths := set id | id in before :: before[id].path;
      rows := DeletePaths(before, dbPaths - scanned);
      UnseenPathsArePruned(before, scanned);
      PruneKeepsPathsUnique(before, scanned);
    }

    /** The ordered query of the listing endpoint. */
    method Listing() returns (models: seq<ModelView>)
      ensures IsListing(rows, models)
    {
      var ids := QueryOrder(rows);
      models := [];
      var i := 0;
      while i < |ids|
        invariant 0 <= i <= |ids| && |models| == i
        invariant forall j :: 0 <= j < i ==> models[j] == ViewOf(ids[j], rows[ids[j]])
      {
        models := models + [ViewOf(ids[i], rows[ids[i]])];
        i := i + 1;
      }
      assert Ids(models) == ids;
    }

    /** `GET /list`: an empty catalog is filled by a non-forced scan whose
        records are returned; otherwise the stored rows are listed. */
    method List(base: string, tree: Tree, now: int) returns (models: seq<ModelView>, initialScan: bool)
      requires Valid()
      modifies this
      ensures initialScan <==> old(rows) == map[]
      ensures initialScan ==> rows == ScannedRows(old(rows), base, tree, false, now) &&
                              models == ScanOutcome(old(rows), base, tree, false, now).found
      ensures !initialScan ==> rows == old(rows) && IsListing(rows, models)
      ensures settings == old(settings) && Valid()
    {
      if rows == map[] {
        models := Scan(base, tree, false, now);
        initialScan := true;
      } else {
        models := Listing();
        initialScan := false;
      }
    }

    /** `POST /update-civitai`: apply the items in order and commit, or keep
        the catalog as it was when the request has no items or an item raises. */
    method UpdateRemote(updates: Option<seq<Update>>, now: int) returns (outcome: UpdateOutcome)
      requires Valid()
      modifies this
      ensures updates.None? ==> outcome == MissingUpdates && rows == old(rows)
      ensures updates.Some? ==>
                match ApplyAll(old(rows), updates.value, now)
                case None => outcome == UpdateFailed && rows == old(rows)
                case Some(a) => outcome == Updated(a.count) && rows == a.rows
      ensures settings == old(settings) && Valid()
    {
      if updates.None? {
        return MissingUpdates;
      }
      var us := updates.value;
      var working := rows;
      var count := 0;
      var i := 0;
      while i < |us|
        invariant 0 <= i <= |us|
        invariant ApplyAll(rows, us[..i], now) == Some(Applied(working, count))
      {
        var u := us[i];
        assert us[..i + 1][..i] == us[..i];
        if Truthy(u.modelId) {
          var id := u.modelId.value;
          if u.notFound {
            if id in working {
              working := working[id := working[id].(checkedAt := Some(now))];
              count := count + 1;
            }
          } else if u.data.None? {
            FailureIsFinal(rows, us, i + 1, now);
            return UpdateFailed;
          } else if id in working {
            working := working[id := Refreshed(working[id], RemoteFrom(u.data.value, now))];
            count := count + 1;
          }
        }
        i := i + 1;
      }
      assert us[..|us|] == us;
      BatchFailsIffAnItemRaises(rows, us, now);
      rows := working;
      outcome := Updated(count);
    }

    /** `POST /calculate-full-hash`: one result per requested id, in order,
        and the computed digests stored. */
    method ComputeFullHash(ids: Option<seq<Id>>, onDisk: string -> bool, fullHash: string -> Text) returns (batch: HashBatch)
      requires Valid()
      modifies this
      ensures ids.None? ==> batch == MissingIds && rows == old(rows)
      ensures ids.Some? ==> batch == HashReport(HashResults(old(rows), ids.value, onDisk, fullHash)) &&
                            rows == Rehashed(old(rows), ids.value, onDisk, fullHash)
      ensures settings == old(settings) && Valid()
    {
      if ids.None? {
        return MissingIds;
      }
      var todo := ids.value;
      ghost var before := rows;
      var results: seq<HashResult> := [];
      var i := 0;
      while i < |todo|
        invariant 0 <= i <= |todo|
        invariant rows == Rehashed(before, todo[..i], onDisk, fullHash)
        invariant results == HashResults(before, todo[..i], onDisk, fullHash)
        invariant settings == old(settings)
      {
        var id := todo[i];
        assert todo[..i + 1] == todo[..i] + [id];
        RehashStep(before, todo[..i], id, onDisk, fullHash);
        var outcome: HashOutcome;
        if id !in rows {
          outcome := HashError("Model not found");
        } else if !onDisk(rows[id].path) {
          outcome := HashError("File not found");
        } else {
          var h := fullHash(rows[id].path);
          if Truthy(h) {
            rows := rows[id := rows[id].(hash := h)];
            outcome := Hashed(h.value);
          } else {
            outcome := HashError("Hash calculation failed");
          }
        }
        results := results + [HashResult(id, outcome)];
        i := i + 1;
      }
      assert todo[..|todo|] == todo;
      RehashKeepsPathsUnique(before, todo, onDisk, fullHash);
      batch := HashReport(results);
    }

    /** `POST /settings`: store the stripped folder when it is non-empty and
        a directory, and empty the catalog so the next listing rescans. */
    method SaveSettings(raw: string, isDir: string -> bool) returns (outcome: SaveOutcome)
      requires Valid()
      modifies this
      ensures var path := Strip(raw);
              if path == "" then
                outcome == Rejected("Models path cannot be empty") && rows == old(rows) && settings == old(settings)
              else if !isDir(path) then
                outcome == Rejected("Directory not found: " + path) && rows == old(rows) && settings == old(settings)
              else
                outcome == Saved && rows == map[] && settings == old(settings)[ModelsPathKey := path]
      ensures Valid()
    {
      var path := Strip(raw);
      if path == "" {
        return Rejected("Models path cannot be empty");
      }
      if !isDir(path) {
        return Rejected("Directory not found: " + path);
      }
      settings := settings[ModelsPathKey := path];
      rows := map[];
      outcome := Saved;
    }
  }
}
