/** The incremental scanner (`scan_models`) as a fold over the walked files.
    The filesystem, the fingerprint of each file and its header extraction
    are a snapshot given as input; the catalog method `Catalog.Scan` is
    proved to compute exactly `ScanOutcome` and `ScannedRows`. */
module Scanning {

  import opened Common
  import opened Strings
  import opened Config
  import opened Provenance
  import opened Records
  import Fingerprint
  import Header
  import Json

  /** What the per-file body learns about a file it could stat: the integral
      mtime and size, the fingerprint (`fast_model_id`) and the trigger and
      tags that header extraction would return. */
  datatype FileStat = FileStat(mtime: int, size: int, id: Id, trigger: Text, tags: Text)

  /** A file `os.walk` yields: its full path (`os.path.join(root, file)`), its
      bare name, and `None` when the per-file body raises (`os.stat` failing). */
  datatype WalkedFile = WalkedFile(path: string, fileName: string, stat: Option<FileStat>)

  /** The filesystem: for every existing folder, the files `os.walk` yields under it, in walk order. */
  type Tree = map<string, seq<WalkedFile>>

  /** The trigger as the `trigger_local` column stores it: `None` or a string.
      Any other JSON value is not representable here. */
  function StoredTrigger(t: Option<Json.Json>): Option<Text> {
    match t
    case None => Some(None)
    case Some(j) => if j.JStr? then Some(Some(j.s)) else None
  }

  /** A snapshot entry describes the file with this path and content: its id
      is `fast_model_id` of them, and its trigger and tags are what
      `extract_safetensors_metadata` returns for the content. */
  ghost predicate StatOfFile(st: FileStat, path: string, content: Option<seq<byte>>,
                             sha256Hex: seq<byte> -> string, md5Hex: string -> string,
                             decode: seq<byte> -> string, loads: string -> Option<Json.Json>)
  {
    var e := Header.SafetensorsMetadata(content, decode, loads);
    && st.id == Fingerprint.FastModelId(path, content, sha256Hex, md5Hex)
    && StoredTrigger(e.trigger) == Some(st.trigger)
    && st.tags == e.tags
  }

  /** Every readable entry of the snapshot describes the file `content` gives for its path. */
  ghost predicate FaithfulSnapshot(tree: Tree, content: string -> Option<seq<byte>>,
                                   sha256Hex: seq<byte> -> string, md5Hex: string -> string,
                                   decode: seq<byte> -> string, loads: string -> Option<Json.Json>)
  {
    forall folder, f :: folder in tree && f in tree[folder] && f.stat.Some? ==>
      StatOfFile(f.stat.value, f.path, content(f.path), sha256Hex, md5Hex, decode, loads)
  }

  /** A file that cannot be opened, or is too short to sample, is identified
      by its path; one with no readable length prefix has no trigger or tags. */
  lemma StatOfShortFile(st: FileStat, path: string, content: Option<seq<byte>>,
                        sha256Hex: seq<byte> -> string, md5Hex: string -> string,
                        decode: seq<byte> -> string, loads: string -> Option<Json.Json>)
    requires StatOfFile(st, path, content, sha256Hex, md5Hex, decode, loads)
    ensures content.None? || |content.value| < Fingerprint.SampleSize ==>
              st.id == Take(md5Hex(path), Fingerprint.IdLength)
    ensures content.None? || |content.value| < 8 ==> st.trigger == None && st.tags == None
  {
    Header.NoMetadataCases(content, decode, loads);
    if content.None? || |content.value| < Fingerprint.SampleSize {
      Fingerprint.SmallFileIdentifiedByPath(path, content, content, sha256Hex, md5Hex);
    }
  }

  /** A walked file together with the kind whose folder it was found under. */
  datatype Visit = Visit(kind: Kind, file: WalkedFile)

  /** The folder scanned for a kind. */
  function FolderOf(base: string, k: Kind): string {
    PathJoin(base, KindName(k))
  }

  function Tagged(k: Kind, files: seq<WalkedFile>): (r: seq<Visit>)
    ensures |r| == |files|
    ensures forall i :: 0 <= i < |files| ==> r[i] == Visit(k, files[i])
  {
    seq(|files|, i requires 0 <= i < |files| => Visit(k, files[i]))
  }

  /** The inner loops for one kind: each of its folders that exists, walked in turn. */
  function FoldersWalk(base: string, tree: Tree, k: Kind, folders: seq<string>): seq<Visit> {
    if folders == [] then []
    else
      var folder := PathJoin(base, folders[0]);
      (if folder in tree then Tagged(k, tree[folder]) else []) + FoldersWalk(base, tree, k, folders[1..])
  }

  function KindsWalk(base: string, tree: Tree, kinds: seq<Kind>): seq<Visit> {
    if kinds == [] then []
    else FoldersWalk(base, tree, kinds[0], Subfolders(kinds[0])) + KindsWalk(base, tree, kinds[1..])
  }

  /** Every file the nested loops visit, in order. */
  function Walk(base: string, tree: Tree): seq<Visit> {
    KindsWalk(base, tree, KindOrder)
  }

  lemma {:induction false} KindsWalkMembers(base: string, tree: Tree, kinds: seq<Kind>, k: Kind, f: WalkedFile)
    ensures Visit(k, f) in KindsWalk(base, tree, kinds) <==>
            k in kinds && FolderOf(base, k) in tree && f in tree[FolderOf(base, k)]
  {
    if kinds != [] {
      KindsWalkMembers(base, tree, kinds[1..], k, f);
      var head := FoldersWalk(base, tree, kinds[0], Subfolders(kinds[0]));
      var folder := FolderOf(base, kinds[0]);
      assert Subfolders(kinds[0]) == [KindName(kinds[0])] && [KindName(kinds[0])][1..] == [];
      assert head == (if folder in tree then Tagged(kinds[0], tree[folder]) else []) +
                     FoldersWalk(base, tree, kinds[0], []);
      if folder in tree {
        if Visit(k, f) in head {
          var i :| 0 <= i < |head| && head[i] == Visit(k, f);
          assert tree[folder][i] == f;
        }
        if k == kinds[0] && f in tree[folder] {
          var i :| 0 <= i < |tree[folder]| && tree[folder][i] == f;
          assert head[i] == Visit(k, f);
        }
      }
      assert k in kinds <==> k == kinds[0] || k in kinds[1..];
    }
  }

  /** Each kind is walked from its own folder and only from there: a file is
      visited as kind `k` exactly when it lies under `k`'s folder, which exists. */
  lemma WalkIsFolderByFolder(base: string, tree: Tree, k: Kind, f: WalkedFile)
    ensures Visit(k, f) in Walk(base, tree) <==> FolderOf(base, k) in tree && f in tree[FolderOf(base, k)]
  {
    KindsWalkMembers(base, tree, KindOrder, k, f);
    ExactlyFourKinds();
  }

  /** The state the loop body threads: the catalog, `scanned_paths` and `found_models`. */
  datatype Pass = Pass(rows: map<Id, Row>, scanned: set<string>, found: seq<ModelView>)

  /** The fast-path test: a row with this id exists, no forced rescan, same mtime. */
  predicate FastPath(rows: map<Id, Row>, st: FileStat, force: bool) {
    st.id in rows && !force && rows[st.id].mtime == st.mtime
  }

  /** The fast path's only write: `name_local` from the file stem when it is empty. */
  function Backfilled(row: Row, stem: string): Row {
    if Truthy(row.name.local) then row else row.(name := row.name.(local := Some(stem)))
  }

  /** The record the fast path emits: the stored tiers with the walked kind, path and size. */
  function FastPathView(id: Id, row: Row, v: Visit, st: FileStat): ModelView {
    ModelView(id, v.kind, row.name.Effective(), v.file.path, st.size, row.hash, st.mtime,
              row.trigger.Effective(), row.tags.Effective(),
              row.name.local, row.name.remote, row.info, row.checkedAt,
              row.trigger.local, row.trigger.remote, row.tags.local, row.tags.remote)
  }

  /** The remote tier the slow path carries over from the existing row, if any. */
  function Carried(existing: Option<Row>): RemoteTier {
    if existing.Some? then RemoteOf(existing.value) else NoRemote
  }

  function CarriedHash(existing: Option<Row>): Text {
    if existing.Some? then existing.value.hash else None
  }

  /** The row the slow path writes with INSERT OR REPLACE. Its legacy columns
      come from the two-argument merge, whose legacy value defaults to `None`. */
  function Rescanned(v: Visit, st: FileStat, existing: Option<Row>, now: int): Row {
    var remote := Carried(existing);
    var stem := Some(SplitExtRoot(v.file.fileName));
    Row(v.kind, v.file.path, st.size, CarriedHash(existing), st.mtime, now,
        Tiers(remote.name, stem, PickEffective(remote.name, stem, None)),
        Tiers(remote.trigger, st.trigger, PickEffective(remote.trigger, st.trigger, None)),
        Tiers(remote.tags, st.tags, PickEffective(remote.tags, st.tags, None)),
        remote.info, remote.checkedAt)
  }

  /** Rescanning a file against the row it just produced gives that row again:
      the row carries its own remote tier and hash. */
  lemma RescannedKeepsCarried(v: Visit, st: FileStat, existing: Option<Row>, now: int)
    ensures var row := Rescanned(v, st, existing, now);
            Rescanned(v, st, Some(row), now) == row
  {
  }

  /** The record the slow path emits, built from the same values as the row. */
  function SlowPathView(id: Id, v: Visit, st: FileStat, existing: Option<Row>): ModelView {
    var remote := Carried(existing);
    var stem := Some(SplitExtRoot(v.file.fileName));
    ModelView(id, v.kind, PickEffective(remote.name, stem, None), v.file.path, st.size,
              CarriedHash(existing), st.mtime,
              PickEffective(remote.trigger, st.trigger, None), PickEffective(remote.tags, st.tags, None),
              stem, remote.name, remote.info, remote.checkedAt,
              st.trigger, remote.trigger, st.tags, remote.tags)
  }

  /** The loop body for one walked file. */
  function Step(p: Pass, v: Visit, force: bool, now: int): Pass {
    if !HasModelExtension(v.file.fileName) then p
    else
      var scanned := p.scanned + {v.file.path};
      match v.file.stat
      case None => p.(scanned := scanned)
      case Some(st) =>
        if FastPath(p.rows, st, force) then
          var row := Backfilled(p.rows[st.id], SplitExtRoot(v.file.fileName));
          Pass(p.rows[st.id := row], scanned, p.found + [FastPathView(st.id, row, v, st)])
        else
          var existing := if st.id in p.rows then Some(p.rows[st.id]) else None;
          Pass(Upsert(p.rows, st.id, Rescanned(v, st, existing, now)), scanned,
               p.found + [SlowPathView(st.id, v, st, existing)])
  }

  /** The loop over a sequence of visits, one `Step` after another. */
  function Steps(p: Pass, vs: seq<Visit>, force: bool, now: int): Pass
    decreases |vs|
  {
    if vs == [] then p
    else Step(Steps(p, vs[..|vs| - 1], force, now), vs[|vs| - 1], force, now)
  }

  /** The prune: every row whose path was not walked is deleted. */
  function Prune(rows: map<Id, Row>, scanned: set<string>): (r: map<Id, Row>)
    ensures forall id :: id in r <==> id in rows && rows[id].path in scanned
    ensures forall id :: id in r ==> r[id] == rows[id]
  {
    map id | id in rows && rows[id].path in scanned :: rows[id]
  }

  lemma PruneKeepsPathsUnique(rows: map<Id, Row>, scanned: set<string>)
    requires PathsUnique(rows)
    ensures PathsUnique(Prune(rows, scanned))
  {
  }

  function ScanOutcome(rows: map<Id, Row>, base: string, tree: Tree, force: bool, now: int): Pass {
    Steps(Pass(rows, {}, []), Walk(base, tree), force, now)
  }

  /** The catalog after `scan_models` commits. */
  function ScannedRows(rows: map<Id, Row>, base: string, tree: Tree, force: bool, now: int): map<Id, Row> {
    var q := ScanOutcome(rows, base, tree, force, now);
    Prune(q.rows, q.scanned)
  }

  /** The recognized paths among the visits: what `scanned_paths` collects. */
  function ModelPaths(vs: seq<Visit>): set<string> {
    set i | 0 <= i < |vs| && HasModelExtension(vs[i].file.fileName) :: vs[i].file.path
  }

  // ---------------------------------------------------------------------------
  // Single steps
  // ---------------------------------------------------------------------------

  /** A step keeps paths unique: the fast path keeps the row's path, and
      the slow path's upsert replaces any row at the same path. */
  lemma StepKeepsPathsUnique(p: Pass, v: Visit, force: bool, now: int)
    requires PathsUnique(p.rows)
    ensures PathsUnique(Step(p, v, force, now).rows)
  {
    if HasModelExtension(v.file.fileName) && v.file.stat.Some? {
      var st := v.file.stat.value;
      if FastPath(p.rows, st, force) {
        assert Backfilled(p.rows[st.id], SplitExtRoot(v.file.fileName)).path == p.rows[st.id].path;
      } else {
        var existing := if st.id in p.rows then Some(p.rows[st.id]) else None;
        UpsertKeepsPathsUnique(p.rows, st.id, Rescanned(v, st, existing, now));
      }
    }
  }

  /** What the fast path emits is what a listing of its row would show, once the
      walked kind, path and size are put in. */
  lemma FastPathViewIsListedView(id: Id, row: Row, v: Visit, st: FileStat)
    requires row.mtime == st.mtime
    ensures FastPathView(id, row, v, st) == ViewOf(id, row.(kind := v.kind, path := v.file.path, size := st.size))
  {
  }

  /** What the slow path emits is exactly what a listing shows for the row it wrote. */
  lemma SlowPathViewIsListedView(id: Id, v: Visit, st: FileStat, existing: Option<Row>, now: int)
    ensures SlowPathView(id, v, st, existing) == ViewOf(id, Rescanned(v, st, existing, now))
  {
    var r := Rescanned(v, st, existing, now);
    var remote := Carried(existing);
    var stem := Some(SplitExtRoot(v.file.fileName));
    MergeStableUnderLegacySync(remote.name, stem, None);
    MergeStableUnderLegacySync(remote.trigger, st.trigger, None);
    MergeStableUnderLegacySync(remote.tags, st.tags, None);
  }

  /** Fast path: no extraction runs (the result does not depend on what it
      would return), the stored tiers, hash, path and kind are reused, and
      the only change is `name_local` backfilled from the stem when empty. */
  lemma FastPathReusesStoredRow(p: Pass, v: Visit, force: bool, now: int, otherTrigger: Text, otherTags: Text)
    requires HasModelExtension(v.file.fileName) && v.file.stat.Some?
    requires FastPath(p.rows, v.file.stat.value, force)
    ensures var st := v.file.stat.value;
            var old_ := p.rows[st.id];
            var q := Step(p, v, force, now);
            var other := Visit(v.kind, v.file.(stat := Some(st.(trigger := otherTrigger, tags := otherTags))));
            && Step(p, other, force, now) == q
            && q.rows.Keys == p.rows.Keys
            && (forall k :: k in p.rows && k != st.id ==> q.rows[k] == p.rows[k])
            && q.rows[st.id] == old_.(name := old_.name.(local :=
                 if Truthy(old_.name.local) then old_.name.local else Some(SplitExtRoot(v.file.fileName))))
            && q.found == p.found + [ViewOf(st.id, q.rows[st.id].(kind := v.kind, path := v.file.path, size := st.size))]
  {
    var st := v.file.stat.value;
    FastPathViewIsListedView(st.id, Backfilled(p.rows[st.id], SplitExtRoot(v.file.fileName)), v, st);
  }

  /** Slow path: the local tiers come from the file (stem and extraction),
      the remote tier and the hash of an existing row are carried over
      unchanged, the legacy columns hold the effective values, and apart
      from the row at the same path no other row is touched. */
  lemma SlowPathRefreshesLocalKeepsRemote(p: Pass, v: Visit, force: bool, now: int)
    requires HasModelExtension(v.file.fileName) && v.file.stat.Some?
    requires !FastPath(p.rows, v.file.stat.value, force)
    ensures var st := v.file.stat.value;
            var q := Step(p, v, force, now);
            var r := q.rows[st.id];
            && st.id in q.rows
            && LocalOf(r) == LocalTier(Some(SplitExtRoot(v.file.fileName)), st.trigger, st.tags)
            && RemoteOf(r) == (if st.id in p.rows then RemoteOf(p.rows[st.id]) else NoRemote)
            && r.hash == (if st.id in p.rows then p.rows[st.id].hash else None)
            && r.kind == v.kind && r.path == v.file.path && r.size == st.size && r.mtime == st.mtime && r.scannedAt == now
            && r.name.legacy == r.name.Effective() && r.trigger.legacy == r.trigger.Effective()
            && r.tags.legacy == r.tags.Effective()
            && (forall k :: k in q.rows && k != st.id ==> k in p.rows && q.rows[k] == p.rows[k])
            && (forall k :: k in p.rows && k != st.id && p.rows[k].path != v.file.path ==> k in q.rows)
            && q.found == p.found + [ViewOf(st.id, r)]
  {
    var st := v.file.stat.value;
    var existing := if st.id in p.rows then Some(p.rows[st.id]) else None;
    var r := Rescanned(v, st, existing, now);
    SlowPathViewIsListedView(st.id, v, st, existing, now);
    MergeStableUnderLegacySync(r.name.remote, r.name.local, None);
    MergeStableUnderLegacySync(r.trigger.remote, r.trigger.local, None);
    MergeStableUnderLegacySync(r.tags.remote, r.tags.local, None);
  }

  // ---------------------------------------------------------------------------
  // Whole scans
  // ---------------------------------------------------------------------------

  /** `scanned_paths` ends up holding exactly the recognized paths walked, whether
      or not their processing raised. */
  lemma {:induction false} StepsScanned(p: Pass, vs: seq<Visit>, force: bool, now: int)
    ensures Steps(p, vs, force, now).scanned == p.scanned + ModelPaths(vs)
  {
    if vs != [] {
      var init := vs[..|vs| - 1];
      var last := vs[|vs| - 1];
      StepsScanned(p, init, force, now);
      forall x ensures x in ModelPaths(vs) <==> x in ModelPaths(init) ||
                                                (HasModelExtension(last.file.fileName) && x == last.file.path) {
        if x in ModelPaths(vs) {
          var i :| 0 <= i < |vs| && HasModelExtension(vs[i].file.fileName) && vs[i].file.path == x;
          if i < |vs| - 1 {
            assert init[i] == vs[i];
          }
        }
        if x in ModelPaths(init) {
          var i :| 0 <= i < |init| && HasModelExtension(init[i].file.fileName) && init[i].file.path == x;
          assert vs[i] == init[i];
        }
      }
    }
  }

  /** After a scan the catalog holds exactly the rows the loop left whose
      path is a recognized path that was walked: every row's path was walked,
      and no row at a walked path (even one whose processing raised) is pruned. */
  lemma ScanKeepsExactlyWalkedPaths(rows: map<Id, Row>, base: string, tree: Tree, force: bool, now: int)
    ensures var q := ScanOutcome(rows, base, tree, force, now);
            var r := ScannedRows(rows, base, tree, force, now);
            forall id :: id in r <==> id in q.rows && q.rows[id].path in ModelPaths(Walk(base, tree))
  {
    StepsScanned(Pass(rows, {}, []), Walk(base, tree), force, now);
  }

  /** A row no successful visit names, by id or by path, passes through the loop unchanged. */
  lemma {:induction false} UntouchedRowKept(p: Pass, vs: seq<Visit>, force: bool, now: int, id: Id)
    requires id in p.rows
    requires forall i :: 0 <= i < |vs| && vs[i].file.stat.Some? ==>
               vs[i].file.stat.value.id != id && vs[i].file.path != p.rows[id].path
    ensures id in Steps(p, vs, force, now).rows && Steps(p, vs, force, now).rows[id] == p.rows[id]
  {
    if vs != [] {
      UntouchedRowKept(p, vs[..|vs| - 1], force, now, id);
    }
  }

  /** A file whose processing raised keeps the row stored for its path, as
      long as no other walked file claims that row's id or path. */
  lemma FailedFileKeepsItsRow(rows: map<Id, Row>, vs: seq<Visit>, force: bool, now: int, i: nat, id: Id)
    requires i < |vs| && HasModelExtension(vs[i].file.fileName) && vs[i].file.stat.None?
    requires id in rows && rows[id].path == vs[i].file.path
    requires forall j :: 0 <= j < |vs| && vs[j].file.stat.Some? ==>
               vs[j].file.stat.value.id != id && vs[j].file.path != rows[id].path
    ensures var q := Steps(Pass(rows, {}, []), vs, force, now);
            id in Prune(q.rows, q.scanned) && Prune(q.rows, q.scanned)[id] == rows[id]
  {
    UntouchedRowKept(Pass(rows, {}, []), vs, force, now, id);
    StepsScanned(Pass(rows, {}, []), vs, force, now);
    assert vs[i].file.path in ModelPaths(vs);
  }

  /** The remote tier and hash of a row are either carried from the row the
      catalog held under the same id before the scan, or empty. */
  ghost predicate CarriedOrEmpty(rows0: map<Id, Row>, rows: map<Id, Row>) {
    forall id :: id in rows ==>
      (RemoteOf(rows[id]) == NoRemote && rows[id].hash == None) ||
      (id in rows0 && RemoteOf(rows[id]) == RemoteOf(rows0[id]) && rows[id].hash == rows0[id].hash)
  }

  lemma StepCarriesRemote(rows0: map<Id, Row>, p: Pass, v: Visit, force: bool, now: int)
    requires CarriedOrEmpty(rows0, p.rows)
    ensures CarriedOrEmpty(rows0, Step(p, v, force, now).rows)
  {
    if HasModelExtension(v.file.fileName) && v.file.stat.Some? {
      var st := v.file.stat.value;
      if FastPath(p.rows, st, force) {
        var row := Backfilled(p.rows[st.id], SplitExtRoot(v.file.fileName));
        assert RemoteOf(row) == RemoteOf(p.rows[st.id]) && row.hash == p.rows[st.id].hash;
      } else {
        var existing := if st.id in p.rows then Some(p.rows[st.id]) else None;
        var row := Rescanned(v, st, existing, now);
        assert RemoteOf(row) == Carried(existing) && row.hash == CarriedHash(existing);
      }
    }
  }

  lemma {:induction false} StepsCarryRemote(rows0: map<Id, Row>, p: Pass, vs: seq<Visit>, force: bool, now: int)
    requires CarriedOrEmpty(rows0, p.rows)
    ensures CarriedOrEmpty(rows0, Steps(p, vs, force, now).rows)
  {
    if vs != [] {
      StepsCarryRemote(rows0, p, vs[..|vs| - 1], force, now);
      StepCarriesRemote(rows0, Steps(p, vs[..|vs| - 1], force, now), vs[|vs| - 1], force, now);
    }
  }

  /** A scan never writes remote metadata or hashes: each row keeps what the
      catalog held for its id, or has none. */
  lemma ScanNeverWritesRemote(rows: map<Id, Row>, base: string, tree: Tree, force: bool, now: int)
    ensures CarriedOrEmpty(rows, ScannedRows(rows, base, tree, force, now))
  {
    StepsCarryRemote(rows, Pass(rows, {}, []), Walk(base, tree), force, now);
  }

  /** A consistent snapshot: two readable entries of the walk with the same
      path have the same id (one file, one fingerprint). */
  ghost predicate PathDeterminesId(vs: seq<Visit>) {
    forall a, b :: a in vs && b in vs && a.file.stat.Some? && b.file.stat.Some? && a.file.path == b.file.path ==>
      a.file.stat.value.id == b.file.stat.value.id
  }

  /** Every readable entry of the walk at `path` has id `x`. */
  ghost predicate OnlyIdAt(vs: seq<Visit>, x: Id, path: string) {
    forall v :: v in vs && v.file.stat.Some? && v.file.path == path ==> v.file.stat.value.id == x
  }

  /** Row `x` is still catalogued, with the remote tier and hash it had in
      `rows0`, at its old path or a walked one that only `x` is read at. */
  ghost predicate KeepsRemote(rows0: map<Id, Row>, x: Id, vs: seq<Visit>, rows: map<Id, Row>) {
    && x in rows0 && x in rows
    && RemoteOf(rows[x]) == RemoteOf(rows0[x]) && rows[x].hash == rows0[x].hash
    && OnlyIdAt(vs, x, rows[x].path)
    && (rows[x].path == rows0[x].path || rows[x].path in ModelPaths(vs))
  }

  lemma InModelPaths(vs: seq<Visit>, v: Visit)
    requires v in vs && HasModelExtension(v.file.fileName)
    ensures v.file.path in ModelPaths(vs)
  {
    var i :| 0 <= i < |vs| && vs[i] == v;
  }

  /** One step, forced or not, keeps row `x` with its remote tier and hash:
      a file read with id `x` rewrites only the local tier, and any other
      file lies at another path. */
  lemma RescanStepKeepsRemote(rows0: map<Id, Row>, x: Id, vs: seq<Visit>, j: nat, p: Pass, force: bool, now: int)
    requires j < |vs| && PathDeterminesId(vs) && KeepsRemote(rows0, x, vs, p.rows)
    ensures KeepsRemote(rows0, x, vs, Step(p, vs[j], force, now).rows)
  {
    var v := vs[j];
    if HasModelExtension(v.file.fileName) && v.file.stat.Some? {
      var st := v.file.stat.value;
      if st.id == x && !FastPath(p.rows, st, force) {
        InModelPaths(vs, v);
      } else if st.id != x {
        assert v.file.path != p.rows[x].path;
      }
    }
  }

  lemma {:induction false} RescanStepsKeepRemote(rows0: map<Id, Row>, x: Id, vs: seq<Visit>, n: nat, force: bool, now: int)
    requires n <= |vs| && PathDeterminesId(vs) && KeepsRemote(rows0, x, vs, rows0)
    ensures KeepsRemote(rows0, x, vs, Steps(Pass(rows0, {}, []), vs[..n], force, now).rows)
  {
    if n > 0 {
      RescanStepsKeepRemote(rows0, x, vs, n - 1, force, now);
      assert vs[..n][..n - 1] == vs[..n - 1] && vs[..n][n - 1] == vs[n - 1];
      RescanStepKeepsRemote(rows0, x, vs, n - 1, Steps(Pass(rows0, {}, []), vs[..n - 1], force, now), force, now);
    }
  }

  /** A rescan, forced or not, keeps the remote metadata and hash of a row
      whose file is still walked: every readable file at its path has its id. */
  lemma RescanKeepsRemoteMetadata(rows: map<Id, Row>, base: string, tree: Tree, force: bool, now: int, x: Id)
    requires x in rows && rows[x].path in ModelPaths(Walk(base, tree))
    requires PathDeterminesId(Walk(base, tree)) && OnlyIdAt(Walk(base, tree), x, rows[x].path)
    ensures var r := ScannedRows(rows, base, tree, force, now);
            x in r && RemoteOf(r[x]) == RemoteOf(rows[x]) && r[x].hash == rows[x].hash
  {
    var vs := Walk(base, tree);
    RescanStepsKeepRemote(rows, x, vs, |vs|, force, now);
    assert vs[..|vs|] == vs;
    StepsScanned(Pass(rows, {}, []), vs, force, now);
  }

  // ---------------------------------------------------------------------------
  // Forced rescans
  // ---------------------------------------------------------------------------

  /** The loop body gets past the stat call and writes a row. */
  predicate Readable(v: Visit) {
    HasModelExtension(v.file.fileName) && v.file.stat.Some?
  }

  /** The last readable entry of the walk with id `z`. */
  function LastRead(vs: seq<Visit>, z: Id): (r: Option<Visit>)
    ensures r.Some? ==> r.value in vs && Readable(r.value) && r.value.file.stat.value.id == z
    decreases |vs|
  {
    if vs == [] then None
    else
      var v := vs[|vs| - 1];
      if Readable(v) && v.file.stat.value.id == z then Some(v) else LastRead(vs[..|vs| - 1], z)
  }

  /** Some readable entry of the walk lies at `path`. */
  predicate ReadAt(vs: seq<Visit>, path: string)
    decreases |vs|
  {
    vs != [] && ((Readable(vs[|vs| - 1]) && vs[|vs| - 1].file.path == path) || ReadAt(vs[..|vs| - 1], path))
  }

  /** The catalog during a forced scan from `rows0`: an id read so far is
      stored as its last file rescanned, keeping its own remote tier and
      hash; any other row is an untouched old row that no readable file has
      displaced. */
  ghost predicate ForcedPass(rows0: map<Id, Row>, vs: seq<Visit>, rows: map<Id, Row>, now: int) {
    && (forall z :: z in rows <==> LastRead(vs, z).Some? || (z in rows0 && !ReadAt(vs, rows0[z].path)))
    && (forall z :: z in rows && LastRead(vs, z).Some? ==>
          rows[z] == Rescanned(LastRead(vs, z).value, LastRead(vs, z).value.file.stat.value, Some(rows[z]), now))
    && (forall z :: z in rows && LastRead(vs, z).None? ==> rows[z] == rows0[z])
  }

  lemma LastReadSnoc(ws: seq<Visit>, v: Visit, z: Id)
    ensures LastRead(ws + [v], z) == if Readable(v) && v.file.stat.value.id == z then Some(v) else LastRead(ws, z)
  {
    assert (ws + [v])[..|ws|] == ws;
  }

  lemma ReadAtSnoc(ws: seq<Visit>, v: Visit, path: string)
    ensures ReadAt(ws + [v], path) <==> (Readable(v) && v.file.path == path) || ReadAt(ws, path)
  {
    assert (ws + [v])[..|ws|] == ws;
  }

  /** A file the body skips changes neither the catalog nor what was read. */
  lemma ForcedSkipStep(rows0: map<Id, Row>, ws: seq<Visit>, v: Visit, rows: map<Id, Row>, now: int)
    requires !Readable(v) && ForcedPass(rows0, ws, rows, now)
    ensures ForcedPass(rows0, ws + [v], rows, now)
  {
    forall z ensures LastRead(ws + [v], z) == LastRead(ws, z) {
      LastReadSnoc(ws, v, z);
    }
    forall path ensures ReadAt(ws + [v], path) == ReadAt(ws, path) {
      ReadAtSnoc(ws, v, path);
    }
  }

  /** A readable file is upserted under its id; the ids read so far and the
      old rows nothing displaced are exactly the keys afterwards, since a row
      at the file's path holds its id or was not read. */
  lemma ForcedReadKeys(rows0: map<Id, Row>, ws: seq<Visit>, v: Visit, rows: map<Id, Row>, now: int)
    requires Readable(v) && PathDeterminesId(ws + [v]) && ForcedPass(rows0, ws, rows, now)
    ensures var st := v.file.stat.value;
            var existing := if st.id in rows then Some(rows[st.id]) else None;
            var q := Upsert(rows, st.id, Rescanned(v, st, existing, now));
            forall z :: z in q <==> LastRead(ws + [v], z).Some? || (z in rows0 && !ReadAt(ws + [v], rows0[z].path))
  {
    var vs := ws + [v];
    var st := v.file.stat.value;
    var existing := if st.id in rows then Some(rows[st.id]) else None;
    var q := Upsert(rows, st.id, Rescanned(v, st, existing, now));
    forall z ensures LastRead(vs, z) == if st.id == z then Some(v) else LastRead(ws, z) {
      LastReadSnoc(ws, v, z);
    }
    forall path ensures ReadAt(vs, path) <==> v.file.path == path || ReadAt(ws, path) {
      ReadAtSnoc(ws, v, path);
    }
    forall z | z != st.id && LastRead(ws, z).Some?
      ensures z in rows && rows[z].path != v.file.path
    {
      assert LastRead(ws, z).value in vs;
    }
  }

  /** After a readable file is upserted, each row read so far is its last
      file rescanned and every other row is the old row. */
  lemma ForcedReadValues(rows0: map<Id, Row>, ws: seq<Visit>, v: Visit, rows: map<Id, Row>, now: int)
    requires Readable(v) && ForcedPass(rows0, ws, rows, now)
    ensures var st := v.file.stat.value;
            var existing := if st.id in rows then Some(rows[st.id]) else None;
            var q := Upsert(rows, st.id, Rescanned(v, st, existing, now));
            && (forall z :: z in q && LastRead(ws + [v], z).Some? ==>
                  q[z] == Rescanned(LastRead(ws + [v], z).value, LastRead(ws + [v], z).value.file.stat.value, Some(q[z]), now))
            && (forall z :: z in q && LastRead(ws + [v], z).None? ==> q[z] == rows0[z])
  {
    var vs := ws + [v];
    var st := v.file.stat.value;
    var existing := if st.id in rows then Some(rows[st.id]) else None;
    var row := Rescanned(v, st, existing, now);
    var q := Upsert(rows, st.id, row);
    RescannedKeepsCarried(v, st, existing, now);
    forall z | z in q && LastRead(vs, z).Some?
      ensures q[z] == Rescanned(LastRead(vs, z).value, LastRead(vs, z).value.file.stat.value, Some(q[z]), now)
    {
      LastReadSnoc(ws, v, z);
      if z != st.id {
        assert q[z] == rows[z] && LastRead(vs, z) == LastRead(ws, z);
      }
    }
    forall z | z in q && LastRead(vs, z).None?
      ensures q[z] == rows0[z]
    {
      LastReadSnoc(ws, v, z);
      assert z != st.id && q[z] == rows[z];
    }
  }

  /** A readable file is upserted under its id; rows it does not name stay,
      except one at its path, which no other readable file can hold. */
  lemma ForcedReadStep(rows0: map<Id, Row>, ws: seq<Visit>, v: Visit, rows: map<Id, Row>, now: int)
    requires Readable(v) && PathDeterminesId(ws + [v]) && ForcedPass(rows0, ws, rows, now)
    ensures var st := v.file.stat.value;
            var existing := if st.id in rows then Some(rows[st.id]) else None;
            ForcedPass(rows0, ws + [v], Upsert(rows, st.id, Rescanned(v, st, existing, now)), now)
  {
    ForcedReadKeys(rows0, ws, v, rows, now);
    ForcedReadValues(rows0, ws, v, rows, now);
  }

  lemma {:induction false} ForcedSteps(rows0: map<Id, Row>, vs: seq<Visit>, now: int)
    requires PathDeterminesId(vs)
    ensures ForcedPass(rows0, vs, Steps(Pass(rows0, {}, []), vs, true, now).rows, now)
    decreases |vs|
  {
    if vs != [] {
      var ws := vs[..|vs| - 1];
      assert vs == ws + [vs[|vs| - 1]];
      assert forall a :: a in ws ==> a in vs;
      ForcedSteps(rows0, ws, now);
      var v := vs[|vs| - 1];
      var p := Steps(Pass(rows0, {}, []), ws, true, now);
      if Readable(v) {
        ForcedReadStep(rows0, ws, v, p.rows, now);
      } else {
        ForcedSkipStep(rows0, ws, v, p.rows, now);
      }
    }
  }

  /** Under a forced rescan a row with a readable file is rebuilt from its
      last file and keeps its remote tier and hash, so a second forced scan
      rebuilds it identically up to the scan time. */
  lemma RescanReadRowAgain(rows: map<Id, Row>, base: string, tree: Tree, now1: int, now2: int, z: Id)
    requires PathDeterminesId(Walk(base, tree)) && LastRead(Walk(base, tree), z).Some?
    ensures var r1 := ScannedRows(rows, base, tree, true, now1);
            var r2 := ScannedRows(r1, base, tree, true, now2);
            z in r1 && z in r2 && r2[z] == r1[z].(scannedAt := now2)
  {
    var vs := Walk(base, tree);
    var lv := LastRead(vs, z).value;
    var st := lv.file.stat.value;
    var q1 := ScanOutcome(rows, base, tree, true, now1);
    var r1 := ScannedRows(rows, base, tree, true, now1);
    var q2 := ScanOutcome(r1, base, tree, true, now2);
    var r2 := ScannedRows(r1, base, tree, true, now2);
    ForcedSteps(rows, vs, now1);
    ForcedSteps(r1, vs, now2);
    StepsScanned(Pass(rows, {}, []), vs, true, now1);
    StepsScanned(Pass(r1, {}, []), vs, true, now2);
    InModelPaths(vs, lv);
    assert z in r1 && r1[z] == Rescanned(lv, st, Some(r1[z]), now1);
    RescanKeepsRemoteMetadata(r1, base, tree, true, now2, z);
    assert r2[z] == Rescanned(lv, st, Some(r2[z]), now2);
  }

  /** A row no readable file has is left alone by both forced scans. */
  lemma RescanUnreadRowAgain(rows: map<Id, Row>, base: string, tree: Tree, now1: int, now2: int, z: Id)
    requires PathDeterminesId(Walk(base, tree)) && LastRead(Walk(base, tree), z).None?
    ensures var r1 := ScannedRows(rows, base, tree, true, now1);
            var r2 := ScannedRows(r1, base, tree, true, now2);
            (z in r2 <==> z in r1) && (z in r1 ==> r2[z] == r1[z])
  {
    var vs := Walk(base, tree);
    var r1 := ScannedRows(rows, base, tree, true, now1);
    ForcedSteps(rows, vs, now1);
    ForcedSteps(r1, vs, now2);
    StepsScanned(Pass(rows, {}, []), vs, true, now1);
    StepsScanned(Pass(r1, {}, []), vs, true, now2);
    if z in r1 {
      assert z in rows && r1[z] == rows[z] && !ReadAt(vs, rows[z].path);
    }
  }

  /** Idempotent rescan: a second forced scan of an unchanged file system
      keeps the same rows at the same paths with the same fields, and so the
      same records; only scan times move. */
  lemma ForcedRescanIsIdempotent(rows: map<Id, Row>, base: string, tree: Tree, now1: int, now2: int)
    requires PathDeterminesId(Walk(base, tree))
    ensures var r1 := ScannedRows(rows, base, tree, true, now1);
            var r2 := ScannedRows(r1, base, tree, true, now2);
            && r2.Keys == r1.Keys
            && forall z :: z in r1 ==> r2[z] == r1[z].(scannedAt := r2[z].scannedAt) && ViewOf(z, r2[z]) == ViewOf(z, r1[z])
  {
    var r1 := ScannedRows(rows, base, tree, true, now1);
    var r2 := ScannedRows(r1, base, tree, true, now2);
    forall z | z in r1 || z in r2
      ensures z in r1 && z in r2 && r2[z] == r1[z].(scannedAt := r2[z].scannedAt)
    {
      if LastRead(Walk(base, tree), z).Some? {
        RescanReadRowAgain(rows, base, tree, now1, now2, z);
      } else {
        RescanUnreadRowAgain(rows, base, tree, now1, now2, z);
      }
    }
  }

  /** Every file could be read, and ids and paths are pairwise different. */
  ghost predicate DistinctFiles(vs: seq<Visit>) {
    && (forall i :: 0 <= i < |vs| ==> vs[i].file.stat.Some?)
    && (forall i, j :: 0 <= i < j < |vs| ==>
          vs[i].file.stat.value.id != vs[j].file.stat.value.id && vs[i].file.path != vs[j].file.path)
  }

  /** Every file is a recognized model file that got through the body, with
      pairwise different ids and paths. */
  ghost predicate DistinctReadableFiles(vs: seq<Visit>) {
    && (forall v :: v in vs ==> HasModelExtension(v.file.fileName))
    && DistinctFiles(vs)
  }

  /** A readable file whose id and path the catalog does not hold yet is
      inserted as a new row and reported as a listing would show it. */
  lemma FreshStep(p: Pass, v: Visit, force: bool, now: int)
    requires HasModelExtension(v.file.fileName) && v.file.stat.Some?
    requires v.file.stat.value.id !in p.rows
    requires forall k :: k in p.rows ==> p.rows[k].path != v.file.path
    ensures var st := v.file.stat.value;
            var row := Rescanned(v, st, None, now);
            && Step(p, v, force, now).rows == p.rows[st.id := row]
            && Step(p, v, force, now).found == p.found + [ViewOf(st.id, row)]
  {
    var st := v.file.stat.value;
    SlowPathViewIsListedView(st.id, v, st, None, now);
  }

  /** Reference definition of a first scan's catalog: each readable file's
      slow-path row, under its id. */
  function FreshRows(vs: seq<Visit>, now: int): map<Id, Row>
    requires forall i :: 0 <= i < |vs| ==> vs[i].file.stat.Some?
  {
    if vs == [] then map[]
    else
      var v := vs[|vs| - 1];
      FreshRows(vs[..|vs| - 1], now)[v.file.stat.value.id := Rescanned(v, v.file.stat.value, None, now)]
  }

  /** Every row of `FreshRows` comes from a file with that id, at that file's path. */
  lemma {:induction false} FreshRowsFromFiles(vs: seq<Visit>, now: int)
    requires forall i :: 0 <= i < |vs| ==> vs[i].file.stat.Some?
    ensures forall k :: k in FreshRows(vs, now) ==>
              exists i :: 0 <= i < |vs| && k == vs[i].file.stat.value.id && FreshRows(vs, now)[k].path == vs[i].file.path
  {
    if vs != [] {
      var m := |vs| - 1;
      var init := vs[..m];
      assert forall i :: 0 <= i < m ==> init[i] == vs[i];
      FreshRowsFromFiles(init, now);
    }
  }

  /** With distinct ids, `FreshRows` holds one row per file. */
  lemma {:induction false} FreshRowsCount(vs: seq<Visit>, now: int)
    requires DistinctFiles(vs)
    ensures |FreshRows(vs, now)| == |vs|
  {
    if vs != [] {
      var m := |vs| - 1;
      var init := vs[..m];
      var st := vs[m].file.stat.value;
      assert DistinctFiles(init);
      FreshRowsCount(init, now);
      FreshRowsFromFiles(init, now);
      var r := FreshRows(init, now);
      forall k | k in r ensures k != st.id {
        var i :| 0 <= i < m && k == init[i].file.stat.value.id;
        assert init[i] == vs[i];
      }
    }
  }

  /** With distinct ids, each file's row in `FreshRows` has its kind and path. */
  lemma {:induction false} FreshRowsAt(vs: seq<Visit>, now: int)
    requires DistinctFiles(vs)
    ensures forall i :: 0 <= i < |vs| ==>
              var id := vs[i].file.stat.value.id;
              id in FreshRows(vs, now) && FreshRows(vs, now)[id].kind == vs[i].kind &&
              FreshRows(vs, now)[id].path == vs[i].file.path
  {
    if vs != [] {
      var m := |vs| - 1;
      var init := vs[..m];
      var st := vs[m].file.stat.value;
      assert DistinctFiles(init);
      FreshRowsAt(init, now);
      forall i | 0 <= i < |vs|
        ensures var id := vs[i].file.stat.value.id;
                id in FreshRows(vs, now) && FreshRows(vs, now)[id].kind == vs[i].kind &&
                FreshRows(vs, now)[id].path == vs[i].file.path
      {
        if i < m {
          assert init[i] == vs[i];
          assert vs[i].file.stat.value.id != st.id;
        }
      }
    }
  }

  lemma {:induction false} FreshStepsAreFreshRows(vs: seq<Visit>, force: bool, now: int)
    requires DistinctReadableFiles(vs)
    ensures Steps(Pass(map[], {}, []), vs, force, now).rows == FreshRows(vs, now)
    ensures |Steps(Pass(map[], {}, []), vs, force, now).found| == |vs|
  {
    if vs != [] {
      var init := vs[..|vs| - 1];
      assert DistinctFiles(init);
      assert forall w :: w in init ==> w in vs;
      FreshStepsAreFreshRows(init, force, now);
      FreshStepAfter(vs, force, now);
    }
  }

  /** The last file of a first scan adds its own row to those of the files before it. */
  lemma FreshStepAfter(vs: seq<Visit>, force: bool, now: int)
    requires vs != [] && DistinctFiles(vs) && HasModelExtension(vs[|vs| - 1].file.fileName)
    requires Steps(Pass(map[], {}, []), vs[..|vs| - 1], force, now).rows == FreshRows(vs[..|vs| - 1], now)
    ensures Steps(Pass(map[], {}, []), vs, force, now).rows == FreshRows(vs, now)
    ensures |Steps(Pass(map[], {}, []), vs, force, now).found| ==
            |Steps(Pass(map[], {}, []), vs[..|vs| - 1], force, now).found| + 1
  {
    var m := |vs| - 1;
    var init := vs[..m];
    var v := vs[m];
    FreshRowsFromFiles(init, now);
    var p := Steps(Pass(map[], {}, []), init, force, now);
    forall k | k in p.rows ensures p.rows[k].path != v.file.path && k != v.file.stat.value.id {
      var i :| 0 <= i < m && k == init[i].file.stat.value.id && p.rows[k].path == init[i].file.path;
    }
    FreshStep(p, v, force, now);
  }

  /** A first scan into an empty catalog writes one row per recognized file
      (when every file can be read and ids and paths are distinct), each of
      the kind whose folder it was found in and at its path, and returns one
      record per file. */
  lemma FreshScanOneRowPerFile(vs: seq<Visit>, force: bool, now: int)
    requires DistinctReadableFiles(vs)
    ensures var q := Steps(Pass(map[], {}, []), vs, force, now);
            var r := Prune(q.rows, q.scanned);
            && |r| == |vs| && |q.found| == |vs|
            && (forall i :: 0 <= i < |vs| ==>
                  var id := vs[i].file.stat.value.id;
                  id in r && r[id].kind == vs[i].kind && r[id].path == vs[i].file.path)
  {
    var q := Steps(Pass(map[], {}, []), vs, force, now);
    FreshStepsAreFreshRows(vs, force, now);
    FreshRowsCount(vs, now);
    FreshRowsAt(vs, now);
    FreshRowsFromFiles(vs, now);
    StepsScanned(Pass(map[], {}, []), vs, force, now);
    forall k | k in q.rows ensures q.rows[k].path in q.scanned {
      var i :| 0 <= i < |vs| && k == vs[i].file.stat.value.id && q.rows[k].path == vs[i].file.path;
    }
    PruneKeepsScannedRows(q.rows, q.scanned);
  }

  lemma PruneKeepsScannedRows(rows: map<Id, Row>, scanned: set<string>)
    requires forall k :: k in rows ==> rows[k].path in scanned
    ensures Prune(rows, scanned) == rows
  {
  }

  /** Every record carries the kind and the path of one of the visits. */
  ghost predicate FromVisits(found: seq<ModelView>, vs: seq<Visit>) {
    forall j :: 0 <= j < |found| ==>
      exists i :: 0 <= i < |vs| && found[j].kind == vs[i].kind && found[j].path == vs[i].file.path
  }

  /** Every emitted record carries the kind and the path of a visit that produced it. */
  lemma {:induction false} EmittedFromVisits(vs: seq<Visit>, rows: map<Id, Row>, force: bool, now: int)
    ensures FromVisits(Steps(Pass(rows, {}, []), vs, force, now).found, vs)
  {
    if vs != [] {
      var n := |vs| - 1;
      EmittedFromVisits(vs[..n], rows, force, now);
      var p := Steps(Pass(rows, {}, []), vs[..n], force, now);
      var q := Steps(Pass(rows, {}, []), vs, force, now);
      forall j | 0 <= j < |q.found|
        ensures exists i :: 0 <= i < |vs| && q.found[j].kind == vs[i].kind && q.found[j].path == vs[i].file.path
      {
        if j < |p.found| {
          assert q.found[j] == p.found[j];
          assert FromVisits(p.found, vs[..n]);
          var i :| 0 <= i < n && p.found[j].kind == vs[..n][i].kind && p.found[j].path == vs[..n][i].file.path;
          assert vs[..n][i] == vs[i];
        } else {
          assert q.found[j].kind == vs[n].kind && q.found[j].path == vs[n].file.path;
        }
      }
    }
  }

  /** A record's `type` is the kind whose folder its file was walked under. */
  lemma EmittedKindIsFolderKind(rows: map<Id, Row>, base: string, tree: Tree, force: bool, now: int)
    ensures var found := ScanOutcome(rows, base, tree, force, now).found;
            forall j :: 0 <= j < |found| ==>
              FolderOf(base, found[j].kind) in tree &&
              exists f :: f in tree[FolderOf(base, found[j].kind)] && f.path == found[j].path
  {
    var vs := Walk(base, tree);
    var found := ScanOutcome(rows, base, tree, force, now).found;
    EmittedFromVisits(vs, rows, force, now);
    assert found == Steps(Pass(rows, {}, []), vs, force, now).found;
    assert FromVisits(found, vs);
    forall j | 0 <= j < |found|
      ensures FolderOf(base, found[j].kind) in tree &&
              exists f :: f in tree[FolderOf(base, found[j].kind)] && f.path == found[j].path
    {
      var i :| 0 <= i < |vs| && found[j].kind == vs[i].kind && found[j].path == vs[i].file.path;
      assert vs[i] in vs;
      WalkIsFolderByFolder(base, tree, vs[i].kind, vs[i].file);
      assert vs[i] == Visit(vs[i].kind, vs[i].file);
    }
  }

  /** A file moved to another path without changing its content or mtime
      takes the fast path: it is reported at its new path, yet its row keeps
      the old path and the prune then deletes it. */
  lemma MovedUnchangedFileLeavesCatalog(rows: map<Id, Row>, v: Visit, now: int)
    requires HasModelExtension(v.file.fileName) && v.file.stat.Some?
    requires var st := v.file.stat.value;
             st.id in rows && rows[st.id].mtime == st.mtime && rows[st.id].path != v.file.path
    ensures var q := Steps(Pass(rows, {}, []), [v], false, now);
            var id := v.file.stat.value.id;
            && |q.found| == 1 && q.found[0].id == id && q.found[0].path == v.file.path
            && id !in Prune(q.rows, q.scanned)
  {
    assert [v][..0] == [];
  }
}
