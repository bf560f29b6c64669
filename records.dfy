/** The catalog's rows (the `mm_models` table) and the record a scan or a
    listing hands back for each of them. Each of name, trigger and tags is
    stored in three provenance tiers; the value shown is derived from them
    with the merge policy and is never stored on its own. */
module Records {

  import opened Common
  import opened Config
  import opened Provenance

  /** A model id: the cheap fingerprint, the table's primary key. */
  type Id = string

  /** One field in its three tiers: `*_civitai`, `*_local` and the legacy column. */
  datatype Tiers = Tiers(remote: Text, local: Text, legacy: Text)
  {
    /** The value shown to a reader. */
    function Effective(): Text {
      PickEffective(remote, local, legacy)
    }
  }

  /** The remote-only descriptive columns. */
  datatype RemoteInfo = RemoteInfo(
    version: Text,     // version_civitai
    modelType: Text,   // type_civitai
    baseModel: Text,   // base_model_civitai
    creator: Text,     // creator_civitai
    license: Text,     // license_civitai
    url: Text)         // civitai_model_url

  const NoRemoteInfo: RemoteInfo := RemoteInfo(None, None, None, None, None, None)

  /** A row of `mm_models`, without its key. */
  datatype Row = Row(
    kind: Kind,                // type
    path: string,              // path (unique)
    size: int,
    hash: Text,                // full SHA-256, absent until requested
    mtime: int,
    scannedAt: int,
    name: Tiers,               // name_civitai, name_local, name
    trigger: Tiers,            // trigger_civitai, trigger_local, trigger
    tags: Tiers,               // tags_civitai, tags_local, tags
    info: RemoteInfo,
    checkedAt: Option<int>)    // civitai_checked_at

  /** Everything only the remote-metadata update writes. */
  datatype RemoteTier = RemoteTier(name: Text, trigger: Text, tags: Text, info: RemoteInfo, checkedAt: Option<int>)

  const NoRemote: RemoteTier := RemoteTier(None, None, None, NoRemoteInfo, None)

  function RemoteOf(r: Row): RemoteTier {
    RemoteTier(r.name.remote, r.trigger.remote, r.tags.remote, r.info, r.checkedAt)
  }

  /** The local tier: what the scanner derives from the file itself. */
  datatype LocalTier = LocalTier(name: Text, trigger: Text, tags: Text)

  function LocalOf(r: Row): LocalTier {
    LocalTier(r.name.local, r.trigger.local, r.tags.local)
  }

  /** The `UNIQUE` constraint on `path`. */
  ghost predicate PathsUnique(rows: map<Id, Row>) {
    forall a, b :: a in rows && b in rows && rows[a].path == rows[b].path ==> a == b
  }

  /** The record (a JSON object on the wire) returned for a model. */
  datatype ModelView = ModelView(
    id: Id, kind: Kind, name: Text, path: string, size: int, hash: Text, mtime: int,
    trigger: Text, tags: Text,
    nameLocal: Text, nameRemote: Text, info: RemoteInfo, checkedAt: Option<int>,
    triggerLocal: Text, triggerRemote: Text, tagsLocal: Text, tagsRemote: Text)

  /** The record the listing builds from a stored row: effective fields merged
      from the three tiers, everything else as stored. */
  function ViewOf(id: Id, r: Row): ModelView {
    ModelView(id, r.kind, r.name.Effective(), r.path, r.size, r.hash, r.mtime,
              r.trigger.Effective(), r.tags.Effective(),
              r.name.local, r.name.remote, r.info, r.checkedAt,
              r.trigger.local, r.trigger.remote, r.tags.local, r.tags.remote)
  }

  /** INSERT OR REPLACE: the new row takes `id`, and any other row holding
      the same path is deleted first (the `path` constraint conflicts). */
  function Upsert(rows: map<Id, Row>, id: Id, row: Row): (r: map<Id, Row>)
    ensures id in r && r[id] == row
    ensures forall k :: k in r <==> k == id || (k in rows && rows[k].path != row.path)
    ensures forall k :: k in r && k != id ==> r[k] == rows[k]
  {
    (map k | k in rows && k != id && rows[k].path != row.path :: rows[k])[id := row]
  }

  /** Upserting keeps paths unique, whatever the catalog held under `id` or at the path. */
  lemma UpsertKeepsPathsUnique(rows: map<Id, Row>, id: Id, row: Row)
    requires PathsUnique(rows)
    ensures PathsUnique(Upsert(rows, id, row))
  {
  }
}
