/** The remote-metadata update (`POST /update-civitai`): a batch of items,
    each either marking a model as not found remotely or carrying the remote
    fields for it. Only the remote tier, the check time and the legacy
    columns (re-derived with the merge policy) are written; the batch
    commits as a whole or, when an item raises, not at all. */
module RemoteUpdates {

  import opened Common
  import opened Provenance
  import opened Records

  /** One element of the `updates` array. `data` is `civitaiData`: a
      dictionary (an absent key reads as the empty dictionary), or `None` for
      a value that is not a dictionary and has no `get`. */
  datatype Update = Update(modelId: Text, data: Option<map<string, Text>>, notFound: bool)

  /** The batch state: the uncommitted catalog and `updated_count`. */
  datatype Applied = Applied(rows: map<Id, Row>, count: nat)

  /** `civitai_data.get(key, '')`. */
  function Get(d: map<string, Text>, key: string): Text {
    if key in d then d[key] else Some("")
  }

  /** `civitai_data.get(key, '') or None`. */
  function Field(d: map<string, Text>, key: string): (r: Text)
    ensures r.None? || Truthy(r)
  {
    Or(Get(d, key), None)
  }

  /** `civitai_data.get(first, '') or civitai_data.get(second, '') or None`. */
  function FieldOr(d: map<string, Text>, first: string, second: string): (r: Text)
    ensures r.None? || Truthy(r)
  {
    Or(Get(d, first), Field(d, second))
  }

  /** The remote tier an item carries, stamped with the check time. */
  function RemoteFrom(d: map<string, Text>, now: int): RemoteTier {
    RemoteTier(
      Field(d, "name"),
      FieldOr(d, "triggerWords", "tags"),
      Field(d, "modelTags"),
      RemoteInfo(Field(d, "versionName"), Field(d, "modelType"), Field(d, "baseModel"),
                 FieldOr(d, "creatorUsername", "creator"), Field(d, "license"), Field(d, "civitaiModelUrl")),
      Some(now))
  }

  /** The row after the UPDATE of an item with data: the remote tier replaced,
      each legacy column set to the merge of the new remote value, the local
      value and the old legacy value. */
  function Refreshed(r: Row, t: RemoteTier): Row {
    r.(name := Tiers(t.name, r.name.local, PickEffective(t.name, r.name.local, r.name.legacy)),
       trigger := Tiers(t.trigger, r.trigger.local, PickEffective(t.trigger, r.trigger.local, r.trigger.legacy)),
       tags := Tiers(t.tags, r.tags.local, PickEffective(t.tags, r.tags.local, r.tags.legacy)),
       info := t.info,
       checkedAt := t.checkedAt)
  }

  /** An item changes a row, and is counted, when its id is truthy and names a row. */
  predicate Known(keys: set<Id>, u: Update) {
    Truthy(u.modelId) && u.modelId.value in keys
  }

  /** The catalog after one item, or `None` when the item raises. */
  function ApplyOne(rows: map<Id, Row>, u: Update, now: int): Option<map<Id, Row>> {
    if !Truthy(u.modelId) then Some(rows)
    else
      var id := u.modelId.value;
      if u.notFound then
        if id in rows then Some(rows[id := rows[id].(checkedAt := Some(now))]) else Some(rows)
      else if u.data.None? then None
      else if id in rows then Some(rows[id := Refreshed(rows[id], RemoteFrom(u.data.value, now))])
      else Some(rows)
  }

  /** The loop over the items, in order; `None` once an item raises. */
  function ApplyAll(rows: map<Id, Row>, us: seq<Update>, now: int): Option<Applied>
    decreases |us|
  {
    if us == [] then Some(Applied(rows, 0))
    else
      match ApplyAll(rows, us[..|us| - 1], now)
      case None => None
      case Some(a) =>
        var u := us[|us| - 1];
        match ApplyOne(a.rows, u, now)
        case None => None
        case Some(r) => Some(Applied(r, a.count + if Known(a.rows.Keys, u) then 1 else 0))
  }

  /** An item raises exactly when it has a truthy id, is not a not-found
      marker and its data is not a dictionary. */
  predicate Raises(u: Update) {
    Truthy(u.modelId) && !u.notFound && u.data.None?
  }

  // ---------------------------------------------------------------------------
  // One item
  // ---------------------------------------------------------------------------

  /** What an item may change: the remote tier, the check time and the
      legacy columns of the row it names. Keys, files, hash and local tier
      stay as they are. */
  ghost predicate SameLocalState(rows0: map<Id, Row>, rows: map<Id, Row>) {
    && rows.Keys == rows0.Keys
    && forall id :: id in rows ==>
         && LocalOf(rows[id]) == LocalOf(rows0[id])
         && rows[id].kind == rows0[id].kind && rows[id].path == rows0[id].path
         && rows[id].size == rows0[id].size && rows[id].hash == rows0[id].hash
         && rows[id].mtime == rows0[id].mtime && rows[id].scannedAt == rows0[id].scannedAt
  }

  lemma ApplyOneKeepsLocalState(rows: map<Id, Row>, u: Update, now: int)
    ensures ApplyOne(rows, u, now).Some? <==> !Raises(u)
    ensures ApplyOne(rows, u, now).Some? ==> SameLocalState(rows, ApplyOne(rows, u, now).value)
  {
  }

  /** A not-found marker for a known model only stamps the check time: the
      stored remote values stay. */
  lemma NotFoundOnlyStampsCheckTime(rows: map<Id, Row>, u: Update, now: int)
    requires Known(rows.Keys, u) && u.notFound
    ensures var id := u.modelId.value;
            var r := ApplyOne(rows, u, now);
            && r.Some? && r.value.Keys == rows.Keys
            && r.value[id] == rows[id].(checkedAt := Some(now))
            && forall k :: k in rows && k != id ==> r.value[k] == rows[k]
  {
  }

  /** An item with data for a known model replaces the remote tier with the
      item's fields and keeps each legacy column equal to what a reader sees:
      the new remote value when non-empty, otherwise the local value when
      non-empty, otherwise the old legacy value. */
  lemma RefreshKeepsLegacyInSync(r: Row, d: map<string, Text>, now: int)
    ensures var t := RemoteFrom(d, now);
            var n := Refreshed(r, t);
            && RemoteOf(n) == t && LocalOf(n) == LocalOf(r)
            && n.name.legacy == n.name.Effective()
            && n.trigger.legacy == n.trigger.Effective()
            && n.tags.legacy == n.tags.Effective()
            && (Truthy(t.name) ==> n.name.Effective() == t.name)
            && (!Truthy(t.name) && Truthy(r.name.local) ==> n.name.Effective() == r.name.local)
            && (!Truthy(t.name) && !Truthy(r.name.local) ==> n.name.Effective() == r.name.legacy)
            && (Truthy(t.trigger) ==> n.trigger.Effective() == t.trigger)
            && (!Truthy(t.trigger) && Truthy(r.trigger.local) ==> n.trigger.Effective() == r.trigger.local)
            && (!Truthy(t.trigger) && !Truthy(r.trigger.local) ==> n.trigger.Effective() == r.trigger.legacy)
            && (Truthy(t.tags) ==> n.tags.Effective() == t.tags)
            && (!Truthy(t.tags) && Truthy(r.tags.local) ==> n.tags.Effective() == r.tags.local)
            && (!Truthy(t.tags) && !Truthy(r.tags.local) ==> n.tags.Effective() == r.tags.legacy)
  {
    var t := RemoteFrom(d, now);
    MergeStableUnderLegacySync(t.name, r.name.local, r.name.legacy);
    MergeStableUnderLegacySync(t.trigger, r.trigger.local, r.trigger.legacy);
    MergeStableUnderLegacySync(t.tags, r.tags.local, r.tags.legacy);
    MergePriority(t.name, r.name.local, r.name.legacy);
    MergePriority(t.trigger, r.trigger.local, r.trigger.legacy);
    MergePriority(t.tags, r.tags.local, r.tags.legacy);
  }

  /** Empty remote values are stored as NULL, never as the empty string, and
      the first of two alternative keys wins when it is non-empty. */
  lemma RemoteValuesNeverEmpty(d: map<string, Text>, now: int)
    ensures var t := RemoteFrom(d, now);
            && (t.name.None? || Truthy(t.name))
            && (t.trigger.None? || Truthy(t.trigger))
            && (t.tags.None? || Truthy(t.tags))
            && t.checkedAt == Some(now)
            && (Truthy(Get(d, "triggerWords")) ==> t.trigger == d["triggerWords"])
            && (!Truthy(Get(d, "triggerWords")) ==> t.trigger == Field(d, "tags"))
            && (Truthy(Get(d, "creatorUsername")) ==> t.info.creator == d["creatorUsername"])
            && (!Truthy(Get(d, "creatorUsername")) ==> t.info.creator == Field(d, "creator"))
  {
  }

  // ---------------------------------------------------------------------------
  // The whole batch
  // ---------------------------------------------------------------------------

  /** The batch fails exactly when some item raises. */
  lemma {:induction false} BatchFailsIffAnItemRaises(rows: map<Id, Row>, us: seq<Update>, now: int)
    ensures ApplyAll(rows, us, now).None? <==> exists i :: 0 <= i < |us| && Raises(us[i])
    ensures ApplyAll(rows, us, now).Some? ==> SameLocalState(rows, ApplyAll(rows, us, now).value.rows)
  {
    if us != [] {
      var init := us[..|us| - 1];
      BatchFailsIffAnItemRaises(rows, init, now);
      var prev := ApplyAll(rows, init, now);
      if prev.Some? {
        ApplyOneKeepsLocalState(prev.value.rows, us[|us| - 1], now);
      }
      if exists i :: 0 <= i < |init| && Raises(init[i]) {
        var i :| 0 <= i < |init| && Raises(init[i]);
        assert us[i] == init[i];
      }
      if exists i :: 0 <= i < |us| && Raises(us[i]) {
        var i :| 0 <= i < |us| && Raises(us[i]);
        if i < |init| {
          assert init[i] == us[i];
        }
      }
    }
  }

  /** The indices of the items that count. */
  function KnownItems(keys: set<Id>, us: seq<Update>): set<nat> {
    set i: nat | i < |us| && Known(keys, us[i])
  }

  /** `updated_count` is the number of items whose truthy id names a model;
      an item naming the same model twice counts twice. */
  lemma {:induction false} CountIsKnownItems(rows: map<Id, Row>, us: seq<Update>, now: int)
    requires ApplyAll(rows, us, now).Some?
    ensures ApplyAll(rows, us, now).value.count == |KnownItems(rows.Keys, us)|
  {
    if us != [] {
      var n := |us| - 1;
      var init := us[..n];
      assert ApplyAll(rows, init, now).Some?;
      CountIsKnownItems(rows, init, now);
      BatchFailsIffAnItemRaises(rows, init, now);
      var a := ApplyAll(rows, init, now).value;
      assert a.rows.Keys == rows.Keys;
      var before := KnownItems(rows.Keys, init);
      assert KnownItems(rows.Keys, us) == before + (if Known(rows.Keys, us[n]) then {n} else {}) by {
        forall i: nat | i < n ensures us[i] == init[i] { }
      }
      assert n !in before;
    }
  }

  /** Once an item raises, the batch has failed whatever follows. */
  lemma {:induction false} FailureIsFinal(rows: map<Id, Row>, us: seq<Update>, n: nat, now: int)
    requires n <= |us| && ApplyAll(rows, us[..n], now).None?
    ensures ApplyAll(rows, us, now).None?
  {
    BatchFailsIffAnItemRaises(rows, us[..n], now);
    BatchFailsIffAnItemRaises(rows, us, now);
    var i :| 0 <= i < n && Raises(us[..n][i]);
    assert us[i] == us[..n][i];
  }
}
