/** The order of the catalog listing, `ORDER BY type, name COLLATE NOCASE`:
    by the `type` text under binary collation, then by the stored (legacy)
    `name` column under SQLite's NOCASE collation, which folds ASCII letters
    only and puts NULL first. Rows that tie may come back in either order. */
module Listing {

  import opened Common
  import opened Strings
  import opened LexOrder
  import opened Config
  import opened Records

  /** `x <= y` for the `name` column under NOCASE. */
  predicate NameLe(x: Text, y: Text) {
    x.None? || (y.Some? && !Less(Lower(y.value), Lower(x.value)))
  }

  /** The position of a kind's section in the listing. */
  function SectionRank(k: Kind): nat {
    match k
    case Checkpoints => 0
    case DiffusionModels => 1
    case Embeddings => 2
    case Loras => 3
  }

  /** The sections follow the binary order of the `type` text: checkpoints,
      diffusion_models, embeddings, loras. */
  lemma SectionRankIsTypeOrder(a: Kind, b: Kind)
    ensures SectionRank(a) < SectionRank(b) <==> Less(KindName(a), KindName(b))
  {
    assert Less("checkpoints", "diffusion_models");
    assert Less("diffusion_models", "embeddings");
    assert Less("embeddings", "loras");
    LessTransitive("checkpoints", "diffusion_models", "embeddings");
    LessTransitive("checkpoints", "embeddings", "loras");
    LessTransitive("diffusion_models", "embeddings", "loras");
    LessTrichotomy(KindName(a), KindName(b));
    LessIrreflexive(KindName(a));
  }

  /** Row `a` may be listed before row `b`: an earlier section, or the same
      section and a name that is not greater. */
  predicate RowLe(a: Row, b: Row) {
    SectionRank(a.kind) < SectionRank(b.kind) || (a.kind == b.kind && NameLe(a.name.legacy, b.name.legacy))
  }

  lemma NameLeTotal(x: Text, y: Text)
    ensures NameLe(x, y) || NameLe(y, x)
  {
    if x.Some? && y.Some? {
      LessTrichotomy(Lower(x.value), Lower(y.value));
    }
  }

  lemma NameLeTransitive(x: Text, y: Text, z: Text)
    requires NameLe(x, y) && NameLe(y, z)
    ensures NameLe(x, z)
  {
    if x.Some? {
      var a, b, c := Lower(x.value), Lower(y.value), Lower(z.value);
      LessTrichotomy(a, b);
      LessTrichotomy(b, c);
      LessTrichotomy(a, c);
      if Less(c, a) {
        if Less(a, b) {
          LessTransitive(c, a, b);
        } else if Less(b, c) {
          LessTransitive(b, c, a);
        }
      }
    }
  }

  /** Any two rows can be compared: the order is total. */
  lemma RowLeTotal(a: Row, b: Row)
    ensures RowLe(a, b) || RowLe(b, a)
  {
    NameLeTotal(a.name.legacy, b.name.legacy);
  }

  lemma RowLeTransitive(a: Row, b: Row, c: Row)
    requires RowLe(a, b) && RowLe(b, c)
    ensures RowLe(a, c)
  {
    if a.kind == b.kind && b.kind == c.kind {
      NameLeTransitive(a.name.legacy, b.name.legacy, c.name.legacy);
    }
  }

  /** The ids, each naming a row, in an order the query may return them. */
  ghost predicate Ordered(rows: map<Id, Row>, ids: seq<Id>) {
    && (forall i :: 0 <= i < |ids| ==> ids[i] in rows)
    && (forall i, j :: 0 <= i < j < |ids| ==> RowLe(rows[ids[i]], rows[ids[j]]))
  }

  function Ids(models: seq<ModelView>): (ids: seq<Id>)
    ensures |ids| == |models| && forall i :: 0 <= i < |models| ==> ids[i] == models[i].id
  {
    seq(|models|, i requires 0 <= i < |models| => models[i].id)
  }

  /** A listing of the catalog: every row exactly once, in query order, each
      as the record built from its stored columns. */
  ghost predicate IsListing(rows: map<Id, Row>, models: seq<ModelView>) {
    && multiset(Ids(models)) == multiset(rows.Keys)
    && Ordered(rows, Ids(models))
    && (forall i :: 0 <= i < |models| ==> models[i] == ViewOf(models[i].id, rows[models[i].id]))
  }

  /** `le` orders the ids in `keys` totally, ties allowed. */
  ghost predicate TotalPreorder(le: (Id, Id) -> bool, keys: set<Id>) {
    && (forall x, y :: x in keys && y in keys ==> le(x, y) || le(y, x))
    && (forall x, y, z :: x in keys && y in keys && z in keys && le(x, y) && le(y, z) ==> le(x, z))
  }

  ghost predicate SortedBy(le: (Id, Id) -> bool, ids: seq<Id>) {
    forall i, j :: 0 <= i < j < |ids| ==> le(ids[i], ids[j])
  }

  /** The listing order on the ids of `rows`. */
  function ListingLe(rows: map<Id, Row>): (Id, Id) -> bool {
    (x, y) => x in rows && y in rows && RowLe(rows[x], rows[y])
  }

  lemma ListingLeIsTotalPreorder(rows: map<Id, Row>)
    ensures TotalPreorder(ListingLe(rows), rows.Keys)
  {
    var le := ListingLe(rows);
    forall x, y | x in rows && y in rows ensures le(x, y) || le(y, x) {
      RowLeTotal(rows[x], rows[y]);
    }
    forall x, y, z | x in rows && y in rows && z in rows && le(x, y) && le(y, z) ensures le(x, z) {
      RowLeTransitive(rows[x], rows[y], rows[z]);
    }
  }

  /** Inserts `id` after every id that may precede it. */
  method InsertInOrder(le: (Id, Id) -> bool, keys: set<Id>, ids: seq<Id>, id: Id) returns (r: seq<Id>)
    requires TotalPreorder(le, keys) && id in keys
    requires (forall i :: 0 <= i < |ids| ==> ids[i] in keys) && SortedBy(le, ids)
    ensures (forall i :: 0 <= i < |r| ==> r[i] in keys) && SortedBy(le, r)
    ensures multiset(r) == multiset(ids) + multiset{id}
  {
    var pos := 0;
    while pos < |ids| && le(ids[pos], id)
      invariant 0 <= pos <= |ids|
      invariant forall i :: 0 <= i < pos ==> le(ids[i], id)
    {
      pos := pos + 1;
    }
    forall j | pos <= j < |ids| ensures le(id, ids[j]) {
      if j > pos {
        assert le(id, ids[pos]) && le(ids[pos], ids[j]);
      }
    }
    r := ids[..pos] + [id] + ids[pos..];
    SortedAfterInsert(le, ids, pos, id);
    assert ids == ids[..pos] + ids[pos..];
  }

  /** Putting `id` between the ids that may precede it and those it may
      precede keeps a sorted sequence sorted. */
  lemma SortedAfterInsert(le: (Id, Id) -> bool, ids: seq<Id>, pos: nat, id: Id)
    requires pos <= |ids| && SortedBy(le, ids)
    requires forall i :: 0 <= i < pos ==> le(ids[i], id)
    requires forall j :: pos <= j < |ids| ==> le(id, ids[j])
    ensures SortedBy(le, ids[..pos] + [id] + ids[pos..])
  {
    var r := ids[..pos] + [id] + ids[pos..];
    forall i, j | 0 <= i < j < |r| ensures le(r[i], r[j]) {
      if j < pos {
        assert r[i] == ids[i] && r[j] == ids[j];
      } else if j == pos {
        assert r[i] == ids[i] && r[j] == id;
      } else if i > pos {
        assert r[i] == ids[i - 1] && r[j] == ids[j - 1];
      } else if i == pos {
        assert r[i] == id && r[j] == ids[j - 1];
      } else {
        assert r[i] == ids[i] && r[j] == ids[j - 1];
      }
    }
  }

  /** The ids of the catalog in an order `ORDER BY type, name COLLATE NOCASE` may return. */
  method QueryOrder(rows: map<Id, Row>) returns (ids: seq<Id>)
    ensures Ordered(rows, ids) && multiset(ids) == multiset(rows.Keys)
  {
    var le := ListingLe(rows);
    ListingLeIsTotalPreorder(rows);
    ids := [];
    var left := rows.Keys;
    while left != {}
      invariant left <= rows.Keys
      invariant (forall i :: 0 <= i < |ids| ==> ids[i] in rows) && SortedBy(le, ids)
      invariant multiset(ids) + multiset(left) == multiset(rows.Keys)
      decreases |left|
    {
      var id :| id in left;
      ids := InsertInOrder(le, rows.Keys, ids, id);
      assert multiset(left) == multiset(left - {id}) + multiset{id};
      left := left - {id};
    }
    forall i, j | 0 <= i < j < |ids| ensures RowLe(rows[ids[i]], rows[ids[j]]) {
      assert le(ids[i], ids[j]);
    }
  }

  /** A sequence with the elements of a set, each once, repeats none. */
  lemma {:induction false} NoRepeats(ids: seq<Id>, keys: set<Id>)
    requires multiset(ids) == multiset(keys)
    ensures forall i, j :: 0 <= i < j < |ids| ==> ids[i] != ids[j]
  {
    forall i, j | 0 <= i < j < |ids| ensures ids[i] != ids[j] {
      var x := ids[j];
      assert ids == ids[..j] + [x] + ids[j + 1..];
      assert multiset(ids)[x] == multiset(ids[..j])[x] + 1 + multiset(ids[j + 1..])[x];
      assert multiset(ids[..j])[x] == 0;
      assert ids[i] in ids[..j];
    }
  }

  /** A listing holds one record per row and shows each row's merged fields. */
  lemma ListingCoversCatalog(rows: map<Id, Row>, models: seq<ModelView>)
    requires IsListing(rows, models)
    ensures |models| == |rows|
    ensures forall id :: id in rows ==>
              exists i :: 0 <= i < |models| && models[i].id == id && models[i] == ViewOf(id, rows[id])
    ensures forall i, j :: 0 <= i < j < |models| ==> models[i].id != models[j].id
  {
    var ids := Ids(models);
    assert |multiset(ids)| == |multiset(rows.Keys)|;
    forall id | id in rows
      ensures exists i :: 0 <= i < |models| && models[i].id == id && models[i] == ViewOf(id, rows[id])
    {
      assert id in multiset(ids);
      var i :| 0 <= i < |ids| && ids[i] == id;
    }
    NoRepeats(ids, rows.Keys);
  }

  /** Sections never interleave: a listing shows every checkpoint, then every
      diffusion model, then every embedding, then every LoRA. */
  lemma ListingSectionsInOrder(rows: map<Id, Row>, models: seq<ModelView>)
    requires IsListing(rows, models)
    ensures forall i, j :: 0 <= i < j < |models| ==> SectionRank(models[i].kind) <= SectionRank(models[j].kind)
  {
    forall i, j | 0 <= i < j < |models| ensures SectionRank(models[i].kind) <= SectionRank(models[j].kind) {
      assert Ids(models)[i] == models[i].id && Ids(models)[j] == models[j].id;
      assert RowLe(rows[models[i].id], rows[models[j].id]);
    }
  }
}
