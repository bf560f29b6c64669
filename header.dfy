/** The safetensors header extractor (`extract_safetensors_metadata`): an
    8-byte little-endian length prefix, a JSON header of that length, and in
    its `__metadata__` object a trigger text and a tag-frequency table.
    UTF-8 decoding (`decode`, which never fails with `errors='ignore'`) and
    `json.loads` (`loads`, `None` when it raises) are parameters. */
module Header {

  import opened Common
  import opened Strings
  import opened LexOrder
  import opened Json

  /** The sanity ceiling on the declared header length. */
  const MaxHeaderSize: nat := 100_000_000
  /** The metadata keys that may hold the trigger text, in the order they are tried. */
  const TriggerKeys: seq<string> := ["ss_trigger_word", "activation_text", "trigger_word"]
  /** How many tag names are kept. */
  const TagLimit: nat := 50
  const TagSeparator: string := ", "

  /** `int.from_bytes(bs, 'little')`. */
  function LittleEndian(bs: seq<byte>): nat
  {
    if bs == [] then 0 else bs[0] as nat + 256 * LittleEndian(bs[1..])
  }

  function Pow256(width: nat): nat {
    if width == 0 then 1 else 256 * Pow256(width - 1)
  }

  /** `n.to_bytes(width, 'little')`, the encoding the length prefix inverts. */
  function EncodeLittleEndian(n: nat, width: nat): (bs: seq<byte>)
    requires n < Pow256(width)
    ensures |bs| == width
  {
    if width == 0 then [] else [(n % 256) as byte] + EncodeLittleEndian(n / 256, width - 1)
  }

  /** Decoding the prefix inverts encoding it: every header length that fits
      in 8 bytes is read back as itself. */
  lemma {:induction false} LittleEndianRoundTrip(n: nat, width: nat)
    requires n < Pow256(width)
    ensures LittleEndian(EncodeLittleEndian(n, width)) == n
  {
    if width > 0 {
      LittleEndianRoundTrip(n / 256, width - 1);
      var bs := EncodeLittleEndian(n, width);
      assert bs[1..] == EncodeLittleEndian(n / 256, width - 1);
    }
  }

  /** Encoding inverts decoding: a prefix of `width` bytes decodes to a
      number below 256^width that encodes back to the same bytes, so the
      8-byte prefix and the header length determine each other. */
  lemma {:induction false} LittleEndianDecodeRoundTrip(bs: seq<byte>)
    ensures LittleEndian(bs) < Pow256(|bs|)
    ensures EncodeLittleEndian(LittleEndian(bs), |bs|) == bs
  {
    if bs != [] {
      var rest := LittleEndian(bs[1..]);
      LittleEndianDecodeRoundTrip(bs[1..]);
      var n := LittleEndian(bs);
      assert n == bs[0] as nat + 256 * rest;
      assert n % 256 == bs[0] as nat && n / 256 == rest;
      assert n < Pow256(|bs|) by {
        assert rest + 1 <= Pow256(|bs| - 1);
        assert 256 * (rest + 1) <= 256 * Pow256(|bs| - 1);
      }
      assert EncodeLittleEndian(n, |bs|) == [bs[0]] + bs[1..];
    }
  }

  /** The result of the extractor: `(trigger, tags)`. */
  datatype Extracted = Extracted(trigger: Option<Json>, tags: Text)

  const NoMetadata: Extracted := Extracted(None, None)

  /** What `f.read(header_size)` returns after the prefix: the declared
      number of bytes, or fewer when the file ends first. */
  function HeaderBytes(bytes: seq<byte>): seq<byte>
    requires |bytes| >= 8
  {
    bytes[8..Min(8 + LittleEndian(bytes[..8]), |bytes|)]
  }

  /** The trigger loop over `keys`: `Some(None)` when no key holds a truthy
      value, `None` when a membership test or an index raises. */
  function FirstTrigger(meta: Json, keys: seq<string>): Option<Option<Json>>
  {
    if keys == [] then Some(None)
    else match Contains(meta, keys[0])
      case None => None
      case Some(present) =>
        if !present then FirstTrigger(meta, keys[1..])
        else match Index(meta, keys[0])
          case None => None
          case Some(v) => if IsTruthy(v) then Some(Some(v)) else FirstTrigger(meta, keys[1..])
  }

  /** The tag names of a decoded `ss_tag_frequency` table held by the datasets `ds`. */
  function NamesIn(datasets: map<string, Json>, ds: set<string>): set<string>
  {
    set d, t | d in ds && d in datasets && datasets[d].JObj? && t in datasets[d].fields :: t
  }

  /** All tag names of the table, or `None` when the table is not a dict of
      dicts (`.values()` or `.keys()` raises). */
  function TagNames(tagData: Json): Option<set<string>>
  {
    if tagData.JObj? && forall d :: d in tagData.fields ==> tagData.fields[d].JObj?
    then Some(NamesIn(tagData.fields, tagData.fields.Keys))
    else None
  }

  /** `', '.join(sorted(set(all_tags))[:50])`. */
  ghost function TagsText(names: set<string>): string
  {
    Join(Take(SortedListing(names), TagLimit), TagSeparator)
  }

  /** The inner `try`: the tags, or `None` when anything in it raises. */
  ghost function TagsOf(meta: Json, loads: string -> Option<Json>): Text
  {
    match Index(meta, "ss_tag_frequency")
    case None => None
    case Some(raw) =>
      if !raw.JStr? then None
      else match loads(raw.s)
        case None => None
        case Some(tagData) =>
          match TagNames(tagData)
          case None => None
          case Some(names) => Some(TagsText(names))
  }

  /** What the extractor returns for a decoded header `doc`. */
  ghost function FromDocument(doc: Json, loads: string -> Option<Json>): Extracted
  {
    match Contains(doc, "__metadata__")
    case None => NoMetadata
    case Some(hasMeta) =>
      if !hasMeta then NoMetadata
      else match Index(doc, "__metadata__")
        case None => NoMetadata
        case Some(meta) =>
          match Contains(meta, "ss_tag_frequency")
          case None => NoMetadata
          case Some(hasFreq) =>
            match FirstTrigger(meta, TriggerKeys)
            case None => NoMetadata
            case Some(trigger) => Extracted(trigger, if hasFreq then TagsOf(meta, loads) else None)
  }

  /** Specification of `extract_safetensors_metadata`: `file` is the file's
      content, or `None` when it cannot be opened. */
  ghost function SafetensorsMetadata(file: Option<seq<byte>>, decode: seq<byte> -> string,
                                     loads: string -> Option<Json>): Extracted
  {
    if file.None? || |file.value| < 8 then NoMetadata
    else if LittleEndian(file.value[..8]) > MaxHeaderSize then NoMetadata
    else match loads(decode(HeaderBytes(file.value)))
      case None => NoMetadata
      case Some(doc) => FromDocument(doc, loads)
  }

  /** Adding one dataset's names to the names seen so far. */
  lemma NamesInAdd(datasets: map<string, Json>, ds: set<string>, d: string)
    requires d in datasets && datasets[d].JObj?
    ensures NamesIn(datasets, ds + {d}) == NamesIn(datasets, ds) + datasets[d].fields.Keys
  {
  }

  /** The inner `try` of the extractor: parse the tag-frequency table and
      collect its tag names, kept sorted and without duplicates as
      `sorted(set(all_tags))` orders them. */
  method TagsFromFrequency(meta: Json, loads: string -> Option<Json>) returns (tags: Text)
    ensures tags == TagsOf(meta, loads)
  {
    var raw := Index(meta, "ss_tag_frequency");
    if raw.None? || !raw.value.JStr? {
      return None;
    }
    var tagData := loads(raw.value.s);
    if tagData.None? || !tagData.value.JObj? {
      return None;
    }
    var datasets := tagData.value.fields;
    var pending := datasets.Keys;
    var names: seq<string> := [];
    while pending != {}
      invariant pending <= datasets.Keys
      invariant forall d :: d in datasets && d !in pending ==> datasets[d].JObj?
      invariant StrictlySorted(names)
      invariant Elems(names) == NamesIn(datasets, datasets.Keys - pending)
      decreases pending
    {
      var d :| d in pending;
      var dataset := datasets[d];
      if !dataset.JObj? {
        return None;
      }
      var unseen := dataset.fields.Keys;
      ghost var before := Elems(names);
      while unseen != {}
        invariant unseen <= dataset.fields.Keys
        invariant StrictlySorted(names)
        invariant Elems(names) == before + (dataset.fields.Keys - unseen)
        decreases unseen
      {
        var t :| t in unseen;
        InsertUniqueCorrect(t, names);
        names := InsertUnique(t, names);
        unseen := unseen - {t};
      }
      NamesInAdd(datasets, datasets.Keys - pending, d);
      assert datasets.Keys - (pending - {d}) == (datasets.Keys - pending) + {d};
      pending := pending - {d};
    }
    SortedListingUnique(names, SortedListing(NamesIn(datasets, datasets.Keys)));
    tags := Some(Join(Take(names, TagLimit), TagSeparator));
  }

  /** `extract_safetensors_metadata(path)` on the file's content. */
  method ExtractMetadata(file: Option<seq<byte>>, decode: seq<byte> -> string,
                         loads: string -> Option<Json>)
    returns (trigger: Option<Json>, tags: Text)
    ensures Extracted(trigger, tags) == SafetensorsMetadata(file, decode, loads)
  {
    trigger, tags := None, None;
    if file.None? {
      return;
    }
    var bytes := file.value;
    var prefix := Take(bytes, 8);
    if |prefix| < 8 {
      return;
    }
    var headerSize := LittleEndian(prefix);
    if headerSize > MaxHeaderSize {
      return;
    }
    var parsed := loads(decode(bytes[8..Min(8 + headerSize, |bytes|)]));
    if parsed.None? {
      return;
    }
    var doc := parsed.value;
    var hasMeta := Contains(doc, "__metadata__");
    if hasMeta.None? || !hasMeta.value {
      return;
    }
    var meta := Index(doc, "__metadata__");
    if meta.None? {
      return;
    }
    var m := meta.value;
    var hasFreq := Contains(m, "ss_tag_frequency");
    if hasFreq.None? {
      return;
    }
    var foundTags: Text := None;
    if hasFreq.value {
      foundTags := TagsFromFrequency(m, loads);
    }
    var found: Option<Json> := None;
    var i := 0;
    while i < |TriggerKeys|
      invariant 0 <= i <= |TriggerKeys|
      invariant found.None? ==> FirstTrigger(m, TriggerKeys) == FirstTrigger(m, TriggerKeys[i..])
      invariant found.Some? ==> FirstTrigger(m, TriggerKeys) == Some(found)
    {
      var key := TriggerKeys[i];
      assert TriggerKeys[i..][1..] == TriggerKeys[i + 1..];
      var present := Contains(m, key);
      if present.None? {
        return;
      }
      if present.value {
        var value := Index(m, key);
        if value.None? {
          return;
        }
        if IsTruthy(value.value) {
          found := value;
          break;
        }
      }
      i := i + 1;
    }
    trigger, tags := found, foundTags;
  }

  /** The three ways the extractor gives up before looking at the header:
      the file cannot be opened, the prefix is shorter than 8 bytes, or the
      declared length is above 100,000,000; and a header that does not
      parse gives up too. */
  lemma NoMetadataCases(file: Option<seq<byte>>, decode: seq<byte> -> string, loads: string -> Option<Json>)
    ensures file.None? ==> SafetensorsMetadata(file, decode, loads) == NoMetadata
    ensures file.Some? && |file.value| < 8 ==> SafetensorsMetadata(file, decode, loads) == NoMetadata
    ensures file.Some? && |file.value| >= 8 && LittleEndian(file.value[..8]) > MaxHeaderSize ==>
              SafetensorsMetadata(file, decode, loads) == NoMetadata
    ensures file.Some? && |file.value| >= 8 && loads(decode(HeaderBytes(file.value))).None? ==>
              SafetensorsMetadata(file, decode, loads) == NoMetadata
  {
  }

  /** On a dict, the trigger loop never raises and picks the value of the
      first key, in the order given, that is present with a truthy value. */
  lemma {:induction false} TriggerIsFirstTruthyKey(fields: map<string, Json>, keys: seq<string>)
    ensures (forall i :: 0 <= i < |keys| ==> keys[i] !in fields || !IsTruthy(fields[keys[i]])) ==>
              FirstTrigger(JObj(fields), keys) == Some(None)
    ensures forall i :: 0 <= i < |keys| && keys[i] in fields && IsTruthy(fields[keys[i]]) &&
                        (forall j :: 0 <= j < i ==> keys[j] !in fields || !IsTruthy(fields[keys[j]])) ==>
              FirstTrigger(JObj(fields), keys) == Some(Some(fields[keys[i]]))
  {
    if keys != [] {
      TriggerIsFirstTruthyKey(fields, keys[1..]);
      assert forall i :: 1 <= i < |keys| ==> keys[1..][i - 1] == keys[i];
    }
  }

  /** A malformed tag-frequency table costs the tags only: the trigger of a
      header whose metadata is a dict is the same as if the table were absent. */
  lemma MalformedTagsKeepTrigger(doc: Json, fields: map<string, Json>, loads: string -> Option<Json>)
    requires doc.JObj? && "__metadata__" in doc.fields && doc.fields["__metadata__"] == JObj(fields)
    requires "ss_tag_frequency" in fields
    requires TagsOf(JObj(fields), loads).None?
    ensures FromDocument(doc, loads).tags.None?
    ensures FromDocument(doc, loads).trigger ==
            FromDocument(JObj(doc.fields["__metadata__" := JObj(fields - {"ss_tag_frequency"})]), loads).trigger
  {
    assert forall k :: k in TriggerKeys ==> k != "ss_tag_frequency";
    TriggerKeysAgree(fields, TriggerKeys);
  }

  /** Two dicts that agree on the trigger keys give the same trigger. */
  lemma {:induction false} TriggerKeysAgree(fields: map<string, Json>, keys: seq<string>)
    requires forall k :: k in keys ==> k != "ss_tag_frequency"
    ensures FirstTrigger(JObj(fields), keys) == FirstTrigger(JObj(fields - {"ss_tag_frequency"}), keys)
  {
    if keys != [] {
      assert keys[0] in keys && forall k :: k in keys[1..] ==> k in keys;
      TriggerKeysAgree(fields, keys[1..]);
    }
  }

  /** The tags keep the first 50 names in Python's order: the kept names are
      strictly increasing tag names, all names are kept when there are at
      most 50, and every kept name sorts before every dropped one. */
  lemma {:induction false} TagsAreFirstFiftySorted(names: set<string>)
    ensures var kept := Take(SortedListing(names), TagLimit);
            && StrictlySorted(kept)
            && Elems(kept) <= names
            && |kept| == Min(TagLimit, |names|)
            && (|names| <= TagLimit ==> Elems(kept) == names)
            && forall x :: x in names && x !in Elems(kept) ==> forall y :: y in kept ==> Less(y, x)
  {
    var s := SortedListing(names);
    var kept := Take(s, TagLimit);
    SortedLength(s);
    forall x | x in names && x !in Elems(kept) ensures forall y :: y in kept ==> Less(y, x) {
      var j :| 0 <= j < |s| && s[j] == x;
      assert j >= |kept|;
      forall y | y in kept ensures Less(y, x) {
        var i :| 0 <= i < |kept| && kept[i] == y;
        assert s[i] == y;
      }
    }
  }

  /** A strictly increasing list has no duplicates, so it is as long as its set of elements. */
  lemma {:induction false} SortedLength(s: seq<string>)
    requires StrictlySorted(s)
    ensures |Elems(s)| == |s|
    decreases |s|
  {
    if s != [] {
      SortedLength(s[1..]);
      LessIrreflexive(s[0]);
      assert s[0] !in Elems(s[1..]);
      assert Elems(s) == Elems(s[1..]) + {s[0]} by {
        assert forall y :: y in s <==> y == s[0] || y in s[1..];
      }
    }
  }
}
