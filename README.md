# Model Manager catalog, modelled in Dafny

The Model Manager plugin of SmartGallery keeps a catalog of the model files
under a models folder: checkpoints, diffusion models, LoRAs and embeddings.
Each catalog row records three tiers for the name, the trigger words and the
tags:

- a *remote* tier, fetched from CivitAI;
- a *local* tier, taken from the file name and the safetensors header;
- the *legacy* column, which stores the merged value.

A reader sees the remote value when it is non-empty, otherwise the local
value, otherwise the legacy value.

This project models the following:

- The merge policy (`Provenance`).
- The safetensors header reader (`Header`). It covers the 8-byte
  little-endian length prefix, the `__metadata__` object, the trigger keys
  and the tag list built from `ss_tag_frequency`.
- The architecture classifier (`Architecture`).
- The cheap file id (`Fingerprint`). It is built from a head window and a
  tail window, with an MD5-of-path fallback.
- The configuration constants (`Config`).
- The incremental scanner (`Scanning`). It has a fast path for unchanged
  files and a slow path that re-extracts local metadata and carries the
  remote tier and hash forward. Rows are written with SQLite
  `INSERT OR REPLACE` semantics, and rows whose path was not walked are
  pruned.
- The catalog listing in `ORDER BY type, name COLLATE NOCASE` order
  (`Listing`).
- The remote-metadata batch update (`RemoteUpdates`).
- The catalog itself, as the class `Catalogs.Catalog`. Its methods are:
  - `Scan`;
  - `List`, which runs an initial scan when the catalog is empty;
  - `UpdateRemote`;
  - `ComputeFullHash`;
  - `SaveSettings`.

The file system, the clock, the digests, the JSON parser and the UTF-8
decoder are all parameters:

- The file system is a snapshot of the folders and of each file's stat
  result, id and extracted metadata.
- The clock is one timestamp.
- The digests and decoders are uninterpreted functions.

Each imperative part of the source is an imperative Dafny method proved
against a specification function. These are:

- the scan loop;
- the tag-collection loop;
- the header reader;
- the prune loop;
- the listing sort;
- the update and hash loops.

Lemmas about those functions state what the source promises.

One behaviour of the scanner is modelled as written, not corrected:

- The fast path reports a file under its newly walked path but never
  rewrites the stored path.
- So a model file that was moved without being modified keeps its old path
  in the catalog.
- The prune at the end of the same scan then deletes that row, although
  the scan reported the file.
- `Scanning.MovedUnchangedFileLeavesCatalog` exhibits this. No lemma claims
  that every reported record stays in the catalog.

## Model

| member | source | states |
|---|---|---|
| Strings.LowerIsLowerCase | backend.py:98 | a lowered string is lower case and lowering it again changes nothing |
| Strings.LowerKeepsLowerCase | config.py:19 | lowering an already lower-case string (such as each recognised extension) is the identity |
| Strings.TrimStartShape | backend.py:612 | trimming the front removes exactly a leading run of whitespace and leaves a non-space first character |
| Strings.TrimEndShape | backend.py:612 | trimming the back removes exactly a trailing run of whitespace and leaves a non-space last character |
| Strings.StripShape | backend.py:612 | `strip()` returns a slice of its input with only whitespace cut on either side |
| Strings.StripEnds | backend.py:612 | a non-empty stripped string starts and ends with a non-space character |
| Strings.StripEmptyIffAllSpace | backend.py:612-615 | the stripped path is empty exactly when the raw path is all whitespace, so exactly those are rejected |
| Strings.LastIndexOf | backend.py:160 | the result is the position of the last occurrence of the character, or none when it does not occur |
| Strings.SplitExtRootOfStem | backend.py:160 | `os.path.splitext` of a stem plus a dot-extension gives the stem back |
| LexOrder.LessIrreflexive | backend.py:82 | Python string order is irreflexive |
| LexOrder.LessTransitive | backend.py:82 | Python string order is transitive |
| LexOrder.LessTrichotomy | backend.py:82 | any two strings are equal or ordered one way, and never both ways |
| LexOrder.InsertUniqueElems | backend.py:82 | inserting a name adds exactly that name to the set of names |
| LexOrder.InsertUniqueCorrect | backend.py:82 | inserting into a strictly sorted list keeps it strictly sorted and adds exactly the name |
| LexOrder.SortedListingExists | backend.py:82 | every finite set of names has a strictly sorted listing (`sorted(set(...))`) |
| LexOrder.SortedListingUnique | backend.py:82 | two strictly sorted lists of the same names are equal, so the sorted listing is determined |
| LexOrder.SortedListing | backend.py:82 | the sorted, duplicate-free listing of a set of names |
| Config.ExactlyFourKinds | config.py:11-16 | there are exactly four model kinds, listed once each, with distinct folder names |
| Config.OneFolderPerKind | config.py:11-16 | each kind is scanned from exactly one subfolder named after the kind |
| Config.ExtensionTestIgnoresCase | config.py:19 | every recognised extension is lower case and starts with a dot, and the suffix test gives the same answer on a name and its lowered form |
| Provenance.FirstTruthyIsLeastTruthy | backend.py:117-123 | the first non-empty candidate wins, and the fallback is used only when every candidate is empty |
| Provenance.PickEffectiveIsFirstTruthy | backend.py:117-123 | the merge is "first non-empty of remote, local, else legacy" |
| Provenance.MergePriority | backend.py:117-123 | a non-empty remote value wins; otherwise a non-empty local value; otherwise the legacy value |
| Provenance.EffectiveEmptyIffAllEmpty | backend.py:117-123 | the merged value is empty exactly when all three tiers are empty |
| Provenance.MergeStableUnderLegacySync | backend.py:484-486 | storing the merged value as the legacy column leaves what a reader sees unchanged |
| Fingerprint.FastModelId | backend.py:32-42 | the id is at most 16 characters long |
| Fingerprint.SampleWindows | backend.py:36-39 | the head window starts at 0x100000 and holds up to 0x10000 bytes clipped at end of file; the tail window holds exactly the last 0x10000 bytes |
| Fingerprint.SmallFileIdentifiedByPath | backend.py:38-42 | when the file cannot be opened or is shorter than 0x10000 bytes, the id is the first 16 characters of the MD5 of the path, whatever the content |
| Fingerprint.SampledIdIgnoresPathAndUnsampledBytes | backend.py:35-40 | two files of the same length that agree on both windows get the same id, wherever they are stored |
| Json.Contains | backend.py:76 | the `in` test raises exactly on null, boolean and number values |
| Json.DictAccess | backend.py:74-75 | on a dictionary, `in` and subscripting agree with the dictionary's keys |
| Header.EncodeLittleEndian | backend.py:65 | a number below 256^width encodes into exactly `width` bytes |
| Header.LittleEndianRoundTrip | backend.py:65 | decoding the little-endian bytes of a number gives the number back |
| Header.LittleEndianDecodeRoundTrip | backend.py:62-65 | a prefix of n bytes decodes to a number below 256^n that encodes back to the same bytes, so prefix and header length determine each other |
| Header.NamesInAdd | backend.py:80-81 | adding a dataset to the flattened tag names adds exactly its keys |
| Header.TagsFromFrequency | backend.py:76-83 | the tag loop computes the tags of the metadata, `None` when `ss_tag_frequency` is absent or malformed |
| Header.ExtractMetadata | backend.py:58-93 | the reader returns the trigger and tags that the header-level specification gives for the file |
| Header.NoMetadataCases | backend.py:62-67 | a missing file, fewer than 8 prefix bytes, a length above 100,000,000 or an unparsable header all give `(None, None)` |
| Header.TriggerIsFirstTruthyKey | backend.py:85-89 | the trigger is the value of the first key, in the given order, whose value is truthy, and `None` when there is none |
| Header.TriggerKeysAgree | backend.py:85-89 | the trigger search never looks at `ss_tag_frequency` |
| Header.MalformedTagsKeepTrigger | backend.py:76-89 | a malformed `ss_tag_frequency` leaves tags `None` and the trigger as if the entry were absent |
| Header.TagsAreFirstFiftySorted | backend.py:82 | the kept tags are strictly sorted, min(50, n) of them, drawn from the names (all of them when at most 50), and every dropped name sorts after every kept one |
| Header.SortedLength | backend.py:82 | a strictly sorted list has as many distinct names as entries |
| Architecture.AnyContainsAt | backend.py:101 | `any(needle in k ...)` holds exactly when some key contains the needle |
| Architecture.AnyContainsLowered | backend.py:101 | the test on lowered keys holds exactly when some key's lowered form contains the needle |
| Architecture.CascadeTest | backend.py:101-102 | the Stable Cascade test holds exactly when a key contains "cascade" or "effnet", ignoring case |
| Architecture.PonyTest | backend.py:103-104 | the Pony test holds exactly when a key contains "pony", ignoring case |
| Architecture.FluxTest | backend.py:105-108 | the Flux test holds exactly when the exact joint-block key is present (compared case-sensitively) or a lowered key contains "double_blocks"/"single_blocks" |
| Architecture.SdxlTest | backend.py:109-110 | the SDXL test is a case-sensitive substring test on the down-block marker |
| Architecture.Sd1xTest | backend.py:111-112 | the SD 1.x/2.x test is a case-sensitive substring test on the text-model marker |
| Architecture.FirstMatchOfPriority | backend.py:101-114 | the first match over the priority list is the if-chain over the five families, else Unknown |
| Architecture.DetectIsFirstMatch | backend.py:96-114 | the classifier returns the first family in priority order whose test matches |
| Architecture.FirstMatchWins | backend.py:96-114 | the first match is Unknown exactly when no candidate matches, and otherwise is a matching candidate with no matching candidate before it |
| Architecture.ResultIsOneOfSixLabels | backend.py:96-114 | the label is one of six fixed strings, and an empty key list gives Unknown |
| Architecture.CascadeDominates | backend.py:101-102 | any key containing "cascade" or "effnet" gives Stable Cascade, whatever other keys are present |
| Records.Upsert | backend.py:254-261 | `INSERT OR REPLACE` stores the row under its id, drops any other row holding the same path and leaves every other row as it was |
| Records.UpsertKeepsPathsUnique | backend.py:254-286 | an upsert keeps paths unique across the catalog |
| Scanning.KindsWalkMembers | backend.py:142-148 | a file is visited under a kind exactly when the kind is scanned and the file is in that kind's folder |
| Scanning.WalkIsFolderByFolder | backend.py:142-148 | a file is visited under a kind exactly when it lies in that kind's folder and the folder exists |
| Scanning.Prune | backend.py:317-324 | the pruned catalog keeps exactly the rows whose path was walked, unchanged |
| Scanning.PruneKeepsPathsUnique | backend.py:317-324 | pruning keeps paths unique |
| Scanning.StepKeepsPathsUnique | backend.py:177-311 | processing one file keeps paths unique |
| Scanning.FastPathViewIsListedView | backend.py:194-221 | the fast-path record is what the listing would show for the stored row at the walked path and size |
| Scanning.SlowPathViewIsListedView | backend.py:288-311 | the slow-path record is what the listing would show for the upserted row |
| Scanning.FastPathReusesStoredRow | backend.py:177-222 | the fast path ignores extraction, changes only that row (backfilling an empty local name from the file stem) and reports the stored tiers |
| Scanning.SlowPathRefreshesLocalKeepsRemote | backend.py:224-286 | the slow path refreshes the local tier from the file, carries the remote tier and hash over, keeps legacy columns equal to the merged values, and touches no other row except one holding the same path |
| Scanning.StepsScanned | backend.py:153-154 | the walked set holds exactly the paths of the recognised files, including those whose processing failed |
| Scanning.ScanKeepsExactlyWalkedPaths | backend.py:317-324 | after a scan the catalog holds exactly the rows whose path was walked |
| Scanning.UntouchedRowKept | backend.py:254-286 | a row whose id and path no walked file shares goes through the loop unchanged |
| Scanning.FailedFileKeepsItsRow | backend.py:153-156 | a file whose stat fails is still in the walked set, so its stored row survives the prune unchanged |
| Scanning.StepCarriesRemote | backend.py:237-248 | after one file, every row's remote tier and hash are the ones stored before the scan or empty |
| Scanning.StepsCarryRemote | backend.py:237-248 | the scan loop never invents remote metadata or hashes |
| Scanning.ScanNeverWritesRemote | backend.py:224-286 | after a scan, every row's remote tier and hash come from the old catalog or are empty |
| Scanning.StatOfShortFile | backend.py:32-93 | a snapshot entry for a file that cannot be opened or is shorter than 0x10000 bytes has the path-based id; one without an 8-byte prefix has no trigger and no tags |
| Scanning.RescanStepKeepsRemote | backend.py:177-248 | one step, forced or not, keeps a row with its remote tier and hash when only that row's id is read at its path |
| Scanning.RescanStepsKeepRemote | backend.py:177-248 | the scan loop keeps such a row with its remote tier and hash, at its old path or a walked path read with its id |
| Scanning.RescanKeepsRemoteMetadata | backend.py:177-324 | a rescan, forced or not, keeps any row whose file is still walked, with its remote tier and hash, whatever new or copied files the walk also meets |
| Scanning.ForcedSkipStep | backend.py:150-158 | under a forced scan, a skipped or unreadable file changes no row |
| Scanning.ForcedReadStep | backend.py:224-286 | under a forced scan, a readable file's row is rebuilt from it with its own remote tier and hash, and only the row at its path is displaced |
| Scanning.ForcedSteps | backend.py:142-315 | after a forced scan loop every id read is stored as its last file rebuilt, and every other row is an old row no readable file displaced |
| Scanning.RescanReadRowAgain | backend.py:126-329 | a second forced scan rebuilds a row that has a readable file exactly as the first did, up to the scan time |
| Scanning.RescanUnreadRowAgain | backend.py:126-329 | a second forced scan keeps or drops, unchanged, every row that has no readable file |
| Scanning.ForcedRescanIsIdempotent | backend.py:126-329 | two forced scans of an unchanged file system in a row give the same ids, paths, fields and records; only scan times differ |
| Scanning.FreshStep | backend.py:250-311 | a new file at a new path adds exactly its fresh row and reports it |
| Scanning.FreshRowsFromFiles | backend.py:254-286 | every fresh row comes from a walked file at that file's path |
| Scanning.FreshRowsCount | backend.py:254-286 | distinct files give as many fresh rows as files |
| Scanning.FreshRowsAt | backend.py:254-286 | each distinct file has its row, with its folder's kind and its path |
| Scanning.FreshStepsAreFreshRows | backend.py:142-311 | scanning distinct readable files into an empty catalog gives one fresh row per file and reports every file |
| Scanning.FreshStepAfter | backend.py:142-311 | one more distinct file adds its fresh row and one reported record |
| Scanning.FreshScanOneRowPerFile | backend.py:142-326 | a first scan of n distinct model files leaves n rows, one per file with its kind and path, and reports n records |
| Scanning.PruneKeepsScannedRows | backend.py:317-324 | when every path was walked, the prune deletes nothing |
| Scanning.EmittedFromVisits | backend.py:198-200 | each reported record carries the kind and path of a recognised walked file |
| Scanning.EmittedKindIsFolderKind | backend.py:142-200 | every reported record's type is the kind whose folder holds the file at its path |
| Scanning.MovedUnchangedFileLeavesCatalog | backend.py:177-222 | a moved but unmodified file is reported under its new path, yet the prune removes its row |
| Listing.SectionRankIsTypeOrder | backend.py:391 | section order agrees with the binary order of the `type` text |
| Listing.NameLeTotal | backend.py:391 | any two names compare under NOCASE, with NULL first |
| Listing.NameLeTransitive | backend.py:391 | the NOCASE name order is transitive |
| Listing.RowLeTotal | backend.py:391 | any two rows can be ordered |
| Listing.RowLeTransitive | backend.py:391 | the row order is transitive |
| Listing.ListingLeIsTotalPreorder | backend.py:391 | the listing order is a total preorder on the catalog's ids |
| Listing.InsertInOrder | backend.py:384-392 | inserting an id into a sorted id list keeps it sorted and adds exactly that id |
| Listing.SortedAfterInsert | backend.py:384-392 | placing an id after every id that may precede it and before the rest keeps the list sorted |
| Listing.QueryOrder | backend.py:384-392 | the ids come out in an order the query may return, each id once |
| Listing.NoRepeats | backend.py:394-395 | a list holding a set's elements once each repeats none |
| Listing.ListingCoversCatalog | backend.py:394-419 | a listing holds one record per row, shows each row's merged fields, and repeats no id |
| Listing.ListingSectionsInOrder | backend.py:391 | sections never interleave: checkpoints, then diffusion models, then embeddings, then LoRAs |
| RemoteUpdates.Field | backend.py:461-469 | a remote field is `None` or non-empty, never the empty string |
| RemoteUpdates.FieldOr | backend.py:465 | a field with an alternative key is `None` or non-empty |
| RemoteUpdates.ApplyOneKeepsLocalState | backend.py:441-531 | an item raises exactly when its id is truthy, it is not a not-found marker and its data is not a dictionary; otherwise it never changes keys, files, hash or local tiers |
| RemoteUpdates.NotFoundOnlyStampsCheckTime | backend.py:451-459 | a not-found marker for a known model changes only that row's check time |
| RemoteUpdates.RefreshKeepsLegacyInSync | backend.py:471-528 | an update replaces the remote tier, keeps the local tier and stores the merged values as the legacy columns; for each of name, trigger and tags a reader then sees the new remote value when non-empty, else the local value when non-empty, else the old legacy value |
| RemoteUpdates.RemoteValuesNeverEmpty | backend.py:461-469 | stored remote values are never empty strings; the first of two alternative keys wins when non-empty; the check time is the batch time |
| RemoteUpdates.BatchFailsIffAnItemRaises | backend.py:437-541 | the batch fails exactly when some item raises; on success no local state changes |
| RemoteUpdates.CountIsKnownItems | backend.py:440-531 | `updated_count` is the number of items whose truthy id names a model |
| RemoteUpdates.FailureIsFinal | backend.py:437-541 | once an item raises, the batch fails whatever follows |
| Catalogs.RehashWritesOnlyReportedHashes | backend.py:557-584 | hashing changes only hash columns, and only for ids reported with that hash; every reported hash is stored |
| Catalogs.RehashKeepsPathsUnique | backend.py:578 | storing hashes keeps paths unique |
| Catalogs.HashErrorsAreExactlyTheFailures | backend.py:562-582 | an id gets an error exactly when it is unknown, its file is missing or hashing fails; a reported hash is never empty |
| Catalogs.DeleteOneMorePath | backend.py:323-324 | deleting one more path removes exactly the rows at that path |
| Catalogs.UnseenPathsArePruned | backend.py:318-324 | deleting the stored paths that were not walked equals pruning to the walked paths |
| Catalogs.RehashStep | backend.py:557-582 | one more id stores its hash when hashing succeeds, and appends its outcome to the results |
| Catalogs.DeletePaths | backend.py:322-324 | the delete loop removes exactly the rows whose path is in the set |
| Catalogs.Catalog.Scan | backend.py:126-329 | the scan leaves the catalog pruned to the walked paths after processing every file in walk order, returns the records reported, and keeps paths unique |
| Catalogs.Catalog.PruneUnseen | backend.py:317-326 | the catalog keeps exactly the rows whose path was walked |
| Catalogs.Catalog.Listing | backend.py:382-419 | the result is a listing of the catalog: each row once, in query order, with merged fields |
| Catalogs.Catalog.List | backend.py:359-425 | an empty catalog triggers an initial scan and is flagged; otherwise the catalog is unchanged and listed |
| Catalogs.Catalog.UpdateRemote | backend.py:429-541 | a missing batch is rejected; a raising item rolls the whole batch back; otherwise every item is applied in order and counted |
| Catalogs.Catalog.ComputeFullHash | backend.py:543-591 | missing ids are rejected; otherwise one outcome per id in input order, storing only the successful hashes |
| Catalogs.Catalog.SaveSettings | backend.py:608-631 | an empty stripped path and a path that is not a directory are rejected with the source's messages and change nothing; otherwise the path is saved and every model row is deleted |

## Left out

- HTTP transport is not modelled: routing, reading `request.json`, JSON responses, status codes and the HTML page. The `POST /scan` wrapper only forwards the `force` flag to `Catalog.Scan`.
- The SQLite connection, the WAL and synchronous pragmas, the lock timeout and any concurrency are left out. The catalog is an in-memory map committed at once.
- The SHA-256 and MD5 digests, the UTF-8 decode with `errors='ignore'` and `json.loads` are uninterpreted function parameters.
- The streaming of the full-file hash is not modelled. It is a parameter returning the hex digest or nothing, and file existence is a parameter too.
- `os.walk`, `os.stat`, `os.path.exists` and `os.path.isdir` are not modelled directly. The file system is a snapshot: per kind folder, the walked files with their stat result, their id and their extracted header metadata.
  - Only a failed stat is modelled as a per-file exception.
  - Paths are joined POSIX-style.
- Scanning.Step: takes each file's id and extracted metadata from the snapshot instead of reading the file. `Scanning.StatOfFile` ties an entry to `Fingerprint.FastModelId` and `Header.SafetensorsMetadata` when the snapshot satisfies `Scanning.FaithfulSnapshot`. The scan does not require that.
- Scanning.Step: handles only a stored trigger that is a JSON string or absent. Other truthy trigger values are not modelled. A number or boolean would be stored as it is. A list or object would make the INSERT raise the per-file exception.
- `time.time()` is one timestamp per request. The remote update reads the clock once per item, so items of one batch may get different check times.
- `BASE_MODELS_PATH` / `get_models_path`: the models root is an input. The environment default of config.py:8 is not modelled, and `get_models_path` is not part of this model because its definition is not in config.py.
- `GET /settings` and the directory auto-detection endpoint are not modelled. They read only settings or the host's directories.
- Strings.Lower / Architecture.LowerAll: fold ASCII letters only, and so does the NOCASE comparison in `Listing`. Python's `str.lower` folds all of Unicode. For example, the Kelvin sign U+212A lowers to ASCII `k`, so `x.C\u212APT` is a `.ckpt` file to the source but not to the model.
- JSON values in update items are taken as strings or null. Non-string values in `civitaiData`, a non-dictionary update item, and non-string ids in `modelIds` are not modelled.
- A non-JSON body to the settings endpoint is not modelled. Nor is a `models_path` that is not a string: `null` or a number makes `.strip()` raise `AttributeError`, an uncaught error. The model takes the raw path as a string. Floating-point JSON numbers are not modelled either.
- Catalogs.Catalog.UpdateRemote: assumes that an UPDATE naming an existing id always reports a positive row count.
- Listing.QueryOrder: leaves the order of rows that tie on type and name unspecified, as SQLite does. It does not pin down the order SQLite would pick.
