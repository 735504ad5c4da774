# gitmodel persistence core in Dafny

A model of the persistence layer of gitmodel, a Ruby library that stores
ActiveModel-style records in a git repository through Grit. Each record of a
model class lives in the directory `db_subdir/id` of a branch's tree:

- `attributes.json` holds its attribute hash;
- any further blobs and subtrees hold its payload, the `tree` of `TreeContents`.

The model covers these parts:

- **Payload trees (`TreeContents`).** The `tree` memo, `tree=` with a hash or with Grit nodes (`hash_from_git`), and `paths`.
- **Records (`Persistable`).**
  - `initialize`, the `attributes=` writer, the `id`, `path` and `branch` memos;
  - the accessors that `attribute`, `blob` and `tree` declare;
  - `exists?`, `save`, `save!`, `load`, `reload`, `find`;
  - `delete`, `delete_all`, and their tombstones (`delete_tree`, `build_tree_hash`), in `Tombstones`.
- **The query engine (`Query`).** `find_all` with its control keys, id and index filters, intersection, ordering by id and limit, `all_values_for_attr`, and the cache key `format_conditions_hash_for_cache_key`.
- **Relations (`Relations`).**
  - the reflections of `belongs_to` (To), `has_one` (One) and `has_many` (Many), with their default target class, inverse and foreign key;
  - the registry that `relate` fills;
  - per-record proxy memoisation and `reset_proxies`;
  - the To and One proxies' `get`, `set` and `replace`, on a heap of record objects.

The collaborators whose code is not part of this model are modelled as follows:

- **`GitModel::Transaction`** and Grit's index (`Transaction`):
  - a staged nested hash;
  - `Index#add` along path segments;
  - `write_tree`: a string writes a blob, `false` deletes an existing blob, a hash recurses into the subtree of that name (a new one when there is none), and anything else is ignored (the rule in the comment at `lib/gitmodel/persistable.rb:117-120`);
  - `execute`, which commits, or gives a falsy result when the tree does not change.
- **The store (`Store`).** A map from branch to the root contents of its tip, with Grit's `Tree#/` lookup.
- **`GitModel::Index`.** A `generated` flag plus, for each attribute, a list of (value, ids) buckets.
- **`GitModel.cache`.** The identity: every read recomputes.

Other modelling choices:

- **Hashes.** Ruby hashes are ordered association lists (`Hashes`), so iteration order, "a key keeps its first position" and "last write wins" are explicit.
- **Errors.** Every raise is an `Error` value:
  - GitModel's own exceptions keep their names;
  - a `NoMethodError` on `nil`, a `TypeError` or a `NameError` is `RuntimeFault`;
  - a write to a frozen record's instance variables is `FrozenRecord`.
- **Partial effects.** Operations that change some state before raising return that state with the error: `Loaded`, `Step`.
- **Reload.** `reload` is modelled as `load` followed by `reset_proxies` (`Relations.ReloadObject`). The integration tests expect reloading to forget unsaved associations (`spec/gitmodel/persistable_spec.rb:331-336`, `spec/gitmodel/integration/relations/one_spec.rb:55-60`). The hook that calls `reset_proxies` from `reload` is not in `lib/gitmodel/persistable.rb:148-151`, which only calls `load`. `Persistable.ReloadAsWritten` is that `load` alone, and `Persistable.Reload` is the same with the corrected load.
- **As written and as intended.** Where the code raises an error its authors evidently did not mean (see "## Findings"), the model has both versions. `find`, `reload` and `find_all` each come in both: `FindAsWritten`, `ReloadAsWritten` and `FindAllAsWritten` follow the code, while `Find`, `Reload` and `FindAll` use the corrected load. The relation layer uses the corrected ones.

## Model

| member | source | states |
|---|---|---|
| TreeContents.Paths | lib/gitmodel/tree_contents.rb:44-55 | `paths` never yields a hash: hashes, empty ones included, are descended into |
| TreeContents.PathsRender | lib/gitmodel/tree_contents.rb:44-55 | each yielded path is `File.join` of the prefix and the key segments leading to a leaf, in depth-first hash order, and the value is yielded unchanged (`false` included) |
| TreeContents.LeavesSound | lib/gitmodel/tree_contents.rb:44-55 | every (segments, value) pair `paths` reports is found at those keys in the payload |
| TreeContents.LeavesComplete | lib/gitmodel/tree_contents.rb:44-55 | every non-hash value reachable by a key path is reported at that path |
| TreeContents.LeavesDistinct | lib/gitmodel/tree_contents.rb:44-55 | no leaf is yielded twice: the reported key paths are pairwise different |
| TreeContents.LeavesValid | lib/gitmodel/tree_contents.rb:47 | with separator-free keys, every segment of every yielded path is a single path name |
| TreeContents.AssignTree | lib/gitmodel/tree_contents.rb:26-35 | `tree=` with a hash that binds each key once stores exactly that hash; with anything other than a hash or an array it stores an empty hash (no InvalidTreeContents is raised); the result always binds each key once at every level |
| TreeContents.ConvertUniqueIf | lib/gitmodel/tree_contents.rb:27 | `HashWithIndifferentAccess.new` always yields unique keys, and leaves an already unique hash unchanged |
| TreeContents.HashFromGitNodes | lib/gitmodel/tree_contents.rb:61-74 | reading back the Grit nodes a storable payload is saved as (blob to data, subtree to nested hash) gives the same payload |
| TreeContents.AssignTreeNodes | lib/gitmodel/tree_contents.rb:29-30 | `tree=` with the saved nodes of a payload restores that payload |
| TreeContents.ChildNodes | lib/gitmodel/tree_contents.rb:64-69 | a string stored under a key is saved as the blob of that name |
| Persistable.TreeOf | lib/gitmodel/tree_contents.rb:11-13 | the `tree` reader returns the memo when there is one; otherwise it stores a new empty hash as the memo and returns it, which raises FrozenRecord on a frozen record; nothing but the memo changes |
| Persistable.TreeOfMemoised | lib/gitmodel/tree_contents.rb:11-13 | `@tree ||=` makes the hash once: a second read returns the same record and hash as the first |
| Persistable.AttributeGet | lib/gitmodel/persistable.rb:207 | the `attribute` reader returns the stored value when it is truthy and the declared default otherwise; its partners AttributeSetGet and AttributeSetOther relate it to the writer |
| Persistable.AttributeSetGet | lib/gitmodel/persistable.rb:207-208 | reading an attribute after writing it gives the value written, or the declared default when `nil` or `false` was written |
| Persistable.AttributeSetOther | lib/gitmodel/persistable.rb:207-208 | writing one attribute leaves the reader of every other attribute unchanged |
| Persistable.AttributeSet | lib/gitmodel/persistable.rb:208 | the `attribute` writer assigns that key of the attribute hash and changes nothing else |
| Persistable.BlobGet | lib/gitmodel/persistable.rb:214 | the `blob` reader is `tree[name]`, and fails exactly when reading `tree` fails |
| Persistable.BlobSet | lib/gitmodel/persistable.rb:215 | the `blob`/`tree` writer binds the converted value under the name, keeps every other key of `tree`, and touches nothing but the tree |
| Persistable.TreeFieldGet | lib/gitmodel/persistable.rb:221 | the `tree` field reader returns a truthy value that is then bound in `tree`, storing an empty hash when the value was falsy |
| Persistable.BlobSetGet | lib/gitmodel/persistable.rb:214-215 | reading a blob after writing it gives back the written value, converted as `tree[]=` converts it, from the record the write returned |
| Persistable.BlobSetOther | lib/gitmodel/persistable.rb:214-215 | writing one blob leaves the reader of every other name returning what it returned before |
| Persistable.TreeFieldSetGet | lib/gitmodel/persistable.rb:221-222 | reading a tree field after assigning it a hash gives that hash back, converted, and stores nothing more |
| Persistable.TreeFieldGetTwice | lib/gitmodel/persistable.rb:221 | reading a tree field twice gives the same hash and record: the first read stored the empty hash it made |
| Persistable.FieldNamed | lib/gitmodel/persistable.rb:204-224 | the declaration behind an accessor name is one with that name, and there is none exactly when no declaration has that name |
| Persistable.Send | lib/gitmodel/persistable.rb:31-33 | each `name=` argument of `new` writes its own state (`id=`, `attributes=` replacing the hash, `tree=`), raises on a frozen record, raises NoMethodError for a name with no declared field, and never changes new_record, path or branch |
| Persistable.New | lib/gitmodel/persistable.rb:27-35 | `new` starts a new, unfrozen record with an empty attribute hash and no path or branch memo |
| Persistable.PathOf | lib/gitmodel/persistable.rb:62-64 | `path` is the memo if set, else `subdir/id` remembered; without an id `File.join` raises |
| Persistable.BranchOf | lib/gitmodel/persistable.rb:71-73 | `branch` is the memo if set, else the default branch remembered |
| Persistable.Exists | lib/gitmodel/persistable.rb:237-243 | `exists?` is false without commits and raises for an unknown branch; ExistsReads ties it to the record directory that save writes and load reads |
| Persistable.ExistsReads | lib/gitmodel/persistable.rb:237-243 | on a repository with commits, `exists?` is true exactly when the record's directory `subdir/id` on the branch is a tree holding an `attributes.json` node |
| Persistable.SaveThenExists | lib/gitmodel/persistable.rb:237-243 | after a first save commits, `exists?` of the saved id on that branch is true |
| Persistable.DeleteThenExists | lib/gitmodel/persistable.rb:237-243 | after `Model.delete` of a stored record, `exists?` of its id on that branch is false |
| Persistable.SaveCheck | lib/gitmodel/persistable.rb:102-108 | save checks, in order: NullId without an id, RecordExists for a new record that exists on the default branch, RecordDoesntExist for a persisted one that does not; it passes exactly when existence matches `!new_record` |
| Persistable.SaveLeaves | lib/gitmodel/persistable.rb:121-126 | what save stages ends with `dir/attributes.json` holding the encoded attributes, after every path of the payload; SaveLeavesRender and SaveStagingShape give the index it builds |
| Persistable.SaveLeavesRender | lib/gitmodel/persistable.rb:121-126 | the paths save stages are the payload's leaves, each joined below the directory, followed by `attributes.json` with the encoded attributes |
| Persistable.SaveWrite | lib/gitmodel/persistable.rb:112-135 | after a commit the record has path `subdir/id`, the transaction's branch and is no longer new; after a falsy result its branch and new_record flag are unchanged; id, attributes and frozenness never change |
| Persistable.Save | lib/gitmodel/persistable.rb:100-137 | a failing check raises before anything is written; a successful save passed the checks and has the effects of SaveWrite |
| Persistable.SaveBang | lib/gitmodel/persistable.rb:140-142 | `save!` raises RecordNotSaved exactly when `save` raises it or returns a falsy result, and otherwise returns what `save` returns |
| Persistable.LoadWith | lib/gitmodel/persistable.rb:165-195 | load sets path (with `..` removed) and branch before its checks; RecordNotFound without commits on the branch; id and new_record set before the directory check; RecordNotFound for a missing directory; a successful load has a tree without `attributes.json`; a frozen record raises at once |
| Persistable.LoadAsWritten | lib/gitmodel/persistable.rb:186-187 | a record directory without `attributes.json` makes load call `data` on nil, a NoMethodError |
| Persistable.Load | lib/gitmodel/persistable.rb:183-187 | as intended, a record directory without `attributes.json` raises RecordNotFound |
| Persistable.LoadAgrees | lib/gitmodel/persistable.rb:183-187 | both loads leave the same state and differ only in that one error |
| Persistable.RejectKeeps | lib/gitmodel/persistable.rb:190 | the nodes kept after dropping `attributes.json` are exactly the directory's other nodes |
| Persistable.RejectAbsent | lib/gitmodel/persistable.rb:190-191 | the loaded tree never binds `attributes.json` |
| Persistable.FindWith | lib/gitmodel/persistable.rb:226-235 | `find` loads `subdir/id` into a new record: it succeeds exactly when that load succeeds, returns the loaded record, and otherwise raises what the load raises |
| Persistable.FindAsWritten | lib/gitmodel/persistable.rb:226-235 | as written, `find` returns the record the as-written load reads and raises what it raises |
| Persistable.Find | lib/gitmodel/persistable.rb:226-235 | as intended, `find` returns the record the corrected load reads and raises what it raises |
| Persistable.ReloadWith | lib/gitmodel/persistable.rb:148-151 | `reload` raises without path or id; with both memos it is exactly `load(path, branch)`; without a branch memo it remembers the default branch first, which raises on a frozen record |
| Persistable.ReloadAsWritten | lib/gitmodel/persistable.rb:148-151 | as written, `reload` with both memos is exactly the as-written `load(path, branch)` |
| Persistable.Reload | lib/gitmodel/persistable.rb:148-151 | as intended, `reload` with both memos is exactly the corrected `load(path, branch)` |
| Persistable.DeleteRecord | lib/gitmodel/persistable.rb:153-156 | `record.delete` freezes the record first, then deletes `subdir/id`, raising without an id; DeleteRecordRemoves states the effect on `exists?` |
| Persistable.DeleteRecordRemoves | lib/gitmodel/persistable.rb:153-156 | `record.delete` of a stored record freezes it and changes nothing else, so a later write raises FrozenRecord; the delete succeeds and `exists?` then reports the record gone |
| Persistable.SaveStagingShape | lib/gitmodel/persistable.rb:112-126 | the index a save builds holds exactly the payload plus the attributes blob, below `subdir/id` |
| Persistable.SaveExecutes | lib/gitmodel/persistable.rb:112-127 | a fresh record that passes the checks commits exactly that index |
| Persistable.SaveCommits | lib/gitmodel/persistable.rb:100-137 | a first save of a fresh record commits, and the record's directory then holds the payload nodes plus `attributes.json` |
| Persistable.LoadSaved | lib/gitmodel/persistable.rb:182-191 | loading a directory written by save gives the saved id, path, branch, decoded attributes and the payload without `attributes.json` |
| Persistable.SaveThenFind | lib/gitmodel/persistable.rb:226-235 | after a first save, `find` of its id returns the saved state; attributes without symbols come back unchanged |
| Persistable.SaveThenReload | lib/gitmodel/persistable.rb:148-151 | after a save, unsaved changes to attributes and tree are discarded by `reload` |
| Persistable.DeletedLoadAsWritten | lib/gitmodel/persistable.rb:186-187 | as written, loading a record after `delete` raises NoMethodError |
| Persistable.DeletedLoad | lib/gitmodel/persistable.rb:183 | as intended, loading a record after `delete` raises RecordNotFound |
| Persistable.DeletedDir | lib/gitmodel/persistable.rb:389-392 | after `delete` the record's path still names a directory, which has no `attributes.json` |
| Persistable.DeletedFindAsWritten | lib/gitmodel/persistable.rb:186-187 | as written, after `delete`, `find` of the id raises NoMethodError, and so does `reload` of another instance of the record |
| Persistable.DeletedFind | lib/gitmodel/persistable.rb:183 | as intended, after `delete` both raise RecordNotFound |
| Tombstones.BuildTreeHashEmpty | lib/gitmodel/persistable.rb:403-412 | from an empty hash, `build_tree_hash` gives `false` for every blob, then an entry for every subtree, in tree order |
| Tombstones.StripNoBlobs | lib/gitmodel/persistable.rb:403-412 | the tree a tombstone leaves holds no blob at any depth |
| Tombstones.DeleteSubtree | lib/gitmodel/persistable.rb:403-412 | writing the tombstone of a well-formed tree over it removes every blob at every depth and keeps every subtree |
| Tombstones.WriteBlobMarks | lib/gitmodel/persistable.rb:404-406 | writing `false` for each blob name deletes exactly the blobs of those names |
| Tombstones.DeleteTree | lib/gitmodel/persistable.rb:389-400 | `delete_tree` stages, below the path's segments, the tombstone of the tree found there; it raises when the branch has no commits or the path is not a tree |
| Tombstones.Delete | lib/gitmodel/persistable.rb:362-370 | `Model.delete(id)` runs the tombstone of `subdir/id`, and succeeds exactly when that staging succeeds |
| Tombstones.DeleteAll | lib/gitmodel/persistable.rb:372-379 | `delete_all` runs the tombstone of the whole type directory, and succeeds exactly when that staging succeeds |
| Tombstones.DeleteRemovesBlobs | lib/gitmodel/persistable.rb:362-370 | deleting a stored record leaves its directory holding no blob at any depth |
| Tombstones.DeleteAllRemovesBlobs | lib/gitmodel/persistable.rb:372-379 | `delete_all` leaves the type's directory holding no blob at any depth |
| Tombstones.DeleteKeepsOthers | lib/gitmodel/persistable.rb:362-370 | deleting a record changes no other top-level directory and no other record of its type |
| Transaction.AddAt | lib/gitmodel/persistable.rb:122 | `index.add` along key segments binds the value at that key path and changes no other top-level key |
| Transaction.Add | lib/gitmodel/persistable.rb:122 | `index.add(path, data)` binds the data at the segments of the path |
| Transaction.Upsert | lib/gitmodel/persistable.rb:117-120 | writing a node replaces or adds the node of that name and keeps every other name |
| Transaction.RemoveBlob | lib/gitmodel/persistable.rb:117-120 | a staged `false` deletes the blob of that name and keeps everything else, a subtree of that name included |
| Transaction.StageLeaves | lib/gitmodel/persistable.rb:121-123 | staging the leaves of a storable payload rebuilds that payload in the index |
| Transaction.WriteTreeFresh | lib/gitmodel/persistable.rb:117-120 | writing a storable payload where none of its names exist appends its nodes |
| Transaction.Execute | lib/gitmodel/persistable.rb:115-129 | a transaction commits the written tree on its branch only, and gives a falsy result exactly when the tree is unchanged |
| Transaction.ExecuteAfter | lib/gitmodel/persistable.rb:115-129 | whether or not a commit is made, the branch then holds the written tree and every other branch is unchanged |
| Store.CurrentTree | lib/gitmodel/persistable.rb:174 | `current_tree` is nil exactly when the branch has no commits |
| Store.Child | lib/gitmodel/persistable.rb:186 | a name lookup finds a node of that name in the tree, and finds one whenever there is one |
| Store.SlashJoin | lib/gitmodel/persistable.rb:182 | looking up `subdir/id` walks the two segments |
| FilePaths.Join | lib/gitmodel/tree_contents.rb:47 | `File.join` of two parts has exactly one `/` between them: it adds one, keeps a trailing one of the first part, or drops the first part's trailing ones when the second starts with one |
| FilePaths.FieldsJoin | lib/gitmodel/persistable.rb:394 | splitting a join at `/` gives the first part's fields, less the empty one a trailing `/` leaves, then the second part's |
| FilePaths.SplitJoinAll | lib/gitmodel/persistable.rb:394 | `split('/')` of a path built with `File.join` from path names gives the prefix's fields, less the empty one a trailing `/` leaves, followed by those names |
| FilePaths.BasenameJoin | lib/gitmodel/persistable.rb:176 | the basename of `subdir/id` is the id |
| FilePaths.StripDotDotLeavesNone | lib/gitmodel/persistable.rb:169 | removing `..` leaves no `..` behind |
| FilePaths.StripDotDotIdempotent | lib/gitmodel/persistable.rb:169 | removing `..` twice is removing it once |
| FilePaths.StripDotDotClean | lib/gitmodel/persistable.rb:169 | a path without `..` is left as it is |
| Values.Encode | lib/gitmodel/persistable.rb:126 | the attributes blob binds the same keys, with symbols written as their names |
| Values.Decode | lib/gitmodel/persistable.rb:187 | parsing succeeds exactly on an encoded attribute document, and otherwise raises a parse error |
| Values.DecodeEncode | lib/gitmodel/persistable.rb:126 | decoding the encoded attributes succeeds, gives a symbol-free hash, and gives the same hash back when it held no symbols |
| Ordering.Sort | lib/gitmodel/persistable.rb:317-320 | sorting ids yields a permutation of them, ordered in the requested direction |
| Ordering.SortedUnique | lib/gitmodel/persistable.rb:317-320 | a sorted arrangement of ids is unique, so the unstable sort's result is determined |
| Ordering.SortDescReversesAsc | lib/gitmodel/persistable.rb:317-320 | the descending block gives the ascending order reversed |
| Query.AllValuesForAttr | lib/gitmodel/persistable.rb:337-340 | `all_values_for_attr` lists the indexed values of the attribute in bucket order, and nothing for an unindexed attribute |
| Query.AllValuesFound | lib/gitmodel/persistable.rb:337-340 | a value is listed exactly when a literal filter on it finds a bucket |
| Query.Lookup | lib/gitmodel/persistable.rb:293 | `attr_index[v]` returns the ids of a bucket for `v`, and there is one exactly when some bucket holds `v` |
| Query.Selected | lib/gitmodel/persistable.rb:288-291 | a block filter admits exactly the ids of the buckets whose value satisfies it |
| Query.LiteralIsEqualityBlock | lib/gitmodel/persistable.rb:288-293 | with one bucket per value, a literal filter selects what the equality block selects |
| Query.Listed | lib/gitmodel/persistable.rb:267-270 | the listing holds exactly the subtrees that hold a blob directly and pass the test |
| Query.Subdir | lib/gitmodel/persistable.rb:267 | the type directory's contents; as written a missing directory raises, as intended it lists nothing |
| Query.CondIds | lib/gitmodel/persistable.rb:275-295 | an `id` filter reads the listing (a block filters it, a literal checks the record path) without the index; any other filter raises IndexRequired unless the index is generated, raises NoMethodError for an attribute the index has never seen, and otherwise takes the literal's bucket or the block's selection |
| Query.CondIdsAll | lib/gitmodel/persistable.rb:273-296 | the filters are evaluated in hash order, succeed exactly when each succeeds, and the first one's error is raised first |
| Query.Amp | lib/gitmodel/persistable.rb:297 | Ruby's `&` keeps exactly the ids in both lists, once each |
| Query.Meet | lib/gitmodel/persistable.rb:297 | the filters combine by intersection: an id matches exactly when every filter admits it |
| Query.MatchingIds | lib/gitmodel/persistable.rb:265-298 | without filters the matches are exactly the populated record directories; with filters they are the intersection of the filters' ids |
| Query.BranchArg | lib/gitmodel/persistable.rb:252 | the branch condition, or the default branch when it is absent or falsy |
| Query.PlanOf | lib/gitmodel/persistable.rb:252-263 | the control keys `branch`, `cache_key`, `order`, `order_by` and `limit` are taken out, and exactly the other conditions remain as filters |
| Query.FiltersEmpty | lib/gitmodel/persistable.rb:261-266 | a query is unfiltered exactly when it holds nothing but control keys |
| Query.DirectionOf | lib/gitmodel/persistable.rb:317-323 | the order is ascending for a missing or falsy order or `:asc`, descending for `:desc`, and anything else raises InvalidParams |
| Query.Limit | lib/gitmodel/persistable.rb:324-327 | no limit keeps everything; a count keeps a prefix of length min(limit, n); anything else raises |
| Query.IdsInOrder | lib/gitmodel/persistable.rb:316-327 | ordering by id sorts the ids in the requested direction, then keeps a prefix of min(limit, n) of them; without a limit it keeps every id |
| Query.FindEach | lib/gitmodel/persistable.rb:328 | the ids are loaded in order with `find`, through the given load; each id gives the record `find` returns; the first failing load raises |
| Query.FindAllWith | lib/gitmodel/persistable.rb:251-335 | `find_all` on a branch without commits gives no records; otherwise it loads the ids MatchingIds gives, in IdsInOrder's order (as written from the default branch with the as-written load; as intended from the queried branch with the corrected load) |
| Query.FindAllAsWritten | lib/gitmodel/persistable.rb:257-259 | `find_all` as written returns no records on a branch without commits, and loads each match with the as-written `find` |
| Query.FindAll | lib/gitmodel/persistable.rb:257-259 | `find_all` as intended returns no records on a branch without commits |
| Query.FindAllBranch | lib/gitmodel/persistable.rb:328 | every record an id-ordered query returns was loaded from the default branch as written, from the queried branch as intended |
| Query.NoIndexRaises | lib/gitmodel/persistable.rb:286 | a non-id filter reached first, without a generated index, raises IndexRequired |
| Query.UnindexedAttributeRaises | lib/gitmodel/persistable.rb:287-293 | a filter reached first on an attribute the generated index has never seen makes `find_all` raise NoMethodError, as written and as intended, rather than find nothing |
| Query.ListedNoBlobs | lib/gitmodel/persistable.rb:267-270 | a directory without blobs lists no record |
| Query.DeleteAllThenFindAll | lib/gitmodel/persistable.rb:266-270 | after `delete_all`, an unfiltered `find_all` finds nothing |
| Query.MissingSubdirRaises | lib/gitmodel/persistable.rb:267 | as written, a query with no filter or a first `id` filter raises when the type's directory is missing from a branch with commits |
| Query.MissingSubdirEmpty | lib/gitmodel/persistable.rb:257-259 | as intended, an unfiltered query on such a branch finds nothing, as on a branch without commits |
| Query.OtherBranchLoadsDefault | lib/gitmodel/persistable.rb:328 | as written, a query on another branch, while the default branch has no commits, raises RecordNotFound for any match |
| Query.OtherBranchLoadsBranch | lib/gitmodel/persistable.rb:328 | as intended, every match is loaded from the queried branch, one record per id |
| Query.FindEachAll | lib/gitmodel/persistable.rb:328 | loading a rearrangement of ids that all load gives one record per id |
| Query.FindAllById | lib/gitmodel/persistable.rb:282-283 | `find_all(:id => v)` gives the record `find(v)` gives when `subdir/v` exists, and nothing otherwise |
| Query.EntriesKeyAppend | lib/gitmodel/persistable.rb:421-428 | the key spells the entries one after another, in hash order |
| Query.FormatConditionsHashForCacheKey | lib/gitmodel/persistable.rb:414-431 | `cache_key` is deleted from the hash and every other condition is kept; a truthy explicit key is the key; otherwise the key spells the remaining entries |
| Query.PlainKeySpellsEntries | lib/gitmodel/persistable.rb:421-428 | without `branch` or `cache_key`, the key is `subdir-find_all-` followed by `key:value;` for every condition, in hash order |
| Query.BranchLeavesKey | lib/gitmodel/persistable.rb:252-255 | the branch is deleted before the key is formed: adding, changing or deleting the `branch` condition leaves the key as it was |
| Query.KeyExample | lib/gitmodel/persistable.rb:414-431 | a worked key: `{author: 'ann', branch: 'dev', year: 7, title: <block>}` gives `subdir-find_all-author:ann;year:7;title:proc-<hash>;` |
| Query.ExplicitKeyDecides | lib/gitmodel/persistable.rb:414-419 | an explicit cache key decides the key whatever the other conditions are |
| Relations.NewReflection | lib/gitmodel/relations/reflection.rb:7-13 | a reflection keeps its model and name; the options `class_name`, `inverse_of` and `foreign_key` override the defaults; a To or One reflection always has a foreign key |
| Relations.ReflectionDefaults | lib/gitmodel/relations/reflection.rb:10-12 | without options the type is `classify(name)`, the inverse `singularize(tableize(model))`, and the key the kind's default |
| Relations.StoresForeignKeyByKind | lib/gitmodel/relations/reflection.rb:19-21 | `stores_foreign_key?` holds for every To and One reflection, and for a Many one exactly when a key is given |
| Relations.ToKeyDependsOnNameOnly | lib/gitmodel/relations/reflections/to.rb:10-12 | a To reflection's default key is `name_id`, whatever the model, class name or inverse |
| Relations.OneKeyFollowsInverse | lib/gitmodel/relations/reflections/one.rb:10-12 | a One reflection's default key is `inverse_id`, and different inverses give different keys |
| Relations.DefaultKeysAgree | lib/gitmodel/relations/reflections/one.rb:10-12 | with default inverses, `has_one` on the owner and `belongs_to` on the target agree on the key |
| Relations.Relate | lib/gitmodel/relations.rb:51-55 | `relate` stores the reflection under its name in its class and changes no other entry |
| Relations.RedeclarationReplaces | lib/gitmodel/relations.rb:52 | declaring an association twice keeps only the second reflection |
| Relations.HasOne | lib/gitmodel/relations.rb:38-40 | `has_one` registers a One reflection under the name |
| Relations.BelongsTo | lib/gitmodel/relations.rb:42-44 | `belongs_to` registers a To reflection under the name |
| Relations.HasMany | lib/gitmodel/relations.rb:34-36 | `has_many` registers a Many reflection under the name |
| Relations.HasAndBelongsToMany | lib/gitmodel/relations.rb:46-47 | `has_and_belongs_to_many` registers nothing |
| Relations.ProxyOf | lib/gitmodel/relations.rb:20-26 | `proxy(name)` returns the memoised proxy, or memoises a new one with the registered reflection and no target; a frozen record without a memo raises; an unknown name raises NoMethodError; no other record changes |
| Relations.ProxyMemoised | lib/gitmodel/relations.rb:20-26 | asking for the same proxy again returns it and changes nothing |
| Relations.ResetProxies | lib/gitmodel/relations.rb:28-30 | `reset_proxies` empties the memo, and raises on a frozen record |
| Relations.ResetThenProxy | lib/gitmodel/relations.rb:28-30 | after `reset_proxies` the next `proxy(name)` is a new proxy without a cached target |
| Relations.Replace | lib/gitmodel/relations/proxies/to.rb:17-21 | a To proxy's `replace` caches the target and writes its id (or nil) to the owner's foreign key and nothing else; a One proxy's only caches; the base (Many) one does nothing |
| Relations.Link | lib/gitmodel/relations/proxies/to.rb:14 | `y.proxy(inverse).replace(rec)` makes that proxy target `rec`, writing the key on a To side |
| Relations.Detach | lib/gitmodel/relations/proxies/to.rb:11 | `set`'s first step replaces with nil the inverse proxy of the cached target, if any, and touches no other record |
| Relations.Attach | lib/gitmodel/relations/proxies/to.rb:13-14 | `set`'s rest: this proxy takes the new target, then the new target's inverse proxy takes the owner |
| Relations.SetTarget | lib/gitmodel/relations/proxies/to.rb:10-15 | `set` changes only attributes and proxies, only of the owner, its old target and the new one; on success the owner targets the new record; a Many proxy raises |
| Relations.SetDetachesOldPartner | lib/gitmodel/relations/proxies/one.rb:11 | the old partner's inverse proxy no longer targets anyone, and its key is cleared on a To side |
| Relations.SetLinksBothSides | lib/gitmodel/relations/proxies/to.rb:10-15 | after `a.name = b` both sides target each other, the key is written on the To side, and no third record changes |
| Relations.AttachLinks | lib/gitmodel/relations/proxies/one.rb:13-14 | attaching sets the owner's target and, on the new partner, the inverse target to the owner |
| Relations.SetNilUnlinks | lib/gitmodel/relations/proxies/one.rb:10-15 | `a.name = nil` leaves `a` without a target and its key nil on a To side, and unlinks the old partner |
| Relations.BothSidesSee | lib/gitmodel/relations/proxies/one.rb:6-8 | after `a.name = b`, both readers return the other record from the cache without touching the store |
| Relations.TargetConditions | lib/gitmodel/relations/proxies/to.rb:7 | a To proxy asks for the id held in the owner's key attribute, a One proxy for the records whose key holds the owner's id; TargetConditionsAgree shows the two sides of a pair ask for each other |
| Relations.TargetConditionsAgree | lib/gitmodel/relations/proxies/to.rb:7 | on a `belongs_to`/`has_one` pair sharing a key, the To side asks for the id of the record its key names, and the One side asks for the records whose key holds that value |
| Relations.Fetch | lib/gitmodel/relations/proxies/one.rb:7 | `type.find_all(conditions).first`: an unknown class raises, a failing query raises its error, otherwise the first record found or none; FetchById states it for an id query in terms of `find` |
| Relations.FetchById | lib/gitmodel/relations/proxies/to.rb:7 | `type.find_all(:id => v).first` is the record `find(v)` loads when `subdir/v` is in the type's directory, raises what that `find` raises, and is nil otherwise |
| Relations.GetTarget | lib/gitmodel/relations/proxies/to.rb:6-8 | `get` returns a cached target as is; otherwise it queries, caches a found record as a new object, and leaves everything as it was when nothing is found; a Many proxy is returned itself |
| Relations.ToGetFindsById | lib/gitmodel/relations/proxies/to.rb:6-8 | an uncached To proxy finds the record whose id the key attribute holds, and finds nothing when that is not a stored id |
| Relations.OneGetNeedsIndex | lib/gitmodel/relations/proxies/one.rb:6-8 | an uncached One proxy raises IndexRequired when the target class's index was never generated |
| Relations.ReadRelation | lib/gitmodel/relations.rb:53 | the generated reader is `proxy(name).get`, and raises for a name with no relation; WriteThenRead relates it to the writer |
| Relations.WriteThenRead | lib/gitmodel/relations.rb:53-54 | reading a relation after writing a record to it returns that record from the cache, touching neither the heap nor the store |
| Relations.WriteRelation | lib/gitmodel/relations.rb:54 | the generated writer is `proxy(name).set(target)` |
| Relations.ReloadObject | lib/gitmodel/persistable.rb:148-151 | reloading replaces the record with what load reads and, when load succeeds, empties the proxy memo |
| Relations.SetForgottenOnReload | spec/gitmodel/integration/relations/one_spec.rb:84-91 | setting a relation never persists it: a reload after the set gives the same record, error and empty memo as a reload without it |

## Left out

- Grit's tree entry order and its keying of trees by `name/`: written nodes keep their write order, and a name names one node.
- Yajl JSON: the encoding is abstract (`Data.Json`); only symbols becoming strings is modelled.
- Commit SHAs, commit messages, `transaction.branch` given by options, and the `:transaction` option that joins an outer transaction.
- A frozen record whose save commits and then raises on `@path =`: the model raises FrozenRecord, and the commit made before the raise is not kept.
- `GitModel.cache`, memcache and stale reads: every read recomputes.
- A block's hash in the cache key: `proc-#{val.hash}` differs between runs and is modelled as an opaque number; a Proc given as `cache_key` is written with that same number.
- ActiveModel callbacks, validations, dirty tracking, naming, observers and logging.
- `to_model`, `to_key`, `to_param`, `new_record?`, `persisted?` and `to_s`: trivial readers with nothing to prove.
- `create`, `create!` and `index!`: thin wrappers around `new`, `save` and `Index#generate!`; index generation is not part of this model.
- `db_subdir` is a field of the model class: `tableize`, `classify`, `singularize` and `constantize` are uninterpreted (an `Inflector` and a class map).
- Ordering by an attribute other than id: a Ruby `<=>` on arbitrary values; the sort is a parameter (`Query.Arrange`).
- Query.Limit: a negative limit raises RuntimeFault on both branches of `find_all`. When ordering by id, `matching_ids[0, -1]` is nil and the `map` at `lib/gitmodel/persistable.rb:328` raises NoMethodError, which the model matches. When ordering by another attribute, `results[0, -1]` is nil and `find_all` returns nil without raising (lines 313-315 and 331); the model's result is a list, so it raises there instead.
- `InvalidParams("...")` is called as a method and would itself raise NoMethodError; the model raises InvalidParams, which is what is evidently meant.
- A branch condition that is not a string raises RuntimeFault in the model.
- `new` with a hash or array for an `attribute` accessor: the model keeps scalar values only and raises RuntimeFault for a payload value.
- `class_attribute :relations` sharing between a class and its subclasses: each class has its own map.
- The to-many relation (`has_many`): the reflection is registered. Its proxy's `get` returns the proxy itself and its `set` always raises, since `@target.unset` is called on nil. `lib/gitmodel/relations/proxies/many.rb` (`@source` is never set) is not part of this model beyond that.
- Relations.GetTarget: queries with the corrected `find_all` (Query.FindAll), so all three rows of "## Findings" apply in their corrected form: a type directory missing from a branch with commits gives no record instead of raising, a record directory without `attributes.json` raises RecordNotFound instead of NoMethodError, and a found record is loaded from the queried branch, which for a relation is the default branch either way.
- Relations.ReloadObject: calls `reset_proxies` after `load`, which the code of `reload` does not do (see above). It reloads with the corrected load (`Persistable.Reload`), so a directory without `attributes.json` raises RecordNotFound where the code raises NoMethodError (`Persistable.ReloadAsWritten`).
- Relations.FetchById: states the query through the corrected `find` and `find_all`, as Relations.Fetch runs them; the as-written `find` would raise NoMethodError instead of RecordNotFound for a directory without `attributes.json`.
- Transaction.AddAt: a segment whose key already holds a blob value is replaced by a hash. Grit's `current[dir] ||= {}` keeps the string, and the next `String#[]=` then raises IndexError or splices the string. Only a payload that puts a blob where a longer path descends reaches this, for example `{"a" => "s", "a/b" => "x"}`; the save lemmas assume separator-free keys, where it cannot happen.
- Persistable.Send: the association writers that `relate` defines (`lib/gitmodel/relations.rb:54`) are not among the names `new` can send. `Model.new(:garage => g)` or `create!(..., :garage => g)` runs `proxy(:garage).set(g)` in Ruby, while Send raises RuntimeFault for that name, as for any name with no declared field. Association writes are modelled on their own, by Relations.WriteRelation over the record heap.
- Transaction.WriteEntry: a staged hash under a name that holds a blob in the current tree becomes a new subtree that replaces the blob. Grit's `write_tree` passes that blob on as the next tree and calls `contents` on it, a NoMethodError. An example is saving a record whose blob `photo` was "x" with `photo` set to a hash. Only saves that turn a blob into a hash reach this.
- Query.PlanOf: condition keys are plain strings that stand for Ruby Symbols. The code matches only the symbols `:branch`, `:order`, `:order_by`, `:limit`, `:cache_key` and `:id` (`lib/gitmodel/persistable.rb:252`, 261-263, 275, 417). A String key such as `'id'` or `'limit'` would be an attribute filter in Ruby, while the model reads it as the control key or id filter of that name.
- Relations.SetTarget: never saves, as in the code; after `set(nil)` on a One proxy a later `get` queries the store again and may find the still-persisted partner.

## Findings

| source | as written | input that shows it | evidently intended | confidence | as-written member | corrected member |
|---|---|---|---|---|---|---|
| lib/gitmodel/persistable.rb:267 | `(current_tree / db_subdir).trees` is called on nil when the type has no directory on a branch that has commits | a repository whose only commit holds another model's records; `find_all` on this model | no records, as on a branch without commits | medium, not executed | Query.MissingSubdirRaises | Query.MissingSubdirEmpty |
| lib/gitmodel/persistable.rb:186-187 | a directory without `attributes.json` reaches `nil.data`, a NoMethodError | save a record, `delete` it (which leaves the empty directory, as the comment at lines 390-392 says), then `find` its id | RecordNotFound, as for an id never saved | medium, not executed | Persistable.DeletedFindAsWritten | Persistable.DeletedFind |
| lib/gitmodel/persistable.rb:328 | the matched ids are loaded with `find(k)`, from the default branch, whatever `:branch` was queried | records saved only on branch `b` while master has no commits; `find_all(:branch => 'b')` | the records loaded from `b` | high, not executed | Query.OtherBranchLoadsDefault | Query.OtherBranchLoadsBranch |
