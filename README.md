# FlameRobin schema-object node, modelled in Dafny

FlameRobin keeps the schema of a Firebird database as a tree of metadata
items: tables, views, procedures, triggers, generators, functions, domains,
roles, columns, parameters and exceptions, below a database node. This
project models the base class of those items, `YxMetadataItem` in
`src/metadata/metadataitem.cpp`. It covers four parts.

1. **Kind tables** (`node_kinds.dfy`).
   - `getTypeByName` maps a catalog keyword to a kind.
   - The description read and update statements are chosen per kind.
   - The `dep_types` table maps kinds to the type codes of
     `RDB$DEPENDENCIES`, and the loop that computes a node's code reads it.
2. **The node forest** (`forest.dfy`). Every node is a record in a map
   keyed by node id. A record holds its kind and name, a non-owning link to
   its parent, and a depth. The depth keeps every walk up the parent links
   finite. On this forest the project models:
   - the item path;
   - the owning database;
   - the recursive drop;
   - `isSystem` and the drop statement.
3. **Dependency resolution** (`dependencies.dfy`). The rows of the
   dependency query are resolved to nodes and grouped by adjacency. The
   table's own foreign keys, or the foreign keys of other tables that
   reference it, add further entries. The catalog's answers and the tree's
   name lookup (`findByNameAndType`) are inputs.
4. **The tree object** (`metadata_tree.dfy`). A `Tree` class holds the
   forest, the log of `notify()` calls and the log of `drop()` calls.
   Methods update these fields in place:
   - the constructor defaults;
   - `setParent`, `setName` and `setType`;
   - `drop`;
   - the description cache (`getDescription` / `setDescription`);
   - `getDependencies`.

   How the catalog answers is an input: the description read may fail before
   the fetch, return null, stream chunks, or fail mid-stream. Each statement
   the node would send is returned as a value.

Right-trimming and string concatenation live in `text.dfy`.
`wrappers.dfy` holds `Option` and `Outcome`.

Behaviour of the code worth knowing, which the model keeps:
- `setName` removes only trailing blanks; leading blanks stay
  (`metadataitem.cpp:460-463`).
- A kind without an update statement fails `setDescription` with the
  message "The object does not support descriptions"
  (`metadataitem.cpp:387-391`).
- A `getDependencies` that fails on an unknown foreign-key table keeps the
  entries it had already appended (`metadataitem.cpp:262-266`).
- Grouping is by adjacency, so one target can get several entries
  (`metadataitem.cpp:242-248` and `:296`). `FallbackCanRepeatTarget` shows
  this for the dependency query. `UnorderedRowsRepeatTable` shows it for the
  referencing-key query, which has no `ORDER BY`.

## Model

| member | source | states |
|---|---|---|
| NodeKinds.Classify | src/metadata/metadataitem.cpp:77-101 | the result is a kind other than Unknown exactly when the name is some kind's keyword, and then it is the kind with that keyword |
| NodeKinds.ClassifyKeyword | src/metadata/metadataitem.cpp:77-101 | classification inverts the keyword of every kind that has one |
| NodeKinds.ClassifyIsCaseSensitive | src/metadata/metadataitem.cpp:77-101 | lower-case or mixed-case spellings, and a keyword followed by a blank, are Unknown |
| NodeKinds.DescriptionSql | src/metadata/metadataitem.cpp:136-151 | the read statement is empty exactly for the kinds with no description column |
| NodeKinds.ChangeDescriptionSql | src/metadata/metadataitem.cpp:154-169 | the update statement is empty exactly for the kinds with no description column |
| NodeKinds.DescriptionStatementsAgree | src/metadata/metadataitem.cpp:136-169 | reading and writing are supported for the same kinds, and a view uses the statements of a table |
| NodeKinds.ComputeOrdinal | src/metadata/metadataitem.cpp:182-191 | the loop leaves the last position of the kind in dep_types, and -1 exactly when the kind is absent |
| NodeKinds.KindPosition | src/metadata/metadataitem.cpp:183-187 | every tracked kind sits at exactly one position: Table 0, View 1, Trigger 2, Procedure 5, Exception 7, Generator 14, Function 15 |
| NodeKinds.OrdinalTable | src/metadata/metadataitem.cpp:183-191 | the ordinals the loop computes for the seven tracked kinds |
| NodeKinds.OrdinalOfUnknown | src/metadata/metadataitem.cpp:189-196 | the loop alone gives Unknown the code 13, so only the separate Unknown test rejects it |
| NodeKinds.NoOrdinal | src/metadata/metadataitem.cpp:183-196 | Database, Domain, Role, Column and Parameter get no code, so they are "Unsupported type" |
| NodeKinds.OrdinalRoundTrip | src/metadata/metadataitem.cpp:183-191 | kind-to-code and code-to-kind agree for every kind that has a code |
| NodeKinds.GuardAdmitsPastEnd | src/metadata/metadataitem.cpp:229-231 | the guard as written lets code 16 and every negative code through; for other codes it agrees with the in-range test |
| Text.RightTrim | src/metadata/metadataitem.cpp:460-463 | the result is a prefix of the input, does not end in a blank, and only blanks were cut |
| Text.RightTrimIdempotent | src/metadata/metadataitem.cpp:460-463 | trimming twice is trimming once |
| Text.RightTrimKeepsLeading | src/metadata/metadataitem.cpp:460-463 | leading blanks survive, trailing blanks go, and an all-blank name becomes empty |
| Forest.AttachKeepsWellFormed | src/metadata/metadataitem.cpp:437-440 | attaching a detached node below another keeps parent and child links consistent and changes no other node |
| Forest.DropOrder | src/metadata/metadataitem.cpp:109-120 | the nodes drop() reaches start with the node it was called on |
| Forest.DropReachesSubtree | src/metadata/metadataitem.cpp:109-120 | drop() reaches exactly the node and every node below it |
| Forest.PathName | src/metadata/metadataitem.cpp:72-75 | the base class's path name of a node is its name, unchanged |
| Forest.Segment | src/metadata/metadataitem.cpp:62 | a node's own segment is its type name followed by its path name in parentheses, and nothing else |
| Forest.ItemPath | src/metadata/metadataitem.cpp:60-70 | a node's own path, when set, is the answer; otherwise, with no parent or a parent whose path is empty, the path is exactly the node's `Type(Name)` segment, and below a non-empty parent path it is that path, then "::", then the segment, with length the sum of the three |
| Forest.BaseItemPathNonEmpty | src/metadata/metadataitem.cpp:60-70 | a path with no override is never empty |
| Forest.ItemPathBelowDatabase | src/metadata/metadataitem.cpp:60-70 | below a parent whose path is empty no separator is added: a table's path is its own segment, a column's is the table's segment, "::" and its own |
| Forest.DatabaseOf | src/metadata/metadataitem.cpp:122-133 | an answer is a Database node, and a parentless node has none |
| Forest.DatabaseIsNearestAncestor | src/metadata/metadataitem.cpp:122-133 | the answer is the deepest Database among the strict ancestors and never the node itself; none when no ancestor is a Database |
| Forest.IsSystem | src/metadata/metadataitem.cpp:477-480 | a name is a system name exactly when "RDB$" is a prefix of it |
| Forest.IsSystemExamples | src/metadata/metadataitem.cpp:477-480 | "RDB$RELATIONS" is a system name; "CUSTOMERS", "RDB" and "rdb$RELATIONS" are not |
| Forest.DropSqlStatement | src/metadata/metadataitem.cpp:482-485 | the statement starts with "DROP ", holds the type name after it and the name before the closing ';', and a single blank between the two, so its length is the parts' lengths plus 7 |
| Dependencies.AddField | src/metadata/metadataitem.cpp:249-250 | adding a field appends it to the fields of the entry pushed last and leaves every earlier entry and that entry's target as they were |
| Dependencies.Resolve | src/metadata/metadataitem.cpp:226-241 | a resolved row has a code inside dep_types that is not mapped to Unknown |
| Dependencies.ResolveFallback | src/metadata/metadataitem.cpp:234-241 | a row is looked up under its own kind, and only a Table row that is not found is looked up again as a View |
| Dependencies.UntrackedCodesSkipped | src/metadata/metadataitem.cpp:229-233 | a code past the table or mapped to Unknown is skipped whatever the lookup answers |
| Dependencies.ResolveRow | src/metadata/metadataitem.cpp:226-241 | the lookups the loop makes for one row give the row's resolution |
| Dependencies.CollectDependencyRows | src/metadata/metadataitem.cpp:216-251 | the row loop appends exactly the grouped entries to the list it is given |
| Dependencies.GroupedTargets | src/metadata/metadataitem.cpp:242-248 | the entries' targets are the resolved targets with each run of equal neighbours cut to one |
| Dependencies.GroupedNeighboursDiffer | src/metadata/metadataitem.cpp:242-248 | neighbouring entries never share a target, and the targets are exactly those of the resolved rows |
| Dependencies.GroupedFields | src/metadata/metadataitem.cpp:249-250 | the fields of all entries, in order, are the trimmed non-null field names of the resolved rows, in row order |
| Dependencies.SkippedRunTransparent | src/metadata/metadataitem.cpp:229-241 | rows that all are skipped add no entry and keep no field name |
| Dependencies.GroupedRun | src/metadata/metadataitem.cpp:242-250 | a run of rows whose resolved rows (at least one) all stand for the same target, after entries that end with another target, adds exactly one entry: that target, holding the run's trimmed non-null field names in row order |
| Dependencies.SkippedRowTransparent | src/metadata/metadataitem.cpp:229-241 | removing a skipped row changes nothing, so the rows on either side of it still merge |
| Dependencies.AdjacentRowsMerge | src/metadata/metadataitem.cpp:242-250 | two adjacent rows for one target with field names give one entry holding both fields in row order |
| Dependencies.MergeExample | src/metadata/metadataitem.cpp:226-250 | rows padded with blanks are trimmed before lookup and grouping |
| Dependencies.FallbackCanRepeatTarget | src/metadata/metadataitem.cpp:234-248 | a view found through the Table fallback can be listed twice, with another entry in between |
| Dependencies.ForeignKeyEntries | src/metadata/metadataitem.cpp:255-271 | one entry per key, in key order, holding the referenced table and column list, up to the first unknown table; its error names that table |
| Dependencies.AppendForeignKeys | src/metadata/metadataitem.cpp:255-271 | the loop appends those entries after the list it is given, never merged, and fails exactly on an unknown table |
| Dependencies.ReferencingKeepsAllFields | src/metadata/metadataitem.cpp:289-307 | when every referencing table is known, every row's trimmed column name is in the entries, in row order |
| Dependencies.ReferencingOpens | src/metadata/metadataitem.cpp:296-305 | a row of a new, known table opens an entry for that table holding the row's trimmed column name |
| Dependencies.ReferencingSkips | src/metadata/metadataitem.cpp:296-300 | a row of a new table the tree does not know is skipped and the open entry stays open |
| Dependencies.ReferencingRun | src/metadata/metadataitem.cpp:289-307 | a run of rows of one known table, after an entry of another table, adds exactly one entry: that table, holding the run's trimmed column names in row order, and it stays open |
| Dependencies.UnorderedRowsRepeatTable | src/metadata/metadataitem.cpp:276-306 | rows of table A, then B, then A again give two entries for A |
| Dependencies.ReferencingFoldAsWritten | src/metadata/metadataitem.cpp:287-306 | the loop with the cursor starting at the empty name: an open cursor always has an entry |
| Dependencies.BlankNameDereferencesNull | src/metadata/metadataitem.cpp:287-306 | a first row with a blank table name reaches addField with no entry open |
| Dependencies.AsWrittenAgreesWithoutBlankNames | src/metadata/metadataitem.cpp:287-307 | with no blank table name, the loop as written and the corrected loop give the same entries |
| Dependencies.CollectReferencingRows | src/metadata/metadataitem.cpp:287-307 | the corrected loop appends exactly the referencing-key entries to the list it is given |
| MetadataTree.BlobTextIsPrefixConcat | src/metadata/metadataitem.cpp:355-362 | the text read is the chunks before the first empty read, concatenated in order |
| MetadataTree.ReadBlob | src/metadata/metadataitem.cpp:353-362 | the chunk loop returns the blob text |
| MetadataTree.DescriptionKeys | src/metadata/metadataitem.cpp:342-344 | the statements bind the node's name first, and a second key exactly for columns and parameters, which is the name of the node's parent (the owning relation or procedure) |
| MetadataTree.Tree.AddNode | src/metadata/metadataitem.cpp:47-53 | a new node has no parent, kind Unknown and no loaded description, and nothing else changes |
| MetadataTree.Tree.SetParent | src/metadata/metadataitem.cpp:437-440 | the node's parent is set and the parent lists it last among its children; the tree stays well formed |
| MetadataTree.Tree.SetName | src/metadata/metadataitem.cpp:460-465 | the stored name is the right-trimmed name, observers are notified once, and nothing else changes |
| MetadataTree.Tree.SetType | src/metadata/metadataitem.cpp:472-475 | only the kind changes, and nobody is notified |
| MetadataTree.Tree.Drop | src/metadata/metadataitem.cpp:109-120 | drop() is called on the node and then, child by child, on its whole subtree in pre-order |
| MetadataTree.Tree.GetDescription | src/metadata/metadataitem.cpp:324-378 | loaded: the cache, no query. No database or no statement: "N/A", no change. Otherwise one query with the right keys. A failure before the fetch leaves the node unloaded and returns the error. Null caches "". Chunks cache their concatenation. A mid-stream failure keeps the partial text loaded and returns the error |
| MetadataTree.Tree.SetDescription | src/metadata/metadataitem.cpp:380-430 | no database: a quiet failure. No statement: a failure with its message. Otherwise an update binding null for empty text. On success the text is cached as loaded and observers are notified. A failed update changes nothing |
| MetadataTree.Tree.GetDependencies | src/metadata/metadataitem.cpp:173-322 | "Database not set" or "Unsupported type" before any query with the list unchanged. Otherwise the grouped rows. Then the foreign-key entries (table, depends-on) or the referencing-key entries (table, depended-on). Each failure keeps what was appended |

## Left out

- The IBPP client library is left out: transactions, statement preparation, execution, fetching, blobs and commit. Each catalog answer is an input datatype. Each statement is returned as a value, with the keys bound to it, instead of being executed.
- The SQL text of the dependency query is not modelled. `CatalogQuery` records the direction, type code and name it binds. The referencing-key query is recorded by the name it binds.
- `catch (...)` and "System error." are not modelled. Every failure is an IBPP exception whose message is an input.
- The `lastError()` slot is not modelled. Its message is returned in the failure status instead.
- `notify()` and the observer machinery are not modelled. The model records in `notified` which node notified, in call order.
- In the chunk loop of `getDescription`, `buffer[size] = 0` writes one byte past the 8192-byte buffer when a read fills it. Copying with `+=` also stops at an embedded NUL. Chunks are modelled as whole strings, so neither effect is captured.
- `getPrintableName` is not modelled, because it depends on `getChildrenCount`, and `getChildrenCount` is not part of this model.
- The plain accessors `getParent`, `getName` and `getType` are fields of the node record.
- Subclass overrides of `getTypeName`, `getChildren` and `getItemPath` are per-node data: `typeName`, `children` and `ownItemPath`. The `dynamic_cast` to `YTable` and `getForeignKeys` become the `foreignKeys` parameter.
- Dependencies.GroupedFields: states the fields of all entries laid end to end, not which entry holds which field; that split is stated run by run by `Dependencies.GroupedRun`.
- Dependencies.ReferencingKeepsAllFields: states the column names of all entries laid end to end; which entry holds which, and for which table, is stated run by run by `Dependencies.ReferencingRun`.
- Forest.DropReachesSubtree: collection nodes are not modelled. A database lists its objects directly among its children, and `children` is always the inverse of `parent`. In the program the collection that `getChildren` returns an item from need not be the item's parent (`metadataitem.cpp:116-119` notes that an item's parent may be the database rather than the collection that holds it), so trees where the two differ lie outside the model, and the drop recursion is proved only for trees where they agree.
- `Dependency` and `ForeignKey` are declared outside `metadataitem.cpp` and are not part of this model. `addField` is taken to append the field to the entry's list, keeping duplicates, and `setFields(getReferencedColumnList())` to copy the key's referenced column names in order.
- MetadataTree.Tree.SetParent: only attaches a node that has no parent and no children, and also lists it among the new parent's children. The source only rewrites the parent pointer. The model ties parent links, children lists and depths together, and re-parenting a whole subtree would have to update every depth below it.
- MetadataTree.Tree.GetDependencies: the list is a value returned by the method, not a vector shared with the caller, so aliasing with the caller is not captured.

## Findings

| source | as written | input that shows it | evidently intended | confidence | as-written member | corrected member |
|---|---|---|---|---|---|---|
| src/metadata/metadataitem.cpp:229-231 | `object_type > type_count` skips only codes above 16, so code 16 and negative codes index `dep_types` out of bounds | a dependency row with type code 16, or -1 | skip every code outside 0..15 before indexing | not executed | NodeKinds.GuardAdmitsPastEnd | Dependencies.Resolve |
| src/metadata/metadataitem.cpp:287-306 | `lasttable` starts as the empty name while `dep` is null, so a first row whose relation name trims to empty skips the lookup and calls `addField` through the null `dep` | a first referencing row ("   ", "ID") | the first row always opens an entry for its table (the cursor starts at "no table") | not executed | Dependencies.BlankNameDereferencesNull | Dependencies.CollectReferencingRows |
