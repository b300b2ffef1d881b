# Include directives of a JSON:API request

This project models `JSONAPI::IncludeDirectives` from
`lib/jsonapi/include_directives.rb`. That class takes the `include` parameter
of a JSON:API request, an array of dot-separated relationship paths such as
`posts.comments.tags`, and builds from it the nested include-directives tree.
The serializer then uses that tree.

The project models four parts of the class:

- **The tree merge.** `initialize` runs `parse_include` once for each include
  string. `parse_include` builds `local_path` one segment at a time and calls
  `get_related` for every prefix. `get_related` walks or creates the entries
  along the path, and the prefix's entry is then marked `include: true`.
- **The join flag.** An entry is created with `include_in_join`. It is true
  when eager loading is forced, when the relationship could not be resolved,
  or when the relationship is eager-load-on-include. The flag is never
  changed afterwards.
- **Volatility.** `count_resources` counts the entries of each name, seeded
  with 1 for the primary resource's `_type`. `set_volatile` then flags every
  entry whose name is counted more than once.
- **The projections.** `model_includes` keeps the joinable branches as nested
  names. `paths` lists the root-to-entry name sequence of every entry.

## Structure

- **Data.** A hash `include_related` becomes a `seq<Directive>` in insertion
  order, keyed by `Directive.name`. The `current` pointer of `get_related`
  becomes an address, the sequence of names from the root. `SubAt` and
  `ReplaceAt` read and rebuild the tree at an address.
- **Class.** `JsonApi.IncludeDirectives` is a class, because the Ruby object
  updates `@include_directives_hash` and `@resource_counts` in place.
  - `includeRelated` and `resourceCounts` are fields that its methods reassign.
  - The loops of `get_related`, `parse_include`, `count_resources` and
    `set_volatile` are `for` loops.
  - Each method is proved against a reference function: `Insert`, `Merge`,
    `Tally` or `Stamp`.
- **Reference functions and lemmas.** The reference functions and the lemmas
  about them are in the modules:
  - `IncludePaths`: `split('.')` and the `local_path` accumulation;
  - `IncludeTree`: the tree, the merge and the class context;
  - `Volatility`: counting and flagging;
  - `Projections`: `get_includes` and `delve_paths`;
  - `Scenarios`: one request from the unit tests, worked through.
- **Resource classes.** `Settings` gives the relationship lookup that
  `_relationships[fragment]` performs, and the `force_eager_load` option.
  `Resource.typeName` stands for `_type`.

## Behaviour worth knowing

- **`include` on intermediate entries.** `parse_include` sets
  `related[:include] = true` for every prefix of a path, inside the loop at
  lines 116-120. An entry that was only passed through on the way to a longer
  path is therefore included too (`MergeNodes`, `BuildNodes`).
- **No join filter in `paths`.** `paths` calls
  `get_includes(@include_directives_hash, false)` at line 72, so it lists
  every entry of the tree, joinable or not (`PathsExactly`,
  `PathsOfDirectives`).
- **Order of the include strings.** Ruby hashes keep insertion order, so a
  sibling's position follows the first include string that created it.
  In the merged tree, before volatility is stamped, which entries exist and
  the flags on each do not depend on the order of the include strings
  (`BuildOrderInsensitive`).
- **Unset volatility.** An entry whose `volatile` key is absent is modelled
  with `volatile == false`.

## Model

| member | source | states |
|---|---|---|
| `JsonApi.IncludeDirectives.constructor` | lib/jsonapi/include_directives.rb:32-44 | after `initialize`, `@resource_counts` is the count of the merged tree seeded with the primary `_type`, and the hash is that tree with volatility stamped from those counts |
| `JsonApi.IncludeDirectives.GetRelated` | lib/jsonapi/include_directives.rb:77-100 | the answer is the address `current_path.split('.')`, the entry at that address exists, the tree becomes `Insert` of the path (by `InsertNodes`: exactly the missing entries along the path are added, each with `include: false` and its own context's join flag, and old entries are untouched), and the counts are untouched |
| `JsonApi.IncludeDirectives.ParseInclude` | lib/jsonapi/include_directives.rb:112-121 | the tree afterwards is the old tree merged with the path's segments: every prefix exists and is marked included |
| `JsonApi.IncludeDirectives.CountResources` | lib/jsonapi/include_directives.rb:46-52 | the counts become the depth-first tally of the subtree over the old counts; the tree is untouched |
| `JsonApi.IncludeDirectives.SetVolatile` | lib/jsonapi/include_directives.rb:54-61 | the result is the subtree with `volatile` set on every entry whose name's count exceeds 1 |
| `JsonApi.IncludeDirectives.ModelIncludes` | lib/jsonapi/include_directives.rb:67-69 | the result has the compact shape of line 108 (a name with nothing joinable below it stays a bare name), and flattened it lists the addresses of the joinable part of the tree (entries whose ancestors are all joinable), in pre-order; no other compact list flattens to the same addresses |
| `JsonApi.IncludeDirectives.Paths` | lib/jsonapi/include_directives.rb:71-73 | the result is the address of every entry of the tree, one per entry, in pre-order |
| `JsonApi.GetStep` | lib/jsonapi/include_directives.rb:80-93 | one iteration of `get_related`'s loop leaves the walked address existing and the remaining work equal to inserting the rest of the fragments |
| `JsonApi.ParseStep` | lib/jsonapi/include_directives.rb:116-120 | one iteration of `parse_include`'s loop: the grown `local_path` re-splits into the first i+1 segments, and getting then marking that prefix extends the merge by one segment |
| `JsonApi.DirectivesShape` | lib/jsonapi/include_directives.rb:40-43 | the volatility pass changes only volatility flags: clearing them gives back the merged tree |
| `JsonApi.DirectivesNodes` | lib/jsonapi/include_directives.rb:32-44 | after construction an entry exists at an address iff the address is a prefix of some include path; each such entry is included and carries the join flag of its own context |
| `JsonApi.DirectivesVolatility` | lib/jsonapi/include_directives.rb:40-61 | after construction an entry is volatile iff its name occurs more than once among the tree's entries plus the primary `_type` |
| `JsonApi.VolatilitySymmetric` | test/unit/serializer/include_directives_test.rb:147-174 | entries that share a name share their volatility |
| `JsonApi.DirectivesDistinct` | lib/jsonapi/include_directives.rb:32-44 | after construction no two siblings share a name, at any depth |
| `JsonApi.PathsOfDirectives` | lib/jsonapi/include_directives.rb:71-73 | after construction an address is listed by `paths` iff it is a non-empty prefix of some include path |
| `JsonApi.DirectivesJoinable` | lib/jsonapi/include_directives.rb:32-44 | after construction every prefix of an address is an entry in the join iff every prefix is covered by an include path and joinable from the primary resource |
| `JsonApi.ModelIncludesOfDirectives` | lib/jsonapi/include_directives.rb:67-69 | after construction an address is listed by `model_includes` iff it is a non-empty prefix of some include path and every prefix of it is joinable from the primary resource |
| `IncludePaths.DropTrailingEmpty` | lib/jsonapi/include_directives.rb:113 | Ruby's `split` drops exactly the trailing empty fields: a prefix is kept, its last field is non-empty, and all dropped fields are empty |
| `IncludePaths.SplitFieldsRejoin` | lib/jsonapi/include_directives.rb:113 | cutting at every dot: no field holds a dot, and joining the fields with dots gives back the string |
| `IncludePaths.SplitSpec` | lib/jsonapi/include_directives.rb:113 | `split('.')` gives dot-free fields whose last one is non-empty; joined with dots they give the string up to a run of trailing dots, and with no fields the string is dots only |
| `IncludePaths.JoinSnoc` | lib/jsonapi/include_directives.rb:117 | the `local_path +=` step adds a segment with a dot before it unless the path is still empty |
| `IncludePaths.SplitJoin` | lib/jsonapi/include_directives.rb:113-118 | re-splitting the accumulated `local_path` gives back exactly the segments it was built from |
| `IncludePaths.SplitSegments` | lib/jsonapi/include_directives.rb:113 | every segment of an accepted include string is non-empty and free of dots |
| `IncludeTree.KlassAtNil` | lib/jsonapi/include_directives.rb:83-88 | once the class context is nil it stays nil along all remaining fragments |
| `IncludeTree.KlassAtAppend` | lib/jsonapi/include_directives.rb:83-85 | walking the class context along `a + b` is walking along `a` and then along `b` |
| `IncludeTree.UnresolvedIsJoinable` | lib/jsonapi/include_directives.rb:83-90 | once a fragment fails to resolve, every deeper entry of that address is joinable whatever the eager-load settings |
| `IncludeTree.ForcedIsJoinable` | lib/jsonapi/include_directives.rb:90 | with `force_eager_load` every entry is created joinable, at any address |
| `IncludeTree.NotJoinedResolved` | lib/jsonapi/include_directives.rb:83-90 | an entry is created outside the join only when eager loading is not forced, every prefix of its address resolves to a class from the primary resource, and its own relationship is not eager-loaded on include |
| `IncludeTree.IndexOf` | lib/jsonapi/include_directives.rb:92 | the position of the first entry with the name, or -1 when no entry has it |
| `IncludeTree.FindOrAdd` | lib/jsonapi/include_directives.rb:92 | the or-assign at line 92: an existing entry leaves the hash unchanged; otherwise one entry `include: false`, no children, with the given join flag is appended; the positions of all other names are kept |
| `IncludeTree.NodeAt` | lib/jsonapi/include_directives.rb:93 | an entry found at an address carries the address's last name |
| `IncludeTree.NodeAtFindOrAdd` | lib/jsonapi/include_directives.rb:92 | after the or-assign the lookup of any address is unchanged, except that a newly created entry is found at its own one-name address, without children |
| `IncludeTree.MarkAt` | lib/jsonapi/include_directives.rb:119 | marking keeps the length and the names of the level it is applied to (deeper levels: `MarkAtNodes`) |
| `IncludeTree.MarkAtNodes` | lib/jsonapi/include_directives.rb:119 | marking sets one flag: every entry stays where it was with its join and volatility flags, and is included afterwards iff it was before or it is the marked entry |
| `IncludeTree.InsertStep` | lib/jsonapi/include_directives.rb:80-98 | creating the entry for the next fragment and stepping into it leaves the same work as inserting all remaining fragments |
| `IncludeTree.InsertNodes` | lib/jsonapi/include_directives.rb:80-98 | after `get_related` an entry exists iff it existed before or its address is a prefix of the path; an old entry keeps its include, join and volatility flags; a new entry is not included, not volatile, and has its context's join flag |
| `IncludeTree.MergeStep` | lib/jsonapi/include_directives.rb:116-120 | getting the next prefix and marking it included extends the merge of the earlier prefixes by one segment |
| `IncludeTree.MergedDistinct` | lib/jsonapi/include_directives.rb:92-93 | a merged tree has no two siblings with the same name, at any depth |
| `IncludeTree.PlaceDistinct` | lib/jsonapi/include_directives.rb:92 | writing an entry back where the or-assign found or appended its name keeps sibling names distinct |
| `IncludeTree.MergedPlace` | lib/jsonapi/include_directives.rb:92-93 | writing a merged entry back where the or-assign found or appended its name keeps the level merged |
| `IncludeTree.MergePreservesMerged` | lib/jsonapi/include_directives.rb:112-121 | merging a path keeps a tree merged: names are distinct among siblings, every entry is included and not volatile, and every join flag is the one computed for its context |
| `IncludeTree.MergedNode` | lib/jsonapi/include_directives.rb:90-92 | in a merged tree an entry is included, not volatile, and joinable exactly as its parent's class context decides |
| `IncludeTree.MergeNodes` | lib/jsonapi/include_directives.rb:112-121 | after a merge an entry exists iff it existed before or its address is a prefix of the path. An old entry keeps its join flag and volatility and becomes included when it is on the path. A new entry is included, not volatile, and has its context's join flag |
| `IncludeTree.MergeIdempotent` | lib/jsonapi/include_directives.rb:92 | merging a path whose entries all exist already changes nothing |
| `IncludeTree.BuildMerged` | lib/jsonapi/include_directives.rb:36-38 | the tree built from any include array is merged |
| `IncludeTree.BuildCovers` | lib/jsonapi/include_directives.rb:36-38 | an entry exists iff its address is a prefix of some include path |
| `IncludeTree.CoveredPrefix` | lib/jsonapi/include_directives.rb:116-120 | every prefix of a covered address is covered, as `parse_include` visits every prefix |
| `IncludeTree.BuildNodes` | test/unit/serializer/include_directives_test.rb:48-68 | every prefix of every include path, and nothing else, is an entry; each is included, not volatile, and carries its context's join flag |
| `IncludeTree.BuildIdempotent` | test/unit/serializer/include_directives_test.rb:92-112 | adding an include string whose path is already covered (a duplicate, or `posts` beside `posts.comments`) leaves the tree unchanged |
| `IncludeTree.BuildOrderInsensitive` | lib/jsonapi/include_directives.rb:36-38 | two include arrays with the same strings give trees with the same entries and the same flags on each entry |
| `Volatility.NamesCount` | lib/jsonapi/include_directives.rb:46-52 | a name occurs in the tree iff its number of entries is positive |
| `Volatility.TallyCounts` | lib/jsonapi/include_directives.rb:46-52 | counting adds exactly the tree's names as keys, and each count grows by exactly the number of entries with that name |
| `Volatility.StampOnlyFlags` | lib/jsonapi/include_directives.rb:54-61 | stamping changes nothing but volatility flags |
| `Volatility.StampAt` | lib/jsonapi/include_directives.rb:55-60 | one iteration of `set_volatile`'s loop: the stamped entries so far plus the entry at i, stamped, plus the stamped rest give the whole stamped level |
| `Volatility.StampNames` | lib/jsonapi/include_directives.rb:55-60 | stamping keeps every entry's name at its position |
| `Volatility.StampDistinct` | lib/jsonapi/include_directives.rb:54-61 | stamping keeps sibling names distinct |
| `Volatility.StampNodes` | lib/jsonapi/include_directives.rb:54-61 | stamping keeps every entry at its address with its include and join flags, and makes it volatile iff it was already or its name's count exceeds 1 |
| `Volatility.StampedVolatility` | lib/jsonapi/include_directives.rb:54-61 | on a tree with no flags set, an entry is volatile iff its name's count exceeds 1, so entries sharing a name agree |
| `Projections.GetIncludes` | lib/jsonapi/include_directives.rb:102-110 | the result has at most one element per entry of the hash, and exactly one when unfiltered |
| `Projections.GetIncludesCompact` | lib/jsonapi/include_directives.rb:106-109 | an entry becomes a one-key hash only when something survives below it, at every depth |
| `Projections.DelvePathsShape` | lib/jsonapi/include_directives.rb:123-134 | `delve_paths` gives at least one path per element, none empty, the first being the first element's key alone |
| `Projections.DelvePathsInjective` | lib/jsonapi/include_directives.rb:123-134 | on lists of the shape `get_includes` produces, `delve_paths` loses nothing: two such lists with the same paths are equal |
| `Projections.Addrs` | lib/jsonapi/include_directives.rb:123-134 | the pre-order address list has one non-empty address per entry |
| `Projections.PathsAreAddrs` | lib/jsonapi/include_directives.rb:71-73 | `delve_paths` of the unfiltered `get_includes` is the pre-order list of every entry's address |
| `Projections.AddrsComplete` | lib/jsonapi/include_directives.rb:123-134 | every entry's address is listed |
| `Projections.AddrsSound` | lib/jsonapi/include_directives.rb:123-134 | in a tree with distinct sibling names, every listed address leads to an entry |
| `Projections.PathsExactly` | lib/jsonapi/include_directives.rb:71-73 | an address is in `paths` iff it leads to an entry, and there is one path per entry |
| `Projections.JoinedIsPruned` | lib/jsonapi/include_directives.rb:102-104 | the filtered projection is the unfiltered projection of the tree with non-joinable branches removed |
| `Projections.PruneDistinct` | lib/jsonapi/include_directives.rb:104 | removing non-joinable branches keeps sibling names distinct |
| `Projections.PruneNodes` | lib/jsonapi/include_directives.rb:104 | the pruned tree holds exactly the entries that are joinable and whose ancestors are all joinable |
| `Projections.JoinedPathAlong` | lib/jsonapi/include_directives.rb:102-110 | the recursive join filter keeps an address iff every entry along it exists and is joinable |
| `Projections.ModelIncludesExactly` | test/unit/serializer/include_directives_test.rb:142-145 | flattened `model_includes` lists exactly the entries that are joinable along their whole path, each once, in pre-order |
| `Scenarios.NoEagerTree` | test/unit/serializer/include_directives_test.rb:70-90 | the merged tree for `posts.tags` has `posts` in the join and `tags` outside it, both included |
| `Scenarios.NoEagerJoin` | test/unit/serializer/include_directives_test.rb:70-90 | the finished directives for `posts.tags` are exactly the hash the test expects, with no entry volatile |

## Scenarios

`Scenarios.NoEagerTree` and `Scenarios.NoEagerJoin` work through the request
`posts.tags` on a person whose `posts` relationship is eager-loaded on
include and whose posts' `tags` relationship is not.

## Left out

- `warn` at line 87 writes to standard error, so it is not modelled. The model keeps the surrounding branch: the class context stays absent.
- The `raise` at line 132 cannot be reached. `Include` values are only bare names or one-entry hashes.
- The resource-class machinery (`_relationships`, `resource_klass`, `_type`, `try`, `to_sym`) is a schema registry outside this component. It is reduced to the lookup function of `Settings` and the `Resource.typeName` constant.
- The `include_directives` reader (lines 63-65) returns the whole hash `{ include_related: … }`. The model keeps only the value under `:include_related`, in the field `includeRelated`, so the reader adds nothing to model.
- The code commented out at lines 95-97 has no effect.
- `JsonApi.IncludeDirectives.ParseInclude` requires that splitting the include string gives no empty segment (no leading dot, no two dots in a row), because Ruby's handling of such strings is incidental.
- `JsonApi.IncludeDirectives.constructor` requires the same of every include string, for the same reason.
- `JsonApi.IncludeDirectives.SetVolatile` returns the stamped subtree and the constructor stores it. The Ruby method writes `v[:volatile]` into the shared hashes in place. Aliasing between hashes is not modelled, and there is none: every entry is created fresh by the or-assign at line 92.
- `JsonApi.IncludeDirectives.GetRelated` returns the address of the entry instead of the entry itself. The caller marks the entry through that address (`MarkAt`).
