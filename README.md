# go-libs-config builder core in Dafny

This project models the builder in `builder/internal.go`. The builder receives a
flat list of SSM parameters, each with a slash-delimited name such as
`/app/user/name` and a string value, and turns it into one nested
configuration tree. It models the following operations:

- **Paths** (`paths.dfy`): `strings.Split`, `strings.Join` and `strings.Count`
  on `/`, the trims, `extractRelativePath` and `getLastPathSegment`.
- **ConfigTree** (`config_tree.dfy`):
  - the tree `Node = Scalar | Mapping | Sequence`;
  - the parameter record;
  - `parseParameterValue` (`ParseValue`), over a JSON parser given as a function parameter;
  - lookup along a path;
  - `Enumerates(order, keys)`, which says that `order` lists a key set once each in some order. This stands for Go's unspecified map iteration order.
- **Levels** (`levels.dfy`): `organizeParametersByLevel`. Each parameter is filed in a two-level map: level key → child key → parameter. The key `"."` is the sentinel.
- **NestedPaths** (`nested.dfy`): `buildNestedObject` and `buildNestedStructure`, with the path walk that creates intermediate mappings.
- **Assembly** (`assembly.dfy`):
  - `shouldBeArray` and `buildArrayFromMap`;
  - `processRootLevel` and `processNestedLevel`;
  - `buildGenericStructure` and `buildStructure`.
- **DeepMerge** (`merge.dfy`): `mergeMaps`, with a functional `Merge` as its specification.
- **YamlRules** (`yaml_rules.dfy`): `buildYAMLStructure`, over YAML map and list parsers given as function parameters.
- **DependencySort** (`dependency_sort.dfy`): `sortTypesByDependencies`, a depth-first topological sort of `schema["types"]` over the fields' `ofType` references, with cycle detection.
- **StructureFacts** (`structure_facts.dfy`): end-to-end outcomes for small parameter sets.

### How Go's behaviour is modelled

- **Map iteration order.** Every loop over a Go map picks its next key with
  `:|`, so every order is covered. Where the result depends on the order, the
  contract says "there is an enumeration of the keys such that …":
  - `ListsValues` for arrays;
  - `NestedFrom` for nested structures;
  - `AssembledFrom` for the whole tree.
- **Maps changed in place.** The maps that Go updates in place (`result`,
  `dest`, `levels`, `schema`) are passed in and returned as new values.

### Behaviour of the code worth knowing

The model follows the code in each case.

- **Leaf-only levels become lists.** A level with more than one child, all
  of them plain names (no `/`), becomes a list, not an object. For example,
  `/p/user/name` and `/p/user/age` give `user: [..]`. See
  `StructureFacts.LeafSiblingsBecomeList`. The sentinel `.` counts as a plain
  name, so `/p/user` together with `/p/user/name` also gives `user: [..]`.
  A level with a single child is never a list: `/p/user/name` alone gives
  `user: {name: ..}`.
- **Prefix stripping is not segment-aware.** The prefix `/p` turns `/pq/a`
  into `q/a`. See `Paths.PrefixNotSegmentAware`.
- **Merge is not associative.** Merging three trees gives different results
  depending on how the merges are grouped: a list between two mappings under
  the same key discards the first mapping in one grouping and not in the
  other. See `DeepMerge.MergeNotAssociative`.
- **The nested structure depends on map order.** With a scalar at `b` and a
  value at `b/c` in the same level, the result depends on which is visited
  first. See `NestedPaths.NestedOrderDependent`.
- **The sort is a depth-first search over `ofType` only.** It follows the
  `ofType` of each field (`builder/internal.go:294-301`) and never looks at
  field arguments, so a type referred to only from an argument can come after
  the type that uses it.
- **The sort does not compile as written.**
  - `builder/internal.go:279` asserts `schema["types"]` to `interface{}` and
    then ranges over it.
  - `builder/internal.go:333` tests `err != visit(name)`, but `err` is never
    declared.
  - The model follows the evident intent: `types` must be a list, and the
    first error from `visit` is returned.

## Model

| member | source | states |
|---|---|---|
| Paths.Count | builder/internal.go:139 | `strings.Count(s, "/")`: zero exactly when `s` has no separator, and never more than its length |
| Paths.CountOccurrences | builder/internal.go:139 | `strings.Count(s, "/")` is exactly the number of occurrences of `/` in `s` |
| Paths.Split | builder/internal.go:174 | Splitting gives one more piece than the string has separators, and no piece contains a separator |
| Paths.Join | builder/internal.go:186 | `strings.Join(parts, "/")`: the first piece starts the result, and separator-free pieces give one separator fewer than there are pieces |
| Paths.JoinSplit | builder/internal.go:174-186 | Joining the pieces of a split with `/` gives back the original string |
| Paths.SplitJoin | builder/internal.go:174-186 | Splitting a join of separator-free pieces gives back the pieces |
| Paths.SplitInjective | builder/internal.go:174 | Two strings with the same pieces are equal |
| Paths.SplitLast | builder/internal.go:211-212 | The last piece is a suffix of the string, and when shorter than the string it is preceded by a separator |
| Paths.TrimPrefix | builder/internal.go:203 | `strings.TrimPrefix`: when `s` starts with the prefix, the result is what follows it; otherwise `s` unchanged |
| Paths.TrimSuffix | builder/internal.go:202 | `strings.TrimSuffix`: when `s` ends with the suffix, the result is what precedes it; otherwise `s` unchanged |
| Paths.TrimSlashes | builder/internal.go:204 | `strings.Trim(s, "/")`: a stretch of `s` with only separators before and after it, itself neither starting nor ending with one |
| Paths.TrimLeftSlashes | builder/internal.go:204 | The result does not start with `/`, is a suffix of the input, and only `/` was removed |
| Paths.TrimRightSlashes | builder/internal.go:204 | The result does not end with `/`, is a prefix of the input, and only `/` was removed |
| Paths.ExtractRelativePath | builder/internal.go:200-207 | With prefix stripping, the result is empty or has no leading or trailing `/`; without it, the result is the full name unchanged |
| Paths.RelativeOfChild | builder/internal.go:200-207 | A name `base/rest` relative to `base` or to `base/` is `rest`, and `base` relative to itself is empty |
| Paths.PrefixNotSegmentAware | builder/internal.go:203 | Prefix `/p` strips `/pq/a` to `q/a`: stripping does not respect segment boundaries |
| Paths.LastPathSegment | builder/internal.go:210-213 | The last segment contains no `/`, is a suffix of the path, and is preceded by `/` when shorter than the path |
| ConfigTree.ParseValue | builder/internal.go:216-222 | `parseParameterValue`: the decoded JSON value when the text decodes, and otherwise the raw text as a scalar |
| ConfigTree.EnumerationLength | builder/internal.go:32 | An enumeration of a key set has exactly one position per key |
| Levels.LocateCases | builder/internal.go:163-193 | An empty relative path files the parameter at level `.` under its last name segment. A one-segment path `s` files it at level `s` under `.`. A longer path files it at its first segment under the rest, and splitting the rest gives the remaining segments |
| Levels.OrganizeParametersByLevel | builder/internal.go:160-197 | The loop builds exactly `Group`, the parameters filed in list order |
| Levels.FileParameter | builder/internal.go:164-192 | One loop turn puts the parameter into the slot of its relative path, creating the level when it is missing |
| Levels.GroupComplete | builder/internal.go:163-194 | Every parameter's slot is present in the grouped map |
| Levels.GroupLastWins | builder/internal.go:172-191 | Each slot holds the last parameter of the list filed there |
| Levels.GroupLevelsNonEmpty | builder/internal.go:169-191 | No level of the grouped map is empty |
| Assembly.ShouldBeArray | builder/internal.go:131-148 | True exactly when the level has more than one child and no child key contains `/` |
| Assembly.BuildArrayFromMap | builder/internal.go:151-157 | The list holds each child's parsed value once, in some enumeration of the child keys |
| Assembly.ListsValuesFacts | builder/internal.go:151-157 | Such a list is as long as the level, holds every child's parsed value, and holds nothing else |
| Assembly.ProcessRootLevel | builder/internal.go:44-54 | Several root parameters give a list under `items` only. One parameter is stored under its own name. Nothing else changes |
| Assembly.ProcessNestedLevel | builder/internal.go:57-75 | Only the level key changes. A single `.` child gives its parsed value; a single path child gives a chain of mappings; an array-shaped level gives a list; otherwise a nested structure |
| Assembly.StepEffect | builder/internal.go:32-38 | One level step adds exactly the keys it writes and leaves every other entry unchanged |
| Assembly.BuildGenericStructure | builder/internal.go:29-41 | The result is the empty map followed by one step per level key, in some order of the level keys |
| Assembly.BuildStructure | builder/internal.go:17-26 | No parameters give the empty map; otherwise the result is assembled from the grouped levels |
| Assembly.AssembledKeys | builder/internal.go:29-41 | The result's keys are the non-root level keys plus the keys the root level writes, for any order |
| Assembly.AssembledLevel | builder/internal.go:32-38 | A non-root level the root does not overwrite holds the value `processNestedLevel` builds for it, for any order |
| Assembly.AssembledRoot | builder/internal.go:44-54 | Without collisions, several root parameters are listed under `items`, and a single one is stored under its name, for any order |
| NestedPaths.InsertAlongPath | builder/internal.go:85-105 | The in-place walk over the path computes `InsertPath` |
| NestedPaths.InsertPathFinds | builder/internal.go:85-88 | After insertion, looking up the path gives the inserted value |
| NestedPaths.InsertPathOffPath | builder/internal.go:85-105 | Paths that are neither a prefix nor an extension of the inserted path keep their old lookup |
| NestedPaths.InsertPathReplacesConflict | builder/internal.go:94-99 | A non-mapping at an intermediate prefix is replaced by a fresh mapping holding only the rest of the path |
| NestedPaths.BuildNestedObject | builder/internal.go:113-128 | The result is the insertion of the value along the split child path into an empty map |
| NestedPaths.ChainShape | builder/internal.go:113-128 | The result is a chain of single-key mappings with the value at the end, and is empty off the path |
| NestedPaths.BuildNestedStructure | builder/internal.go:78-110 | The result is the children inserted one by one, in some enumeration of the child keys |
| NestedPaths.FirstSegmentsFrom | builder/internal.go:82 | Every first segment comes from some child path |
| NestedPaths.InsertAllKeys | builder/internal.go:81-107 | The keys after the inserts are the old keys plus the first segments of the inserted paths |
| NestedPaths.InsertAllFinds | builder/internal.go:81-107 | When no child path extends another, each child's value is found at its split path |
| NestedPaths.NestedFromKeys | builder/internal.go:78-110 | The top-level keys of a nested structure are exactly its children's first segments, for any order |
| NestedPaths.NestedFromFinds | builder/internal.go:78-110 | When no child path extends another, each child's parsed value is found at its path, for any order |
| NestedPaths.NestedOrderDependent | builder/internal.go:81-106 | Children `b` (a scalar) and `b/c` give `{b: {c: ..}}` in one order and `{b: scalar}` in the other |
| DeepMerge.Merge | builder/internal.go:225-243 | The merged keys are the union of both key sets |
| DeepMerge.MergeMaps | builder/internal.go:225-243 | The loop over the source keys computes `Merge`: destination-only keys keep their value, two mappings merge recursively, two lists concatenate, and otherwise the source value wins |
| DeepMerge.MergeValue | builder/internal.go:227-241 | One key held by both sides gets the merged entry |
| DeepMerge.MergeEmptySource | builder/internal.go:225-243 | Merging an empty source leaves the destination unchanged |
| DeepMerge.MergeIntoEmpty | builder/internal.go:225-243 | Merging into an empty destination gives the source |
| DeepMerge.MergeAlong | builder/internal.go:228-232 | Along a path of mappings on both sides, a lookup in the merge is the combination of the lookups on each side |
| DeepMerge.MergeKeepsSourceScalar | builder/internal.go:241 | A scalar of the source is found at its path in the merge, whatever the destination holds |
| DeepMerge.MergeConcatenatesLists | builder/internal.go:234-238 | Two lists under one key become the destination's items followed by the source's |
| DeepMerge.MergeNotAssociative | builder/internal.go:225-243 | A concrete counterexample: merging three maps in two different groupings gives different trees |
| YamlRules.RuleKey | builder/internal.go:353-355 | The rule key is the relative path when it is non-empty, and otherwise the name's last segment: a separator-free suffix of the name that is the whole name or is preceded by `/` |
| YamlRules.BuildYamlStructure | builder/internal.go:344-381 | The loop returns the fold of the per-parameter step over the list, stopping at the first error |
| YamlRules.YamlParameter | builder/internal.go:348-377 | One parameter: nested path is an error; a mapping is merged; a list is stored under its rule key unless the key exists; anything else is an error |
| YamlRules.FailureIsFinal | builder/internal.go:351-374 | A failure after some prefix of the list is the result for the whole list |
| YamlRules.StepKeeps | builder/internal.go:358-377 | A successful step keeps every existing key, and keeps its value unless a merged mapping holds it |
| YamlRules.EntriesSurvive | builder/internal.go:347-378 | Keys present after a prefix survive to the end, unchanged when no later mapping holds them |
| YamlRules.YamlSuccessFacts | builder/internal.go:350-370 | On success, no relative path contains `/`, and every value parses as a mapping or a list |
| YamlRules.YamlListStored | builder/internal.go:377 | On success, each list rule is present under its key, and holds exactly its list unless a later mapping writes that key |
| YamlRules.YamlListKeysDistinct | builder/internal.go:373-375 | On success, two list rules never share a rule key |
| YamlRules.YamlMappingKeysKept | builder/internal.go:358-363 | On success, every key of a merged mapping is present in the result |
| YamlRules.ListKeyNotInEarlierMapping | builder/internal.go:358-375 | On success, a list rule's key is not a key of any earlier mapping parameter, since the merged key would make it a duplicate |
| DependencySort.IndexTypes | builder/internal.go:288-303 | The indexing loop builds the name index and the dependency lists |
| DependencySort.CollectRefs | builder/internal.go:296-301 | The field loop appends each field's string `ofType` reference to the type's list |
| DependencySort.TypeMapKeys | builder/internal.go:288-291 | The index's names are exactly the names of the listed types |
| DependencySort.TypeMapValue | builder/internal.go:288-291 | Under each indexed name sits the last listed type with that name |
| DependencySort.ObjectsPermuteTypes | builder/internal.go:328-339 | When no two types share a name, the objects listed in any order of the indexed names are a permutation of the input types |
| DependencySort.DepMapRefs | builder/internal.go:293-301 | `v` is a dependency of `n` exactly when some type named `n` has a field referring to `v` |
| DependencySort.Objects | builder/internal.go:328 | The type objects appear in the order of the sorted names |
| DependencySort.Visit | builder/internal.go:311-330 | On success, the type is finished, the search invariant holds, and the stack is unchanged. On failure, a cycle starts at the reported name |
| DependencySort.VisitDependencies | builder/internal.go:319-325 | On success, every declared dependency is finished. On failure, a cycle starts at the reported name |
| DependencySort.StackCycle | builder/internal.go:312-314 | Meeting a type already on the stack closes a dependency cycle through it |
| DependencySort.AppendFinished | builder/internal.go:326-328 | Appending a type whose dependencies are all finished keeps the sorted list duplicate-free with dependencies first |
| DependencySort.SearchDone | builder/internal.go:332-336 | Once every type is finished, the sorted names are a topological order |
| DependencySort.SortTypesByDependencies | builder/internal.go:278-341 | A missing or non-list `types` is an error. Otherwise the sort succeeds exactly when the graph is acyclic. On success only `types` changes, to the objects in a topological order, and when no two types share a name it is a permutation of the input list. On failure, a cycle starts at the reported type |
| DependencySort.TopoOrderAcyclic | builder/internal.go:311-330 | A graph with a topological order has no cycle |
| DependencySort.EdgeEarlier | builder/internal.go:319-328 | In a topological order, a dependency comes before its dependent |
| DependencySort.DependentAfterDependency | builder/internal.go:278-341 | Types `[B → A, A]` have exactly one order, `[A, B]` |
| DependencySort.MutualReferenceIsCycle | builder/internal.go:312-313 | Types `A → B` and `B → A` form the cycle `[A, B, A]` |
| DependencySort.UndeclaredReferenceIgnored | builder/internal.go:320 | A reference to an undeclared type is listed but is not a graph edge |
| StructureFacts.GroupOfOne | builder/internal.go:163-194 | One parameter gives one level holding one slot |
| StructureFacts.SingleSlot | builder/internal.go:44-75 | One parameter in one slot gives its value under its name, under its level, or as a chain under its level |
| StructureFacts.SingleParameter | builder/internal.go:17-75 | The tree of a single parameter, by the slot it is filed in, with its value found along its path |
| StructureFacts.ChildSlot | builder/internal.go:176-182 | `base/a` is filed at level `a` under `.` |
| StructureFacts.GrandchildSlot | builder/internal.go:183-191 | `base/level/child` is filed at level `level` under `child` |
| StructureFacts.SiblingLeaves | builder/internal.go:57-66 | `base/a` and `base/b` give `{a: value, b: value}` |
| StructureFacts.SiblingSlots | builder/internal.go:57-66 | Two levels, each with a `.` child, hold their parsed values |
| StructureFacts.LeafSiblingsBecomeList | builder/internal.go:69-70 | `base/l/c1` and `base/l/c2` give `{l: [..]}`, a list of both values, not an object |
| StructureFacts.LeafSlots | builder/internal.go:69-70 | A level with two plain children becomes a two-element list of their values |
| StructureFacts.TwoLeavesArrayShaped | builder/internal.go:131-148 | Two distinct separator-free children are array-shaped |

## Left out

- `getParametersByPath` (`builder/internal.go:246-275`): paginated network calls to SSM and the sort by name. The model takes any parameter list, so no uniqueness or sortedness is assumed.
- `json.Unmarshal` and `yaml.Unmarshal`: foreign parsers. They are function parameters (`JsonParser`, `MapParser`, `ListParser`):
  - the JSON fallback to the raw text is modelled in `ParseValue`;
  - parse error messages are not modelled.
- Scalar kinds: numbers, booleans, null and strings are all one `Scalar(text)`. The encoders that would print them are not part of this model.
- `builder/builder.go`, `builder/types.go` and `examples/main.go` are not part of this model. They orchestrate fetching, merging and serialisation, declare structs, and load AWS configuration.
- Go aliasing: Go shares maps between `dest`, `src` and nested levels, and the model has no such sharing. Maps updated in place, including `schema` in `sortTypesByDependencies`, are passed and returned by value.
- Map iteration order: never fixed. Order-dependent results are stated for some enumeration of the keys. Which value wins when a non-root level is named like a root name or `items` is left open; `NoCollision` rules that case out.
- Error message texts: the errors are datatype values naming the offending parameter, key or type.
- DependencySort.SortTypesByDependencies: the Go type assertions panic on malformed types; the model requires well-formed types instead. These are mappings with a string `name`, whose `fields`, when a list, hold mappings.
- DependencySort.SortTypesByDependencies: because every scalar is one `Scalar(text)`, a numeric, boolean or null `name` is accepted as a name where Go's `.(string)` panics (`builder/internal.go:290`), and such an `ofType` counts as a reference where Go's `.(string)` skips it (`builder/internal.go:298`).
- DependencySort.SortTypesByDependencies: when two listed types share a name, the output holds the last of them once; the permutation clause is stated only for distinct names, because with repeated names the output is shorter than the input.
- DependencySort.SortTypesByDependencies: the search collects names and maps them to type objects at the end. Go appends the objects as it goes; the resulting list is the same.
- DependencySort.SortTypesByDependencies: Go stores the sorted list as `[]map[string]interface{}`, or as nil when it is empty (`builder/internal.go:306`, `338`). A list assertion on `types` would refuse that value on a second sort of the same schema. The model stores an ordinary list, so a second sort is accepted.
- DependencySort.SortTypesByDependencies: the failure case states that a cycle starts at the reported type. It does not say which cycle the search meets first, because that depends on map order.
- YamlRules.YamlListStored: the stored list is stated exactly only when no later mapping parameter writes the same key, because a later merge may replace it.
- Assembly.AssembledRoot: stated only without key collisions, because with a collision the winner depends on map order.
- The `sortByDependencies` parameter of `buildStructure` is unused in the code and does not appear in the model.
