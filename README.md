# godiff: a verified model of the structural differ

godiff compares two Go values and reports their differences as a change log.
It handles structs (matched field by field, by name), slices (by position,
sorted, or keyed by a field), maps of `string` to `interface{}`, and values
behind interfaces. Each entry of the log is a create, update or delete at a
path such as `Items[2].Name` or `Attrs[k2]`, or an error entry. A differ is
built once for a pair of types. `New(from, to, options...)` does this, guided
by struct tags under a configurable key (`diff:"name=...,indexBy=...,sort=true"`).
It can be reused through a registry that caches differs by type pair. Tags can
also decode a string field into a list (`itemSeparator`) or a map
(`pairDelimiter`, `pairSeparator`) before comparing.

This project models that core in Dafny:

- **Values and types**: `Values`, `Shapes`, `Failures`, `Paths`, `Changes`.
  Go values become a `Value` datatype and Go types a `Shape` datatype over a
  `Schema` of struct declarations. Errors and panics become `Outcome`.
- **Tags**: `Text`, `StructTags`, `Tags`, `Decoders`. These cover `ParseTag`,
  `Tag.init`, `removeWhitespace`, reflect's tag lookup, and the list and map
  decoders.
- **Configuration**: `Settings`, `Configs`. The `Config` and `Options` classes
  apply option lists.
- **Construction**: `Accessors`, `Fields`, `Presences`, `Indexing`, `Sorting`,
  `Differs`, `Registries`.
  - The field accessor, the name matcher, the presence provider and the
    slice indexer are classes whose methods fill their fields, each proved
    against a function.
  - `Differs.Build` is `New`, building the whole differ tree eagerly.
  - `Registry` is the type-pair cache.
- **Comparison**: `Engine`, `Walks`.
  - `Engine` states what each differ's `diff` logs and how it ends (normally,
    with a returned error, or with a panic), as functions.
  - `Walks` runs the same comparisons as methods that append to a
    `ChangeLog`. Each method is proved to log exactly the changes the
    matching `Engine` function gives.
- **Laws**: `Placement`, `StructLaws`, `SliceLaws`, `MapLaws`. These prove
  properties of the engine: every change lies under the path being compared,
  the struct differ field by field and under presence checking, the slice
  modes and keyed comparison, and the map differ key by key. The basic struct,
  presence, sorted, keyed and map cases of the differ's tests are lemmas.
- **Findings**: four places where the Go code does not do what it evidently
  means to, each modelled as written and as corrected.

## Model

| member | source | states |
|---|---|---|
| Values.Matches | comparator.go:8-19 | two nils match, nil never matches non-nil, otherwise structural equality |
| Values.MatchesEquivalence | comparator.go:8-19 | `matches` is reflexive and symmetric |
| Values.Deref | accessor.go:29-55 | reading through a pointer yields a smaller value; a non-pointer value is unchanged |
| Values.FieldValue | accessor.go:57-66 | a field read through pointers is nil or strictly smaller than the record it lies in |
| Values.Lookup | map.go:50-66 | a non-nil value under a key is the value of an entry with that key |
| Shapes.StructType | type.go:8-16 | the struct type reached through pointers, if any |
| Shapes.SliceType | type.go:18-26 | the slice type reached through pointers, if any |
| Shapes.InterfaceType | type.go:28-36 | an interface type, or the slice type behind one pointer |
| Shapes.MapType | type.go:38-46 | the map type reached through pointers, if any |
| Shapes.IsTimeType | type.go:52-58 | true exactly when the type left once every pointer is removed is time.Time |
| Shapes.LookThroughPointers | type.go:8-46 | each lookup answers exactly for the type left once the pointers are removed |
| Shapes.ShapeClassesDisjoint | type.go:8-46 | no type is two of struct, slice and map |
| Shapes.InterfaceTypeOfPointerToSlice | type.go:28-36 | interfaceType accepts `*[]T` and rejects `[]T` |
| Failures.Message | struct.go:180-184 | every error the core builds has a non-empty message |
| Changes.TypeText | change.go:3-10 | only the error entry's change type prints as empty |
| Paths.Render | path.go:55-83 | the root prints empty; a child's rendering extends its parent's; a field directly below the root prints as its bare name, without a dot; an entry or element ends in `]` |
| Paths.RenderGrows | path.go:55-83 | every node except an unnamed field adds text |
| Paths.FieldPathRendersDotted | path.go:34-36 | a chain of named fields prints as the names joined with `.` |
| ChangeLogs.ChangeLog.constructor | log.go:13-15 | a new log is empty |
| ChangeLogs.ChangeLog.Size | log.go:13-15 | the size is the number of changes logged, zero exactly when nothing was |
| ChangeLogs.ChangeLog.Add | log.go:18-20 | the change is appended and nothing else changes |
| ChangeLogs.ChangeLog.AddError | log.go:23-28 | a nil error logs nothing; otherwise one untyped entry carrying the message |
| ChangeLogs.ChangeLog.AddCreate | log.go:31-33 | appends one create at the path |
| ChangeLogs.ChangeLog.AddDelete | log.go:36-38 | appends one delete at the path |
| ChangeLogs.ChangeLog.AddUpdate | log.go:41-43 | appends one update at the path |
| ChangeLogs.ChangeLog.ToChangeRecords | log.go:46-59 | one record per change, in log order, stamped with the source and id |
| ChangeLogs.ChangeLog.String | log.go:62-69 | the text is empty exactly when the log is empty |
| ChangeLogs.RecordContents | change.go:17-35 | a record holds the rendered path, the type's text and both values, and never the error |
| ChangeLogs.ErrorRecordLosesMessage | log.go:46-59 | an error entry's record carries no trace of the error |
| Text.SplitAny | differ.go:80-98 | the decoders' splitter always yields at least one piece |
| Text.ToLower | field.go:73-75 | keeps the length and lower-cases each character in place |
| StructTags.GetSingle | struct.go:107 | a tag holding only `key:"value"` yields `value` under `key` |
| Tags.Decodable | tag.go:27-29 | a tag decodes exactly when clearing its pair delimiter and item separator changes it, that is when either is set; the zero tag does not decode |
| Tags.Init | tag.go:31-41 | the tag's own nullify setting wins over the configuration's; a set pair separator is kept; a pair delimiter is split at `\|` into the delimiter list, which joins back to it, and an unset separator becomes `=`; without a pair delimiter the separator and the delimiter list stay as they were; decodability and every other setting are unchanged |
| Tags.InitIdempotent | tag.go:31-41 | initialising twice against one configuration is initialising once |
| Tags.RemoveWhitespace | tag.go:43-52 | the result equals the trimmed value with each `\|`-separated token deleted in turn, or the value unchanged when no tokens are set |
| Tags.RemoveAllShrinks | tag.go:43-52 | deleting tokens never lengthens the text and keeps only its characters |
| Tags.RemoveAllComplete | tag.go:43-52 | no one-character token is left in the result |
| Tags.WhitespaceRemoved | tag.go:43-52 | the result is no longer than the value and holds none of the one-character tokens |
| Tags.ApplyKey | tag.go:76-106 | fails exactly on a precision that is not a decimal, with the invalid-precision error; a valid precision is stored; unknown keys change nothing; never panics |
| Tags.ApplyElement | tag.go:71-110 | one element never panics and never sets the settings Init fills in |
| Tags.ApplyElements | tag.go:71-111 | applying the elements never panics |
| Tags.ParseTag | tag.go:60-113 | the loop's result equals the parse of the comma-separated elements, with `-` meaning ignore |
| Tags.ApplyElementsStep | tag.go:71-111 | parsing from element i on is element i, then the rest |
| Tags.ApplyElementsAppend | tag.go:71-111 | parsing two runs of elements is parsing the first, then the second |
| Tags.ApplyElementsFails | tag.go:89-93 | a parse fails only on an invalid precision and never panics |
| Tags.ApplyElementsLeavesInitFields | tag.go:60-113 | parsing never sets the delimiter list or the nullify flag |
| Tags.ParsedShape | tag.go:60-113 | a failed parse is an invalid precision; a parsed tag has not been initialised |
| Tags.ApplyElementsSingle | tag.go:71-111 | a one-element list parses as that element |
| Tags.ParsedOneElement | tag.go:67-111 | a tag without commas parses as one element |
| Tags.ParsedBareName | tag.go:107-108 | a bare word only sets the reported name |
| Tags.ParsedLaterWins | tag.go:71-111 | a later element for the same key overrides an earlier one |
| Tags.ParsedIgnore | tag.go:62-65 | `-` ignores the field and sets nothing else |
| Tags.SplitPair | tag.go:75 | `key=value` splits in two when the value has no `=` |
| Tags.ParsedKeyValue | tag.go:75-106 | a single `key=value` sets the setting the key names |
| Tags.UnescapeComma | tag.go:72-74 | `key=$coma` unescapes to `key=,` |
| Tags.ParsedEscapedComma | tag.go:72-100 | `key=$coma` sets the key's setting to `,` |
| Decoders.StrItems | differ.go:80-98 | one string value per piece, in order |
| Decoders.DecodeItems | differ.go:80-98 | the loop's list is the decoded list: a pointer to the strings cut at any item separator once whitespace is removed |
| Decoders.AppendItems | differ.go:80-98 | the appended items are exactly the pieces as strings |
| Decoders.DecodedItemsShape | differ.go:80-98 | the decoded value is `*[]string` with at least one piece, each no longer than the text |
| Decoders.WithoutWhitespaceShrinks | tag.go:43-52 | removing whitespace never lengthens the text |
| Decoders.Put | differ.go:115-120 | a map assignment replaces the key's value and leaves every other key |
| Decoders.DecodePairs | differ.go:100-125 | the loop's map is the decoded map, item by item, with a later key winning |
| Decoders.PairsPrefixValues | differ.go:100-125 | each decoded value is a string shorter than one item |
| Decoders.DecodedPairsBelow | differ.go:100-125 | the decoded value is a `map[string]interface{}` of strings, each shorter than the text and smaller than the value decoded |
| Decoders.PairsAsWrittenStep | differ.go:115-120 | one step of the written decoder panics unless the item splits into at least two parts; a panic persists |
| Decoders.PairsAsWrittenAgrees | differ.go:115-120 | the written decoder panics exactly when some item has fewer than two parts, and otherwise builds the corrected decoder's map |
| Decoders.SecondItem | differ.go:100-125 | `a=1;` followed by a tail without `;` splits into the items `a=1` and the tail, so `a=1;b` gives `a=1` and `b`, and `a=1;` gives `a=1` and an empty item |
| Decoders.UnpairedItemPanics | differ.go:115-120 | on `a=1;b` the written decoder panics with index 1 out of range; the corrected one skips `b` |
| Decoders.TrailingDelimiterPanics | differ.go:115-120 | `a=1;` splits into `a=1` and an empty item, and the empty item panics the written decoder; the corrected one skips it |
| Settings.RegistryConfig | registry.go:14-33 | the registry's differs use the default tag key, the given tag and otherwise zero settings |
| Configs.Config.constructor | config.go:6-14 | `&Config{}` has every setting zero and no registry |
| Configs.Config.Init | config.go:17-24 | an empty tag key becomes `diff`; a missing registry becomes a fresh empty one; nothing else changes |
| Configs.Config.Apply | option.go:25-69 | one option changes the configuration as `Applied` says |
| Configs.Initialized | config.go:17-24 | the tag key is never empty afterwards, and only the tag key can change |
| Configs.InitIdempotent | config.go:17-24 | Init twice is Init once |
| Configs.AppliedChangesOnlyItsField | option.go:25-69 | each option sets exactly its own field; WithConfig replaces everything |
| Configs.ApplyAllPair | option.go:25-69 | two options apply in sequence |
| Configs.ApplyAllSnoc | option.go:25-69 | applying a list and one more option is applying the longer list |
| Configs.LastTagNameWins | option.go:25-29 | the tag key is the one given by the last option that sets it |
| Configs.TagNameKept | option.go:25-29 | options that do not set the tag key leave it |
| Configs.WithConfigResets | option.go:58-62 | WithConfig discards every earlier option |
| Configs.RegistryOptions | registry.go:14-33 | `New(..., WithRegistry(r), WithTag(t))` is configured exactly as RegistryConfig(t), with registry r |
| Configs.FieldOptions | struct.go:162-166 | a decoding field's `New(..., WithConfig(c), WithTag(t))` is configured as WithTagConfig says, with c's registry |
| Configs.New | differ.go:128-179 | the options run in order on `&Config{}`, then Init, then the differ is the one Build makes for the two types |
| Configs.Options.constructor | option.go:6-11 | a zero Options |
| Configs.Options.DecDepth | option.go:13-15 | the depth drops by one and nothing else changes |
| Configs.Options.Apply | option.go:16-20 | the options apply in list order |
| Configs.OptionsAppliedSnoc | option.go:16-20 | applying a list and one more option is applying the longer list |
| Configs.OptionsAppliedFields | option.go:38-48 | no option touches depth or nullify; the shallow flag is the last WithShallow's |
| Accessors.GetNullifierKind | accessor.go:114-128 | a nullifier exactly when the tag asks for one, and its kind follows the field's kind |
| Accessors.NewAccessor | accessor.go:101-112 | the accessor keeps the field's position, name and type, reads through non-struct pointers, and takes the tag's nullifier |
| Accessors.Normalize | accessor.go:29-55 | nil stays nil; a norm type outside the supported integer kinds is an error naming the value's type; it never panics |
| Accessors.Read | accessor.go:57-66 | an unset field reads as nil; any other field is normalised |
| Accessors.Addr | struct.go:55-66 | the slice differ is given a pointer to the field itself |
| Accessors.ReadSmaller | accessor.go:57-66 | a value read is nil or smaller than the record |
| Accessors.NullifyIfNeeded | accessor.go:75-99 | the nullifier kind's zero becomes nil, and every other value is kept |
| Accessors.IsNilOrEmpty | accessor.go:68-99 | true exactly for nil, for the empty string under a string nullifier, and for zero under a numeric nullifier; without a nullifier only nil is empty |
| Fields.KindOf | field.go:35-43 | struct, then slice, then interface, then map, with time.Time counted as a scalar |
| Fields.TimeFieldsAreScalar | field.go:35-43 | a time.Time field gets no nested differ |
| Fields.ReportedName | field.go:32-34 | the tag's name when it gives one, else the declared name |
| Fields.NormKeyForm | field.go:73-75 | a normalised key is lower case, has no underscore and is no longer than the key |
| Fields.NormKeyIdempotent | field.go:73-75 | normalising twice is normalising once |
| Fields.AddKeysContents | field.go:47-58 | a field is indexed under its three keys and no other key changes |
| Fields.TargetAccessors | field.go:47-58 | one accessor per target field, in declaration order |
| Fields.IndexPrefixContents | field.go:47-58 | the index holds exactly the target fields' keys, each mapped to the last field that has it |
| Fields.IndexPrefixOk | field.go:47-58 | indexing succeeds exactly when every accessor was built |
| Fields.IndexStep | field.go:47-58 | one more built field extends the index by its keys |
| Fields.TargetAccessorParsed | field.go:47-58 | a field whose tag parses gets the accessor of its initialised tag |
| Fields.Match | field.go:60-71 | the exact name wins; failing it the lower-case name; failing both the normalised name; nothing exactly when all three keys miss |
| Fields.MatchFindsNormalizedName | field.go:60-75 | a source field finds any target field whose name differs only in case and underscores |
| Fields.Matcher.constructor | field.go:47-58 | an empty index |
| Fields.Matcher.Build | field.go:47-58 | the loop panics exactly when an index cannot be built, and otherwise fills in exactly that index |
| Fields.Matcher.AddField | field.go:47-58 | one iteration adds field i's keys, or panics only when the index cannot be built |
| Fields.Matcher.Find | field.go:60-71 | nothing exactly when no key of the name is indexed |
| Presences.Positions | presence.go:33-54 | each field name maps to its last position |
| Presences.PositionsExtend | presence.go:33-54 | recording the last field extends the position map |
| Presences.PositionsDistinct | presence.go:33-54 | distinct names sit at distinct positions |
| Presences.HolderFields | presence.go:33-54 | the holder must point to a struct, otherwise Go panics |
| Presences.FillFrom | presence.go:33-54 | a successful fill keeps one slot per position |
| Presences.EmptySlots | presence.go:33-54 | n empty slots |
| Presences.InitSpec | presence.go:33-54 | without a holder or positions nothing happens, and the holder is never changed |
| Presences.FillFromPlaces | presence.go:33-54 | a successful fill puts each flag at its field's position and leaves every other slot |
| Presences.Has | presence.go:17-23 | set only when the holder's flag for the position is true; a nil holder panics |
| Presences.IsFieldSet | presence.go:26-31 | every field counts as set without a holder, otherwise as Has says |
| Presences.PresenceProvider.constructor | presence.go:10-14 | the holder given and no slots |
| Presences.PresenceProvider.Init | presence.go:33-54 | the provider's new state and status are as InitSpec says |
| Indexing.IndexPrefixDomain | index.go:46-54 | every key seen is indexed and nothing else |
| Indexing.IndexPrefixEntries | index.go:46-54 | an entry holds the last element with its key and that element's position |
| Indexing.IndexPrefixSize | index.go:46-54 | there are at most as many keys as elements |
| Indexing.IndexAtLast | index.go:46-54 | a key's last occurrence is its entry |
| Indexing.FieldKeys | index.go:34-44 | the key field of each element, read through pointers |
| Indexing.KeysBy | index.go:19-32 | `""` or `.` keys by the element itself; a field key needs struct elements; it never returns an error |
| Indexing.IndexedBy | index.go:19-32 | indexing succeeds exactly when the keys can be read |
| Indexing.PrimitiveEntries | index.go:46-54 | keyed by value, the index holds exactly the slice's values, each under itself |
| Indexing.PrimitiveLastWins | index.go:46-54 | a duplicated value keeps the position of its last occurrence |
| Indexing.NamedKeyNeedsStructs | index.go:19-32 | a field key on non-struct elements panics |
| Indexing.FieldEntries | index.go:34-44 | each entry is the element at its position, keyed by that element's field |
| Indexing.EntriesAreItems | index.go:46-54 | entries only ever hold elements of the slice |
| Indexing.Indexer.constructor | slice.go:242-272 | no key field resolved yet |
| Indexing.Indexer.IndexBy | index.go:19-32 | the method's index is IndexedBy's; an empty or `.` key, or a non-struct element, leaves the remembered field alone; a struct element remembers the named field when the struct has it and nothing otherwise |
| Indexing.Indexer.IndexByField | index.go:34-44 | a nil element or an unresolved field panics; otherwise the index keyed by the field |
| Indexing.Indexer.IndexPrimitive | index.go:46-54 | the loop's index keys every element by itself |
| Sorting.StrLessEqTotal | sort.go:12-16 | Go's string order is total |
| Sorting.StrLessEqTransitive | sort.go:12-16 | Go's string order is transitive |
| Sorting.LessEqTotal | sort.go:5-31 | the sort order is total |
| Sorting.LessEqTransitive | sort.go:5-31 | the sort order is transitive |
| Sorting.SortedPairs | sort.go:5-31 | a sorted sequence is ordered between any two positions |
| Sorting.Insert | sort.go:5-31 | inserting adds exactly one element |
| Sorting.InsertPermutes | sort.go:5-31 | inserting adds x to the multiset |
| Sorting.InsertSorted | sort.go:5-31 | inserting into a sorted sequence keeps it sorted |
| Sorting.Sort | sort.go:5-31 | sorting keeps the length |
| Sorting.SortPermutes | sort.go:5-31 | sorting is a permutation |
| Sorting.SortSorted | sort.go:5-31 | sorting yields an ascending sequence |
| Sorting.SortPrimitive | sort.go:5-31 | a sortable slice becomes a new pointer to a sorted copy; anything else is unchanged |
| Sorting.SortPrimitiveSorts | sort.go:5-31 | the copy holds the same elements, ascending |
| Sorting.SortExampleFrom | differ_test.go:152-159 | `[4, 6, 1]` sorts to `[1, 4, 6]` |
| Sorting.SortExampleTo | differ_test.go:152-159 | `[1, 6, 4, 7]` sorts to `[1, 4, 6, 7]` |
| Differs.WithTagConfig | struct.go:162-166 | a decoding field's differ uses its configuration with the field's tag set |
| Differs.NewMapDiffer | map.go:104-107 | built exactly for a map `from` type, keeping both types and the tag, and flagged as supported exactly for `map[string]interface{}` |
| Differs.NewStructDiffer | struct.go:175-196 | a `from` that leads to no struct, then a `to` that leads to none, fails with the error naming it; a built differ keeps its type and configuration |
| Differs.NewSliceDiffer | slice.go:242-272 | keeps the element types and the tag; an interface slice differ exactly when either element type is an interface; a struct item differ exactly for other struct elements |
| Differs.PairsTag | differ.go:100-105 | a copy of the tag with the pair delimiter and separator cleared and every other setting kept, so the map differ behind a pair decoder decodes again only when the tag names an item separator |
| Differs.Build | differ.go:128-179 | two missing types panic; a built differ carries the configuration it was built with |
| Differs.BuildNilTakesOther | differ.go:128-179 | a missing type is taken to be the other |
| Differs.BuildDispatch | differ.go:142-178 | a struct differ exactly for two struct types, a slice differ for two slices, a map differ for two maps, an interface differ for interfaces |
| Differs.BuildDecodes | differ.go:164-174 | a string under a pair delimiter gets the map decoder; under an item separator, the list decoder |
| Differs.MatchFieldsStep | struct.go:95-173 | one field of a successful matchFields is taken as holder, skipped, or kept with its differ |
| Differs.MatchFieldsKeeps | struct.go:95-173 | the compared fields are exactly the kept fields, in declaration order, each with its chosen differ |
| Differs.MatchFieldsTagsParse | struct.go:95-173 | a successful matchFields met no tag that fails to parse |
| Differs.MatchFieldsSkipsHolder | struct.go:111-113 | no field matchFields returns carries the presence tag: the holder is never compared |
| Differs.KeptFieldsNoHolder | struct.go:111-113 | no kept field carries the presence tag |
| Differs.MatchFieldsHolder | struct.go:111-112 | the presence holder is the last field tagged `presence` |
| Differs.PlanForLaws | struct.go:140-166 | a field of the struct's own type reuses its differ; an interface field gets an interface differ; a scalar gets none |
| Registries.DifferTable.constructor | registry.go:43-44 | an empty inner map |
| Registries.DifferTable.Lookup | registry.go:18-32 | a stored differ is returned unchanged; otherwise one is built and kept only on success |
| Registries.GetSpec | registry.go:14-33 | a decoding tag bypasses the cache; a hit returns the stored differ and changes nothing |
| Registries.Registry.constructor | registry.go:49-51 | an empty cache |
| Registries.Registry.GetFromDiffers | registry.go:35-47 | the stored inner map, or a fresh one stored and a different fresh one returned |
| Registries.Registry.Get | registry.go:14-33 | the result and the new cache are as GetSpec says |
| Registries.Registry.LookupIn | registry.go:19-32 | the lookup in the inner map returned for `from` changes the cache only under `from`, and only when that map is the stored one; a fresh map returned for a new `from` leaves the cache as it was |
| Registries.GetTouchesOnlyFrom | registry.go:14-33 | Get returns the stored or a fresh differ, and changes only the `from` type's entry |
| Registries.SecondGetHits | registry.go:26-32 | once `from` has an inner map, a successful miss is stored and the next Get hits it |
| Registries.FirstLookupLost | registry.go:35-47 | the first Get for a new `from` type keeps nothing, so the next Get builds again |
| Registries.FailureNotCached | registry.go:26-28 | a failed build stores nothing |
| Engine.At | slice.go:63-127 | the element at an index inside the slice |
| Engine.DiscoverChangeType | differ.go:70-78 | create exactly when `from` is nil; delete exactly when only `to` is nil |
| Engine.DecodePairsOf | differ.go:100-125 | every entry of the decoded map is smaller than the value it came from |
| Engine.FieldArgs | struct.go:54-74 | the values a field's differ gets are smaller than the records |
| Engine.IfaceTarget | iface.go:14-68 | structs on both sides compare one pointer level down under the given change type; a nil side borrows the other's type as a create or delete; anything else is not compared |
| Walks.Diff | differ.go:22-33 | the log holds the walk's changes, plus a returned error as the last entry at the root; a panic escapes |
| Walks.ScalarDiff | differ.go:55-65 | appends exactly the scalar fallback's changes |
| Walks.DiffWith | differ.go:35-68 | appends exactly Engine.DiffWith's changes and returns its status |
| Walks.DiffWithDecodedItems | differ.go:38-45 | a list-decoding differ compares the decoded lists as plain slices |
| Walks.DiffWithDecodedPairs | differ.go:38-45 | a pair-decoding differ compares the decoded maps |
| Walks.DecodedSliceDiff | differ.go:80-98 | decodes each non-nil side, then logs exactly the slice comparison of the results |
| Walks.DecodedMapDiff | differ.go:100-125 | decodes each non-nil side, then logs exactly the map comparison of the results |
| Walks.StructDiff | struct.go:21-93 | the loop logs exactly the field walk's changes, in field order, and stops at the first returned error |
| Walks.FieldStep | struct.go:28-35 | a read error is logged at the field and the walk goes on |
| Walks.PresentField | struct.go:36-49 | under presence checking, a field marked unset, or the holder itself, is skipped |
| Walks.CompareField | struct.go:51-74 | two nils are skipped; a field with a differ is compared at its own path |
| Walks.ScalarField | struct.go:76-90 | create or delete as the change type and sides say, else an update when the values differ |
| Walks.IfaceDiff | iface.go:14-68 | logs exactly what the struct comparison IfaceTarget picks logs |
| Walks.IfaceStruct | iface.go:31-43 | builds the struct differ for the two types and compares, or returns the build error |
| Walks.SliceDiff | slice.go:20-26 | dispatches to the interface, struct-element or scalar slice comparison |
| Walks.ScalarAt | slice.go:63-127 | one index's change for scalar elements |
| Walks.ScalarWalk | slice.go:63-127 | the loop logs exactly the per-index changes, in index order |
| Walks.EntryAtLast | index.go:46-54 | an entry's position is j exactly when j is the key's last occurrence |
| Walks.IndexedScalars | slice.go:129-148 | the first keyed loop logs exactly the Engine function's changes for the `from` keys |
| Walks.ToOnly | slice.go:148-156 | the second keyed loop creates exactly the keys only `to` has |
| Walks.PlainSliceDiff | slice.go:28-61 | sorts if asked, then compares by key or by position, as Engine.PlainSliceDiff says |
| Walks.IndexedPlainSlice | slice.go:54-58 | indexes both sides, then runs the two keyed loops |
| Walks.ItemSliceDiff | slice.go:28-61 | struct elements: by key or by position through the item differ |
| Walks.ItemWalk | slice.go:63-127 | the loop compares each index through the item differ and stops at the first failure |
| Walks.ItemStep | slice.go:63-127 | one index through the item differ |
| Walks.IndexedItems | slice.go:129-156 | common keys are compared at the slice's path |
| Walks.KeyedItems | slice.go:129-156 | the common keys are compared, then, unless a comparison returned an error, the keys only `to` has are created |
| Walks.IndexedItem | slice.go:129-156 | one `from` key of the keyed struct comparison |
| Walks.IfaceSliceDiff | slice.go:158-208 | each index through the registry's differ for its element type |
| Walks.IfaceSliceWalk | slice.go:158-208 | the loop's changes and status are Engine.IfaceSliceWalk's |
| Walks.IfaceSliceStep | slice.go:180-205 | one index, with a surplus `from` element read from `from` |
| Walks.ElementDiff | slice.go:210-240 | both sides one pointer level down, through the differ for the element type |
| Walks.MapDiff | map.go:17-69 | nil, non-string-keyed and one-sided maps handled as Engine.MapDiff says |
| Walks.BothEntries | map.go:50-66 | the `from` entries, then (unless stopped) the `to` entries `from` lacks |
| Walks.FromEntries | map.go:50-59 | the loop compares each `from` entry with `to`'s value under its key |
| Walks.FromEntry | map.go:50-59 | one `from` entry |
| Walks.ToOnlyEntries | map.go:60-66 | the loop compares each `to` entry whose key `from` lacks with nothing |
| Walks.ToOnlyEntry | map.go:60-66 | one `to` entry; keys `from` has are skipped |
| Placement.WithinRoot | path.go:34-46 | every path lies below the root |
| Placement.WithinTrans | path.go:34-46 | lying below is transitive |
| Placement.Lift | path.go:34-46 | changes under a child lie under its parent |
| Placement.ThenPlaced | differ.go:35-68 | sequencing keeps placement |
| Placement.ErrorWellFormed | log.go:23-28 | an error entry is well formed |
| Placement.ScalarDiffPlaced | differ.go:55-65 | the scalar fallback logs only at its path |
| Placement.ScalarWalkPlaced | slice.go:63-127 | the scalar slice walk logs below the slice |
| Placement.IndexedScalarsPlaced | slice.go:129-148 | the first keyed loop logs below the slice |
| Placement.ToOnlyPlaced | slice.go:148-156 | the second keyed loop logs below the slice |
| Placement.PlainSlicePlaced | slice.go:28-61 | a scalar slice comparison logs below the slice |
| Placement.DiffWithPlaced | differ.go:35-68 | every change Differ.diff logs is well formed and lies at or below its path |
| Placement.DecodedDiffPlaced | differ.go:80-125 | decoded comparisons log below the path |
| Placement.StructDiffPlaced | struct.go:21-93 | struct comparisons log below the struct |
| Placement.StructWalkPlaced | struct.go:27-92 | the field walk logs below the struct |
| Placement.FieldStepPlaced | struct.go:28-92 | one field logs below the struct |
| Placement.ScalarFieldPlaced | struct.go:76-90 | a scalar field logs at the field |
| Placement.CompareFieldPlaced | struct.go:51-74 | a compared field logs below the struct |
| Placement.IfaceDiffPlaced | iface.go:14-68 | interface comparisons log below the path |
| Placement.IfaceStructPlaced | iface.go:31-65 | the struct comparison behind an interface logs below the path |
| Placement.SliceDiffPlaced | slice.go:20-26 | slice comparisons log below the slice |
| Placement.ItemSliceDiffPlaced | slice.go:28-61 | struct-element comparisons log below the slice |
| Placement.ItemWalkPlaced | slice.go:63-127 | the struct-element walk logs below the slice |
| Placement.ItemStepPlaced | slice.go:63-127 | one struct element logs below the slice |
| Placement.IndexedItemsPlaced | slice.go:129-156 | keyed struct comparisons log below the slice |
| Placement.IndexedItemPlaced | slice.go:129-156 | one keyed struct element logs below the slice |
| Placement.IfaceSliceDiffPlaced | slice.go:158-208 | interface-element comparisons log below the slice |
| Placement.IfaceSliceWalkPlaced | slice.go:158-208 | the interface-element walk logs below the slice |
| Placement.IfaceSliceStepPlaced | slice.go:180-205 | one interface element logs below the slice |
| Placement.ElementDiffPlaced | slice.go:210-240 | an element's comparison logs below the element |
| Placement.MapDiffPlaced | map.go:17-69 | map comparisons log below the map |
| Placement.FromEntriesPlaced | map.go:50-59 | the `from` entry loop logs below the map |
| Placement.ToOnlyEntriesPlaced | map.go:60-66 | the `to` entry loop logs below the map |
| Placement.DiffWellFormed | differ.go:22-33 | Diff's log is well formed; a returned error is the one last entry, at the root; Diff panics exactly when the walk crashes |
| StructLaws.FieldStepUnder | struct.go:28-74 | every change one field's step records lies at or below `path.Field(field.name)` |
| StructLaws.FieldUnreadable | struct.go:28-35 | a field whose `from`, then whose `to`, cannot be read records that error at the field and the loop goes on |
| StructLaws.FieldCompared | struct.go:36-53 | a readable field is compared when presence checking is off, or when the holder marks it set and it is not the holder |
| StructLaws.FieldPassedOver | struct.go:36-49 | under presence checking, a field the holder does not mark as set, and the holder field itself, record nothing |
| StructLaws.StructDiffByField | struct.go:26-92 | when the loop finishes, every field's step finished, and the changes at or below one field (names distinct) are exactly that field's own step's changes |
| StructLaws.StructDiffSkipsUnset | struct.go:36-49 | under presence checking nothing is recorded below a field marked unset, nor below the holder |
| StructLaws.PlainFieldStep | struct.go:51-90 | a field without a differ, read as stored, records nothing when both sides are nil, a create in create mode of a present `to`, a delete in delete mode of a present `from`, otherwise an update when the values differ |
| StructLaws.PlainSkip | struct.go:43-45 | a plainly read field the holder does not mark is skipped |
| StructLaws.RecordTopLevel | differ.go:22-33 | diffing two `Record`s (or one and nil) with a zero Time does not fail and yields the scalar rule of ID, then of Name |
| StructLaws.BasicStructDelete | differ_test.go:78-86 | `&Record{ID: 123, Name: "abc"}` against nil logs the deletes of ID 123 and Name "abc" |
| StructLaws.BasicStructUpdate | differ_test.go:87-95 | `&Record{ID: 123, Name: "abc"}` against `&Record{ID: 323, Name: "xtz"}` logs the updates of ID and Name |
| StructLaws.BasicStructCreate | differ_test.go:96-104 | nil against `&Record{ID: 323, Name: "az"}` logs the creates of ID 323 and Name "az" |
| StructLaws.PresTestMarks | differ_test.go:233-238 | of the four compared fields of `PresRecord` (ID, Name, Time, Bar), the holder in `to` marks Name only; Bar has no flag |
| StructLaws.PresWalk | struct.go:27-92 | with those marks, the loop over ID, Name, Time and Bar records only Name's scalar rule |
| StructLaws.PresenceExample | differ_test.go:227-243 | with presence on, a `PresRecord` differ comparing ID, Name, Time and Bar (ScratchPad ignored, the holder Has not compared) logs only the update of Name from "abc" to "xyz"; ID and Bar change but are not marked |
| SliceLaws.ScalarDiffLaw | differ.go:55-65 | nothing for equal values; otherwise one change carrying both values, a delete only when deleting to nil and a create only when creating from nil |
| SliceLaws.ScalarAtShape | slice.go:63-127 | at most one change per index, at that index |
| SliceLaws.WalkMembers | slice.go:63-127 | the walk logs exactly what each index up to the longer length logs |
| SliceLaws.WalkAscending | slice.go:63-127 | indices are visited in ascending order, within the longer slice |
| SliceLaws.UpdateWalkContents | slice.go:63-127 | in update mode, per index: an update when elements differ, a create for a `to`-only index, a create carrying the `from`-only element |
| SliceLaws.UpdateWalkEmpty | slice.go:63-127 | in update mode, nothing is logged exactly when the slices are equal |
| SliceLaws.EqualWalkEmpty | slice.go:63-127 | equal slices walk silently |
| SliceLaws.CreateModeWalk | slice.go:63-127 | with no `from` elements, every `to` element is created at its index, in order |
| SliceLaws.DeleteModeWalk | slice.go:63-127 | with no `to` elements, every `from` element is logged as a create carrying it |
| SliceLaws.TypedSliceModes | slice.go:41-52 | an empty `from` walks in create mode; an empty `to` after a non-empty `from` in delete mode; otherwise update |
| SliceLaws.EqualSlicesNoChange | slice.go:28-61 | equal slices give no change, however they are compared |
| SliceLaws.SameIndexNoChange | slice.go:129-148 | a slice keyed against itself gives nothing in the `from` pass |
| SliceLaws.SameIndexToOnly | slice.go:148-156 | a slice keyed against itself gives nothing in the `to` pass |
| SliceLaws.LastOccurrence | index.go:46-54 | every value of a slice has a last occurrence |
| SliceLaws.PrimitiveFromPass | slice.go:129-148 | keyed by value, the `from` pass deletes exactly the values `to` lacks, at their last position |
| SliceLaws.PrimitiveToPass | slice.go:148-156 | keyed by value, the `to` pass creates exactly the values `from` lacks |
| SliceLaws.PrimitiveFromPassEmpty | slice.go:129-148 | the `from` pass is silent when `to` has every value |
| SliceLaws.PrimitiveIndexLaw | slice.go:54-58 | keyed by value, two non-empty slices differ by exactly their set difference in each direction |
| SliceLaws.SortedItems | slice.go:32-40 | a sortable slice is compared by its sorted items |
| SliceLaws.SortedFrom | differ_test.go:152-159 | the sorted test's `from` is compared as `[1, 4, 6]` |
| SliceLaws.SortedTo | differ_test.go:152-159 | the sorted test's `to` is compared as `[1, 4, 6, 7]` |
| SliceLaws.SortedParts | slice.go:32-40 | sorted and unkeyed, the sorted items are walked by position |
| SliceLaws.IndexedParts | slice.go:54-58 | keyed by value: the `from` pass, then the `to` pass |
| SliceLaws.SortedWalk | differ_test.go:152-159 | `[1, 4, 6]` against `[1, 4, 6, 7]` logs only the create of 7 at index 3 |
| SliceLaws.SortedSliceExample | differ_test.go:152-159 | with sorting on, `[4, 6, 1]` against `[1, 6, 4, 7]` logs only the create of 7 at index 3 |
| SliceLaws.SortedOnly7 | differ_test.go:152-159 | any slices sorting to those two give only that create |
| SliceLaws.SurplusFromExample | differ_test.go:133-150 | a nil `to` after `[10, 2]` logs both `from` elements as creates |
| SliceLaws.IndexedToPass | differ_test.go:160-167 | the keyed test's `to` pass creates only 2 |
| SliceLaws.IndexedSliceExample | differ_test.go:160-167 | keyed by value, `[4, 6, 1]` against `[1, 2, 6, 4]` logs only the create of 2 at `to` index 1 |
| MapLaws.ScalarBuildsPlain | map.go:71-102 | the registry's differ for a scalar type under a plain tag is the scalar fallback |
| MapLaws.ScalarElementDiff | map.go:71-102 | an entry of scalars is compared by the scalar fallback at the entry's path |
| MapLaws.FromEntriesScalar | map.go:50-59 | the `from` entry loop on scalars is the reference's comparisons |
| MapLaws.ToOnlyEntriesScalar | map.go:60-66 | the `to` entry loop on scalars is the reference's comparisons |
| MapLaws.LookupScalar | map.go:50-66 | under a scalar map, a key holds a scalar or nothing |
| MapLaws.MapDiffScalar | map.go:17-69 | for scalar maps under a plain tag, the map differ ends normally and logs exactly the reference's changes |
| MapLaws.MapDiffUnsupported | map.go:21-35 | a map differ not of `map[string]interface{}` fails on any non-nil side, logging nothing |
| MapLaws.MapDiffByKey | map.go:50-66 | per key: nothing when equal, one update when different, an update to nil for a `from`-only key, a create for a `to`-only key |
| MapLaws.MapDiffNilFrom | map.go:38-43 | a nil `from` records each `to` key once, as an update from nil |
| MapLaws.MapDiffNilTo | map.go:44-49 | a nil `to` records each `from` key once, as an update to nil |
| MapLaws.MapDiffEqual | map.go:50-66 | two equal scalar maps give no change |
| MapLaws.TestMapsChanges | differ_test.go:185-198 | the reference changes of the test's two maps are the single update of `k2` |
| MapLaws.MapFieldExample | differ_test.go:185-198 | the map field test logs only an update of `k2` from `abc` to `xyz` |
| Findings.SliceFieldChangeTypeInverted | struct.go:55-66 | as written, two present slices are passed on as a delete, as is a slice only in `to`, while one only in `from` is an update |
| Findings.IfaceDeleteIgnoresTo | slice.go:158-182 | in diffIfacedSlice's delete case each `from` element is diffed against nil, so the walk gives the same result whatever the `to` items are |
| Findings.SliceFieldChangeTypeCorrected | struct.go:55-66 | the engine passes create exactly when `from` is missing, delete exactly when only `to` is, update otherwise |
| Findings.SurplusFromElementLost | slice.go:191-193 | as written, an element dropped from `to` is never read |
| Findings.IfaceElementCallInBounds | slice.go:180-205 | corrected, every index is read in bounds and a surplus `from` element goes as a delete |
| Findings.IfaceSliceStepCorrected | slice.go:180-205 | the engine's step is the corrected call at the element's path |
| Findings.Prepare | slice.go:210-240 | the corrected preparation types the element by its non-nil side, one pointer level down |
| Findings.PointerElementCrashes | map.go:71-102 | as written, a pointer-to-struct element panics |
| Findings.SliceDeleteCrashes | slice.go:210-240 | as written, deleting a slice element asks the type of the missing `to` and panics |
| Findings.PrepareCorrected | slice.go:210-240 | the correction always reaches the registry with the non-pointer type of the side present |
| Findings.ElementDiffPrepared | slice.go:210-240 | the engine compares an element exactly as the corrected preparation says |

## Left out

- Reflection, `unsafe` pointer arithmetic and xunsafe field offsets are not
  modelled. A record is a list of named fields, and an accessor reads a
  field by name.
- Values.Value: `IsNil` from xunsafe becomes "the zero of a non-pointer field
  reads as nil" (`Nil`, values.dfy:5-7). It is applied by Accessors.Read and
  Accessors.IsNilOrEmpty. A pointer whose target is the zero value is not
  told apart from it the way raw memory would be.
- Values.Value: floating-point numbers are stored as integers (`Num(kind, n: int)`).
  - Float32 and float64 slices are sorted as integers, in Sorting.SortPrimitive
    and SliceLaws.IndexedSliceExample (sort.go:17-28).
  - The float nullifiers compare against integer zero in
    Accessors.NullifyIfNeeded (accessor.go:89-96).
  - NaN, negative zero and rounding are not modelled.
- Values.Matches: Go's `==` panics on uncomparable dynamic values (slices,
  maps). Matches is total and compares structurally instead.
- Values.Matches, Engine.ScalarAt and Indexing.PrimitiveEntries: a `Ref` is
  compared by its target, not by its address. Go's `==` on two pointers
  (comparator.go:18, index.go:50) is true only when they point to the same
  object. Two distinct pointers to equal values match here and would not
  match in Go, and they share one index key.
- Indexing.FieldEntries, Indexing.PrimitiveEntries, Indexing.Indexer.IndexByField
  and Indexing.Indexer.IndexPrimitive: Go stores each entry in a map keyed by
  `interface{}` (index.go:41, 51), and that assignment panics when the key's
  dynamic type is not hashable, such as a `[][]int` slice keyed by `.`. The
  model's index is keyed by `Value` and never panics there.
- Walks.IfaceSliceDiff and Engine.IfaceSliceDiff: a nil side reads as an
  empty list. diffIfacedSlice (slice.go:160-163) calls xunsafe's `Len` on
  that nil pointer without the guard diffTypedSlice has (slice.go:43-50).
  xunsafe is not part of this model, so its `Len` of a nil pointer is
  taken as 0, where Go may fault.
- ChangeLogs.ChangeLog.ToChangeRecords and ChangeLogs.RecordOf: log.go:51
  sets an `ID` field that the `ChangeRecord` type (change.go:17-26) does not
  declare; it has only `SourceID` and `UserID`. The model puts the id in
  the `sourceID` position, the second field of ChangeRecord.
- Values.Value: `Dict` entries carry no distinct-key invariant, so a map
  value can hold a key twice. MapLaws states its laws only for maps with
  distinct keys (`ScalarMap`).
- Text.ToLower folds ASCII letters only. Go's Unicode case folding is not
  modelled. This affects tag keys (Tags.ApplyElement) and field-name
  matching (Fields.NormKey, Fields.Match).
- Text.SplitAny: the decoders' splitter (text.dfy:622) splits on an exact
  match of any separator. The case-insensitive splitter library the
  decoders call is not part of this model. Decoders.DecodeItems and
  Decoders.DecodePairs inherit this.
- Engine.FromEntries and Engine.ToOnlyEntries: Go's random map iteration
  order is taken as the association list's order (map.go:39-59).
  Engine.IndexedScalars and Engine.ToOnly visit keys in order of their
  last occurrence (slice.go:130,148). Go visits them in map order. Which
  changes are logged is the same; their order in the log can differ.
- Engine.DiffWith: the `*Options` argument of `structDiffer.diff` becomes a
  per-call `presence` bool that Engine.Diff and Walks.Diff take as a
  parameter and pass unchanged to every nested comparison. struct.go:36
  reads `options.presence`, but the `Options` type (option.go:6-11) has no
  such field, and no option in the source sets one; differ_test.go:239
  calls a `WithPresence` that is not defined. `Config` has a
  `withPresence` field (config.go:13) that nothing reads. Configs.Config
  keeps it, only WithConfig copies it, and the engine never consults it.
  The other settings of `Options` (set marker, shallow, depth) are
  modelled only in Configs.Options.
- Engine.IfaceStruct and Engine.ElementDiff never consult the registry
  cache. They build a fresh differ with `Build(RegistryConfig(tag))`, as a
  cache miss does. Go's `Registry.Get` (registry.go:14-33) returns the
  cached differ whatever tag asked for it. The cache itself is modelled
  separately in Registries.Registry.
  - A differ cached under one tag and fetched under another would compare
    differently in Go; the engine does not capture this.
  - iface.go:32,46,57 call `registry.get`, which registry.go does not
    define. The model reads it as `Get`.
- Differs.Build: construction recurses with a fuel of `NestingLimit` (64)
  levels. Running out is modelled as a stack-overflow panic, where Go would
  recurse until the stack is exhausted.
- Configs.ConfigOption: `WithConfig` carries a value snapshot of the source
  configuration, not a pointer to it. Later changes to that configuration
  are not seen.
- ChangeLogs.ChangeLog.String returns `None` for a non-empty log. The JSON
  encoding of the records is not modelled.
- `time.Time` values are opaque scalars compared by equality. The time
  layout and precision settings are parsed but never used in a comparison.
- The exported `Comparator` interface (comparator.go:4-6) has no caller in
  the core and is not modelled.
- Differs.NewMapDiffer panics on a non-map type, as Go's `Elem` does. The
  model does not distinguish the different panic messages.
- MapLaws: the key-by-key laws cover maps of scalars under a tag that does
  not decode. Nested maps follow the same engine but are not restated there.
- Registry locking (`sync.RWMutex`) and concurrent use are not modelled.
- Benchmarks and the example test are not part of this model. Cases from
  differ_test.go are restated as lemmas: sorted and keyed slices, the
  repeated-slice case and the map field.

## Findings

| source | as written | input that shows it | evidently intended | confidence | as-written member | corrected member |
|---|---|---|---|---|---|---|
| struct.go:55-66 | a non-nil `to` slice sets the change type to delete after a nil `from` set create, so two present slices are compared as a delete | the `Ifs []interface{}` field of `Repeated`: `[&Record{Name: "test 1"}]` against `[Record{Name: "test 2"}]` (differ_test.go:177-184). The field's differ is told delete, so diffIfacedSlice (slice.go:178-182) hands `Ifs[0]` over as a delete and never reads `to`, where the test expects an update at `Ifs[0].Name`. As written, `diffIfaceElement(value, nil, Delete)` then sets both sides from the nil `to` (slice.go:215-217) and panics at slice.go:235 calling `Type()` on the zero Value; the model reports `Ifs[0]` deleted only once the third row's correction is applied. Only interface slices are affected: diffTypedSlice recomputes the change type (slice.go:41) | create when only `to` has the slice, delete when only `from` has it, update when both do | not executed | Findings.SliceFieldChangeTypeAsWritten, Findings.SliceFieldChangeTypeInverted, Findings.IfaceDeleteIgnoresTo | Engine.FieldArgs, Findings.SliceFieldChangeTypeCorrected |
| slice.go:191-193 | in update mode, an index past the end of `to` reads the element from `to` again instead of from `from` | `[]interface{}{a, b}` against `[]interface{}{a}` | the surplus `from` element is handed over as a delete | not executed | Findings.IfaceElementCallAsWritten, Findings.SurplusFromElementLost | Engine.IfaceSliceStep, Findings.IfaceSliceStepCorrected |
| slice.go:210-240, map.go:71-102 | `Elem()` is asked of a pointer's value rather than its type, and, for a slice delete, the type is taken from the missing `to` | an element `&Record{...}`; or deleting a slice element (`to` nil) | both sides one pointer level down, typed by the side that is present | not executed | Findings.PrepareAsWritten, Findings.PointerElementCrashes, Findings.SliceDeleteCrashes | Findings.Prepare, Findings.PrepareCorrected, Findings.ElementDiffPrepared |
| differ.go:115-120 | both parts of `key<sep>value` are read before their count is checked, so an item without a separator indexes past the end and panics | `a=1;b` under `pairDelimiter=;` (Decoders.UnpairedItemPanics). An empty item panics as well, but the trailing delimiter in `a=1;` yields one only under this model's splitter | an item that is not exactly one pair is skipped | not executed | Decoders.PairsPrefixAsWritten, Decoders.PairsAsWrittenAgrees | Decoders.DecodedPairs, Decoders.DecodedPairsBelow |
