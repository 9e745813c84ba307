# A verified model of ScyllaDB's serializer generator and bookkeeping logic

This project is a Dafny model of the core of ScyllaDB, with proofs about it.
The main part is the IDL compiler (`idl-compiler.py`), which turns interface-definition files into C++ serializers:

- `IdlTypes`: its abstract syntax tree (namespaces, classes, enums, members, basic and template types) and the helpers that classify and render types.
- `IdlRegistry`: the registries of writable types and stubs, the writable-type dependency analysis, and the Kahn-style topological sort.
- `IdlMetadata`: the namespace-context and template-parameter annotation of the tree.
- `IdlEmit`: the decisions of the `write`, `read` and `skip` generators and of the declaration emitter.

The rest of the project models the self-contained, sequential decisions of the server, one module per source file:

- `TokenMetadata` (token ring bookkeeping), `ReplicationStrategy` (range unwrapping and selection) and `StorageService` (ranges, modes, node-operation admission, option parsing), on top of the shared `Ring` definitions.
- `Semaphore`: the reader concurrency semaphore, with its permit state machine, resource accounting and admission.
- `LoadingCache`: the two-section LRU loading cache.
- `Expression`, `Assignment`, `MultiColumn` and `SingleColumnPk`: CQL expression evaluation, assignability testing and key restrictions.
- `DistributedLoader`, `SstableDirectory` and `Database`: sstable loading bookkeeping and small table-registry utilities.
- `ServiceLevels` and `Migration`: the service-level controller and the schema-agreement and group-0 announce logic.
- `EncryptedFile`: block and length arithmetic of the encrypted file, with the cipher as a parameter.
- `SstableTool`: the option parsing, tokenizer and write-time histogram of `scylla-sstable`.
- `ScyllaRepair` and `ScyllaRepairMerge`: the shard arithmetic and interval handling of `scyllarepair.py`.

`Util` and `Text` hold shared result types and string helpers.

Where the source updates objects in place, the model uses classes with `modifies` clauses and loops with invariants. Pure code becomes functions and lemmas. Each method's contract ties its result or its new state to a specification function, or states the property outright. The properties the source promises are lemmas about those functions. Where a method models code that a finding below shows to be wrong, it follows the code as written, and a separate member labelled corrected carries the intended behaviour.

## Model

| member | source | states |
|---|---|---|
| Util.NatToString | idl-compiler.py:116 | Python's `str` of a number is a non-empty string of decimal digits |
| Util.IntToString | idl-compiler.py:116 | `str` of any integer is non-empty |
| Util.NatToStringRoundTrip | idl-compiler.py:116 | the decimal spelling reads back as the same number, so distinct numbers get distinct names |
| Util.StrLtTransitive | idl-compiler.py:1069 | the string order `sorted` uses is transitive |
| Util.StrLtTotal | idl-compiler.py:1069 | any two distinct strings are ordered one way or the other |
| Util.StrLtAsymmetric | idl-compiler.py:1069 | the string order is asymmetric |
| Util.InsertSorted | idl-compiler.py:1069 | inserting a new name into a strictly ascending list keeps it strictly ascending and adds exactly that name |
| Util.SortStrings | idl-compiler.py:1069 | `sorted` of a set of names is strictly ascending and holds exactly the names of the set, each once |
| Text.Split | service/storage_service.cc:649 | `boost::split` on one separator always yields at least one piece |
| Text.SplitPiecesFree | service/storage_service.cc:649 | no piece contains the separator |
| Text.SplitJoin | service/storage_service.cc:649 | joining the pieces with the separator gives the input back |
| Text.SplitAfterPiece | service/storage_service.cc:649 | a separator-free prefix followed by the separator is the first piece |
| Text.SplitNoSeparator | service/storage_service.cc:649 | a string without the separator is one piece |
| Text.Replace | service/storage_service.cc:652-653 | `std::replace` keeps the length |
| Text.ReplaceAt | service/storage_service.cc:652-653 | every occurrence of the old character becomes the new one and every other character is kept |
| Text.ReplaceAbsent | service/storage_service.cc:652-653 | a string without the old character is unchanged |
| Text.TrimLeftShape | service/storage_service.cc:654 | the left trim drops exactly the leading whitespace: the result is a suffix that does not start with whitespace |
| Text.TrimRightShape | service/storage_service.cc:654 | the right trim drops exactly the trailing whitespace |
| Text.CompressNoRuns | service/storage_service.cc:654 | after the inner compression no two whitespace characters are adjacent |
| Text.CompressFirst | service/storage_service.cc:654 | the compression keeps the first character |
| Text.CompressLast | service/storage_service.cc:654 | the compression keeps a non-space last character |
| Text.CompressKeeps | service/storage_service.cc:654 | a string without whitespace runs is left as it is |
| Text.TrimAllShape | service/storage_service.cc:654 | `boost::trim_all` leaves no leading or trailing whitespace and no whitespace run |
| Text.TrimAllKeeps | service/storage_service.cc:654 | a string that is already trimmed and compressed is unchanged |
| Text.TrimAllIdempotent | service/storage_service.cc:654 | trimming twice is trimming once |
| Ring.InsertToken | locator/token_metadata.cc:391-402 | inserting a new token into a strictly ascending vector keeps it ascending and adds exactly that token |
| Ring.SortTokens | locator/token_metadata.cc:391-402 | `sort_tokens` yields the map's tokens in strictly ascending order, each exactly once |
| Ring.LowerBound | locator/token_metadata.cc:487 | `std::lower_bound`: every token before the index is smaller than the key, and the token at the index (if any) is not |
| IdlTypes.MakeTemplateType | idl-compiler.py:112-117 | a template type keeps its name and one parameter per argument; a numeric argument becomes the non-const basic type named by its decimal spelling, a type argument is kept as it is |
| IdlTypes.ListTypesIsLeaves | idl-compiler.py:592-596 | a name is listed by `list_types` exactly when it is the name of some basic leaf of the type |
| IdlTypes.ListTypesOfIsLeaves | idl-compiler.py:592-596 | the leaves listed for a sequence of template arguments are exactly the leaves of some argument |
| IdlTypes.ListTypesOfAppend | idl-compiler.py:592-596 | the `reduce` concatenation is left to right: the leaves of `ps + qs` are the leaves of `ps` followed by those of `qs`, one entry per occurrence |
| IdlTypes.NumberArgIsLeaf | idl-compiler.py:112-117 | a numeric template argument appears among the leaves under its decimal name |
| IdlTypes.LocalWritableLeaves | idl-compiler.py:599-600 | `list_local_writable_types` holds exactly the registered writable names that are leaves of the type |
| IdlTypes.TakeName | idl-compiler.py:564-572 | splitting off the longest run of name characters loses nothing, and what follows does not start with a name character |
| IdlTypes.TakeNameOf | idl-compiler.py:564-572 | a name followed by a non-name character is split off exactly |
| IdlTypes.NoConstPrefix | idl-compiler.py:568-570 | a name followed by `<`, `>`, `,` or nothing is never mistaken for a `const ` prefix |
| IdlTypes.ParseType | idl-compiler.py:568-572 | the reader of a `param_type` spelling always consumes input when it succeeds |
| IdlTypes.ParseTypes | idl-compiler.py:564-565 | the reader of a `", "`-joined argument list consumes input and returns at least one type |
| IdlTypes.ParseBasicStep | idl-compiler.py:568-570 | a basic type's spelling (with `const ` iff const) is read back as the same basic type |
| IdlTypes.ParseTypeTemplateBranch | idl-compiler.py:571-572 | a name followed by `<` is read as a template whose arguments are the `", "`-separated list closed by `>` |
| IdlTypes.ParseTemplateStep | idl-compiler.py:564-572 | `name<args>` is read back as the template type of that name and arguments |
| IdlTypes.ParamTypeRoundTrip | idl-compiler.py:564-572 | `param_type` loses no information: reading back the spelling of a well-formed type gives the type and leaves the text after it |
| IdlTypes.ParamTypesRoundTrip | idl-compiler.py:564-565 | the `join_template` list of a non-empty argument sequence reads back to the same arguments |
| IdlTypes.ParamTypeInjective | idl-compiler.py:564-572 | two well-formed types with the same C++ spelling are the same type |
| IdlTypes.BasicConstPrefix | idl-compiler.py:568-570 | a basic type is spelled with a `const ` prefix exactly when it is const |
| IdlTypes.ReplaceColons | idl-compiler.py:575-579 | `str.replace('::', '__')` keeps the length of the string |
| IdlTypes.ReplaceColonsHead | idl-compiler.py:575-579 | the replacement works left to right: a leading `::` becomes `_`, any other first character is kept |
| IdlTypes.ReplaceColonsRemovesAll | idl-compiler.py:575-579 | no `::` is left after the replacement |
| IdlTypes.ReplaceColonsIdentity | idl-compiler.py:575-579 | a string without `::` is left unchanged |
| IdlTypes.ReplaceColonsIdempotent | idl-compiler.py:575-579 | replacing twice is replacing once |
| IdlTypes.FlatType | idl-compiler.py:575-579 | `flat_type` of a template type never contains `::` |
| IdlTypes.ViewTypeOfPlainType | idl-compiler.py:1082-1102 | without writable leaves, const leaves or variants, `param_view_type` spells a type exactly as `param_type` does |
| IdlTypes.ViewTypesOfPlainTypes | idl-compiler.py:1082-1083 | the same holds for a whole argument list |
| IdlTypes.ViewTypeOfVariant | idl-compiler.py:1092-1102 | the view spelling of a variant of plain types is the plain spelling of the same variant with `unknown_variant_type` appended as a last argument |
| IdlTypes.ParamTypesSnoc | idl-compiler.py:564-565 | appending an argument appends `", "` and its spelling to the joined list |
| IdlRegistry.FieldsOf | idl-compiler.py:636-637 | `get_members` keeps exactly the data and function members, dropping nested classes and enums |
| IdlRegistry.DependencyOfMembers | idl-compiler.py:685-687 | a name is in the union over members exactly when it is writable and a leaf of some data or function member's type |
| IdlRegistry.GetDependency | idl-compiler.py:685-687 | `get_dependency(cls)` holds exactly the registered writable leaves of the types of the class's own data and function members |
| IdlRegistry.DepGraph | idl-compiler.py:1066-1068 | the `dep_tree` built from the writable registry has one entry per writable type, and every dependency is itself a writable type |
| IdlRegistry.SelfReferenceIsCycle | idl-compiler.py:1070-1077 | a type that depends on itself is a cycle, so it is never freed |
| IdlRegistry.LevelsExcludeCycles | idl-compiler.py:1070-1077 | a graph whose edges all go to strictly lower levels has no cycle |
| IdlRegistry.LayeredIsTopological | idl-compiler.py:1070-1077 | an order by rounds that lists every type once places each type after all of its dependencies |
| IdlRegistry.ClassesIn | idl-compiler.py:1278-1286 | the traversal of `handle_types` yields only class definitions |
| IdlRegistry.ClassesInAppend | idl-compiler.py:1278-1286 | the classes of `a + b` are those of `a` followed by those of `b`, in tree order |
| IdlRegistry.WritableOnly | idl-compiler.py:1057-1058 | the classes `register_writable_local_type` keeps are exactly those whose attribute is `writable` |
| IdlRegistry.RegisterAllAppend | idl-compiler.py:1049-1061 | registering `a + b` is registering `a` then `b` |
| IdlRegistry.RegisterAllContents | idl-compiler.py:1049-1051 | a name is registered iff it was before or some class has it; its entry is the last class with that name, or the old entry when none has it |
| IdlRegistry.RegistriesFromTree | idl-compiler.py:1049-1061 | from empty registries, the writable registry holds exactly the `writable` classes' names, `stubs` exactly the writable stubs, and every writable name is also a local type |
| IdlRegistry.Compiler.constructor | idl-compiler.py:580-581 | the registries `local_types`, `local_writable_types` and `stubs` start empty |
| IdlRegistry.Compiler.RegisterLocalType | idl-compiler.py:1049-1051 | `local_types[cls.name] = cls`, nothing else changes |
| IdlRegistry.Compiler.RegisterWritableLocalType | idl-compiler.py:1054-1061 | the class is added to `local_writable_types` iff its attribute is `writable`, and to `stubs` iff it is also a stub; `local_types` is untouched |
| IdlRegistry.Compiler.HandleTypes | idl-compiler.py:1274-1287 | after the traversal (descending into namespaces, skipping enums) every class of the tree is registered in tree order, the writable ones in the writable registry, the writable stubs in `stubs` |
| IdlRegistry.Compiler.SortDependencies | idl-compiler.py:1064-1079 | on an acyclic registry the result lists every writable type exactly once, after all its dependencies, in rounds; a result is produced iff the dependency graph has no cycle |
| IdlRegistry.SortLayers | idl-compiler.py:1069-1077 | the Kahn loop: each round frees the types without pending dependencies in ascending name order; the output is a permutation, topological and layered, and it finishes iff there is no cycle |
| IdlRegistry.Shrink | idl-compiler.py:1071-1077 | popping the freed types and `difference_update` removes them as keys and from every remaining dependency set |
| IdlRegistry.ShrinkSmaller | idl-compiler.py:1071-1077 | a round that frees something makes `dep_tree` smaller, so the loop makes progress |
| IdlRegistry.StuckIsCycle | idl-compiler.py:1069-1070 | when nothing is free but `dep_tree` is not empty the graph has a cycle |
| IdlRegistry.SortRound | idl-compiler.py:1069-1077 | one round keeps the loop invariant (emitted types, partition of done and pending, levels) and shrinks `dep_tree` |
| IdlRegistry.SortRoundOrder | idl-compiler.py:1069-1070 | the types freed in one round follow all earlier ones and are in ascending name order among themselves |
| IdlRegistry.SortStart | idl-compiler.py:1066-1068 | the invariant holds before the first round |
| IdlRegistry.SortFinish | idl-compiler.py:1079 | when `dep_tree` is empty the result is a permutation of the writable types, topological and layered, and the graph is acyclic |
| IdlRegistry.DistinctFromLayers | idl-compiler.py:1069-1070 | an output ordered by rounds and names has no duplicates |
| IdlMetadata.ParamDecls | idl-compiler.py:548-551 | `template_params_str` lists one `typename name` declaration per template parameter, in order |
| IdlMetadata.ParamNames | idl-compiler.py:1313-1314 | the names of the template parameters, one per parameter, in order |
| IdlMetadata.TemplateDeclaration | idl-compiler.py:1304-1319 | an enum's `template_declaration` is empty iff it has no parent template parameters; a class's is empty iff it has no template parameters of its own |
| IdlMetadata.NsQualifiedName | idl-compiler.py:79-81 | a declaration outside any namespace or class is qualified by its bare name |
| IdlMetadata.AnnotateDecl | idl-compiler.py:1295-1323 | annotating a declaration keeps its kind and its name |
| IdlMetadata.AnnotateKeepsShape | idl-compiler.py:1290-1323 | `setup_additional_metadata` changes only the cached metadata: with it erased, the tree is the same |
| IdlMetadata.AnnotateDeclKeepsShape | idl-compiler.py:1295-1323 | the same for one declaration and everything under it |
| IdlMetadata.AnnotateIgnoresOldMeta | idl-compiler.py:1290-1323 | the metadata written depends only on the tree's structure, not on what was cached before |
| IdlMetadata.AnnotateIdempotent | idl-compiler.py:1290-1323 | running the annotation twice is running it once |
| IdlMetadata.MetadataAlongPath | idl-compiler.py:1290-1323 | every class or enum reached along a path gets as `ns_context` the enclosing namespace names and class scopes (a templated class as `Name<T1,T2>`), and as parent template parameters the accumulated ones, reset to empty under a class without its own template parameters |
| IdlMetadata.SetupAdditionalMetadata | idl-compiler.py:1290-1323 | from the top level, the annotation changes nothing but metadata |
| IdlMetadata.TopLevelClassUnqualified | idl-compiler.py:1298-1310 | a top-level class or enum gets an empty context and no parent template parameters, so its qualified name is its bare name |
| IdlEmit.DeclareSections | idl-compiler.py:525-545 | `declare_methods` always emits the `serializer<name>` declaration first, and the `serializer<const name>` alias exactly when the type appears const somewhere |
| IdlEmit.MoveArgs | idl-compiler.py:331-333 | the object is built from one `std::move(local)` per read local, in member declaration order |
| IdlEmit.Emitter.constructor | idl-compiler.py:1326-1333 | both output files start empty |
| IdlEmit.Emitter.DeclareMethods | idl-compiler.py:525-545 | appends the declaration sections to the header and leaves the implementation file alone |
| IdlEmit.Emitter.SerializerWriteImpl | idl-compiler.py:277-292 | appends the `write` section of the class to the implementation file |
| IdlEmit.Emitter.SerializerReadImpl | idl-compiler.py:295-334 | appends the `read` section, built by a loop over the members that keeps the locals and the name-to-local map, to the implementation file |
| IdlEmit.Emitter.SerializerSkipImpl | idl-compiler.py:337-353 | appends the `skip` section to the implementation file |
| IdlEmit.Emitter.HandleEnum | idl-compiler.py:554-561 | appends the enum's declaration to the header and its write/read sections to the implementation file |
| IdlEmit.Emitter.HandleClass | idl-compiler.py:1233-1256 | emits nothing for a stub; otherwise emits the nested classes and enums first, then the declaration, then write, read and skip |
| IdlEmit.Emitter.HandleSubtypes | idl-compiler.py:1247-1251 | the nested classes and enums are emitted in member order |
| IdlEmit.Emitter.HandleObjects | idl-compiler.py:1259-1271 | the traversal descends into namespaces and emits every class and enum in tree order |
| IdlEmit.ClassOutParts | idl-compiler.py:1246-1256 | a non-stub class's header is its nested types' headers followed by its own declaration; its implementation is its nested types' followed by write, read and skip |
| IdlEmit.FieldPositions | idl-compiler.py:314-316 | the positions of the data and function members, ascending |
| IdlEmit.LocalNameInjective | idl-compiler.py:317 | `__local_<index>` names of distinct indices differ |
| IdlEmit.ReadUpToShape | idl-compiler.py:314-330 | the read loop produces one local per written member, of that member's type, named after its index, with a fallback exactly when the member carries an attribute |
| IdlEmit.ReadCounts | idl-compiler.py:314-330 | as many locals as written members |
| IdlEmit.ReadTypes | idl-compiler.py:320-329 | each local is read with its member's `param_type`, in order |
| IdlEmit.ReadLocalsDistinct | idl-compiler.py:317 | the locals of a `read` section have pairwise distinct names |
| IdlEmit.NamesAfterIsLocalNames | idl-compiler.py:318 | the name-to-local map after the loop is the map of member names to local names |
| IdlEmit.NamesAfterContents | idl-compiler.py:318 | a member name is mapped iff some earlier written member has it, and it maps to the local of the last such member |
| IdlEmit.ReadLocalAt | idl-compiler.py:314-330 | the k-th local is the one built for the k-th written member |
| IdlEmit.LocalForFallback | idl-compiler.py:320-325 | an attributed member's fallback is its explicit default, replaced by the local of an earlier member with that name, or `T()` when it has no default |
| IdlEmit.FallbackResolution | idl-compiler.py:320-325 | every local of a generated `read` carries the fallback that rule gives |
| IdlEmit.EnvelopeAgreement | idl-compiler.py:285-353 | `write` emits `set_size` iff the class is not final; `read` reads a size prefix (substream or whole skip) iff not final; `skip` jumps over the size iff not final and otherwise skips each written member by its view type |
| IdlEmit.ViewTypesCount | idl-compiler.py:350-352 | a final class's `skip` has one skip per written member |
| IdlEmit.SubtypesKeep | idl-compiler.py:1247-1251 | what a nested member emits is part of what its class's subtypes emit |
| IdlEmit.SubtypesDecompose | idl-compiler.py:1247-1251 | the subtypes' output is some output, then the i-th member's, then some more |
| IdlEmit.ObjectsKeep | idl-compiler.py:1263-1271 | what a top-level object emits is part of the whole output |
| IdlEmit.ObjectsDecompose | idl-compiler.py:1263-1271 | the whole output is some output, then the i-th object's, then some more |
| IdlEmit.OwnSectionsPresent | idl-compiler.py:1252-1256 | a non-stub class (or an enum) emits its own declaration and definitions |
| IdlEmit.NestedSectionsPresent | idl-compiler.py:1247-1251 | a nested type's sections are part of its enclosing class's output |
| IdlEmit.InClassEmitted | idl-compiler.py:1247-1251 | every class or enum reached through non-stub classes is emitted among the subtypes |
| IdlEmit.Emitted | idl-compiler.py:1259-1271 | every class or enum reached through namespaces and non-stub classes has its serializer sections in the output |
| IdlEmit.LoadFile | idl-compiler.py:1343-1347 | a failed parse gives an error; otherwise the output is that of annotating, registering and emitting the parsed tree |
| IdlEmit.LoadedEmitsAll | idl-compiler.py:1343-1347 | after loading, every reachable class and enum of the annotated tree has its serializer sections in the output |
| TokenMetadata.WithoutValue | locator/token_metadata.cc:30-39 | `remove_by_value` erases exactly the entries mapped to the value and keeps every other entry as it was |
| TokenMetadata.ReassignedOwnership | locator/token_metadata.cc:452-471 | after one entry is applied, the endpoint owns exactly the new tokens, tokens it owned before and did not get again are gone, and other owners keep their tokens unless the endpoint took them over |
| TokenMetadata.ProcessedCount | locator/token_metadata.cc:448-457 | the entries handled before the throw: all of them have non-empty token sets, and the one after them (if any) has an empty set |
| TokenMetadata.EntryStep | locator/token_metadata.cc:448-472 | applying one more entry updates the token map, bootstrap map, sort flag and topology exactly as that entry's iteration does |
| TokenMetadata.SingleEntry | locator/token_metadata.cc:434-441 | the single-endpoint overload is the map overload on a one-entry map |
| TokenMetadata.ReinsertNeedsSort | locator/token_metadata.cc:459-467 | re-inserting a token the endpoint owned counts as a new key, because the endpoint's tokens were erased first |
| TokenMetadata.StaleSortedTokens | locator/token_metadata.cc:467-477 | as written: an endpoint moving to a token already in the map drops its old token from the map without triggering a re-sort, so `sorted_tokens` keeps a token that is no longer in the map |
| TokenMetadata.KeysKept | locator/token_metadata.cc:459-471 | when no key is inserted and none is erased the token set is unchanged |
| TokenMetadata.CorrectedSortKeepsRing | locator/token_metadata.cc:467-477 | with the corrected flag (set on insertion or erasure of a key), skipping the sort is safe: the token set did not change |
| TokenMetadata.CorrectedSortsMore | locator/token_metadata.cc:467-477 | the corrected flag is set whenever the original one is |
| TokenMetadata.RangeToInterval | locator/token_metadata.cc:684-711 | missing bounds become the minimum and maximum tokens, and the interval is closed on a side exactly when that bound exists and is inclusive |
| TokenMetadata.IntervalRoundTrip | locator/token_metadata.cc:684-733 | `interval_to_range(range_to_interval(r))` keeps both bound values and their inclusivity, and turns missing bounds into exclusive minimum/maximum bounds |
| TokenMetadata.RangeRoundTrip | locator/token_metadata.cc:684-733 | an interval between two tokens survives `interval_to_range` then `range_to_interval` unchanged |
| TokenMetadata.RotateAt | locator/token_metadata.cc:308-329 | the k-th token visited from start index i is the sorted token at (i + k) mod n |
| TokenMetadata.RotateVisitsEachOnce | locator/token_metadata.cc:308-329 | the wrap-around walk visits every sorted token exactly once |
| TokenMetadata.RingVersionCounter.constructor | locator/token_metadata.cc:306 | the shared ring version counter starts at 0 |
| TokenMetadata.TokenMetadataImpl.constructor | locator/token_metadata.cc:78 | a new token metadata has empty maps, sets and sorted tokens and ring version 0 |
| TokenMetadata.TokenMetadataImpl.InvalidateCachedRings | locator/token_metadata.cc:299-301 | the static counter is bumped and becomes the ring version |
| TokenMetadata.TokenMetadataImpl.SortTokens | locator/token_metadata.cc:391-402 | `sorted_tokens` becomes the map's tokens, strictly ascending |
| TokenMetadata.TokenMetadataImpl.ApplyNormalTokens | locator/token_metadata.cc:452-471 | one iteration: the endpoint's old tokens are erased and the new ones inserted, the endpoint joins the topology, loses its bootstrap tokens and leaving status, and the ring version is bumped; reports whether a key was new |
| TokenMetadata.TokenMetadataImpl.InsertTokens | locator/token_metadata.cc:463-471 | every token is (re)assigned to the endpoint; the result says whether some token was not in the map before |
| TokenMetadata.TokenMetadataImpl.UpdateNormalTokens | locator/token_metadata.cc:443-479 | an empty map is a no-op; entries are applied in order up to the first empty token set, which throws; tokens are re-sorted only when the flag is set and no throw happened |
| TokenMetadata.TokenMetadataImpl.ApplyEntries | locator/token_metadata.cc:448-472 | the loop over the entries: applies them in order until an empty token set, returning how many were applied and the sort flag |
| TokenMetadata.TokenMetadataImpl.UpdateNormalTokensOf | locator/token_metadata.cc:434-441 | an empty token set changes nothing; otherwise the endpoint owns exactly its new tokens and the tokens are re-sorted iff a token key was new |
| TokenMetadata.TokenMetadataImpl.FirstTokenIndex | locator/token_metadata.cc:481-493 | throws on an empty ring; otherwise the index of the first sorted token not below `start`, or 0 when all tokens are below it |
| TokenMetadata.TokenMetadataImpl.GetPredecessor | locator/token_metadata.cc:651-665 | fails exactly when the token is not a sorted token; otherwise returns the previous sorted token, or the last one for the first token |
| TokenMetadata.TokenMetadataImpl.AddBootstrapTokens | locator/token_metadata.cc:590-617 | fails, changing nothing, iff some token is bootstrapping or normal for another endpoint; otherwise the endpoint's bootstrap tokens become exactly the new ones |
| TokenMetadata.TokenMetadataImpl.AddBootstrapToken | locator/token_metadata.cc:567-570 | the single-token form of the same rule |
| TokenMetadata.TokenMetadataImpl.RemoveBootstrapTokens | locator/token_metadata.cc:619-627 | the given tokens are no longer bootstrapping, others are kept |
| TokenMetadata.TokenMetadataImpl.AddLeavingEndpoint | locator/token_metadata.cc:905-907 | the endpoint is added to the leaving set |
| TokenMetadata.TokenMetadataImpl.DelLeavingEndpoint | locator/token_metadata.cc:909-911 | the endpoint is removed from the leaving set |
| TokenMetadata.TokenMetadataImpl.AddReplacingEndpoint | locator/token_metadata.cc:913-917 | the replaced node maps to its replacement |
| TokenMetadata.TokenMetadataImpl.DelReplacingEndpoint | locator/token_metadata.cc:919-924 | the replaced node's entry is removed |
| TokenMetadata.TokenMetadataImpl.RemoveEndpoint | locator/token_metadata.cc:641-649 | removes the endpoint's normal and bootstrap tokens, topology entry, leaving and replacing entries and host id, and bumps the ring version |
| TokenMetadata.TokenMetadataImpl.RemoveEndpointAndSort | locator/token_metadata.cc:1116-1119 | the public wrapper does the same and re-sorts, so `sorted_tokens` matches the map again |
| TokenMetadata.TokenMetadataImpl.RingRange | locator/token_metadata.cc:308-312 | fails on an empty ring; otherwise an iterator at the first token not below `start` with all tokens remaining |
| TokenMetadata.TokenMetadataImpl.RingWalk | locator/token_metadata.cc:308-329 | iterating the ring range yields the sorted tokens rotated to start at `first_token_index(start)` |
| TokenMetadata.TokensIterator.constructor | locator/token_metadata.cc:308-312 | the iterator starts at the given index with every token remaining |
| TokenMetadata.TokensIterator.Current | locator/token_metadata.cc:318-320 | the current token is the one at (start + steps) mod n |
| TokenMetadata.TokensIterator.Next | locator/token_metadata.cc:322-329 | advancing moves one step, wrapping from the end to index 0, and decrements the remaining count |
| TokenMetadata.SharedTokenMetadata.constructor | locator/token_metadata.cc:1315-1320 | the holder starts with the given metadata |
| TokenMetadata.SharedTokenMetadata.Set | locator/token_metadata.cc:1315-1320 | setting fails, keeping the old metadata, iff the ring version does not strictly increase |
| ReplicationStrategy.ValidateReplicationFactor | locator/abstract_replication_strategy.cc:98-110 | accepted iff the string is non-empty, all decimal digits, and its value fits a `long` (what `std::stol` parses); otherwise a configuration error |
| ReplicationStrategy.DecimalAccepted | locator/abstract_replication_strategy.cc:98-110 | the decimal spelling of any number up to the `long` maximum is accepted |
| ReplicationStrategy.NegativeRefused | locator/abstract_replication_strategy.cc:100 | a leading `-` is rejected as a non-digit |
| ReplicationStrategy.InsertUnwrapping | locator/abstract_replication_strategy.cc:112-140 | when `prev < tok`, `(prev, tok]` goes just before a trailing end-unbounded range, else at the back; when `prev >= tok`, `(prev, +inf)` is appended and `(-inf, tok]` put at the front |
| ReplicationStrategy.FirstInDc | locator/abstract_replication_strategy.cc:203-212 | the first endpoint that belongs to the data centre, with none before it, or none at all |
| ReplicationStrategy.PrimaryInDcGeneralises | locator/abstract_replication_strategy.cc:194-212 | when all replicas are in the endpoint's data centre, the within-DC predicate is the primary-range predicate |
| ReplicationStrategy.PrimaryIsReplica | locator/abstract_replication_strategy.cc:160-212 | a primary range (global or within the DC) is also a range whose replicas contain the endpoint |
| ReplicationStrategy.Selected | locator/abstract_replication_strategy.cc:147-150 | the predicate is evaluated on each sorted token's natural endpoints: one decision per token |
| ReplicationStrategy.MiddleCount | locator/abstract_replication_strategy.cc:118-129 | each chosen non-first token adds exactly one bounded range |
| ReplicationStrategy.RangesCount | locator/abstract_replication_strategy.cc:142-158 | the result has one range per chosen token, plus one more when the first (wrap-around) token is chosen |
| ReplicationStrategy.MiddleBounded | locator/abstract_replication_strategy.cc:125-128 | ranges of non-wrapping tokens have an end bound |
| ReplicationStrategy.RangesStep | locator/abstract_replication_strategy.cc:146-152 | one loop iteration: with `prev` the last token for the first iteration and the previous token after, a chosen token inserts its range, an unchosen one changes nothing |
| ReplicationStrategy.RangesNext | locator/abstract_replication_strategy.cc:146-152 | the loop's state after an iteration is the specification's state for one more token |
| ReplicationStrategy.StepAfterWrap | locator/abstract_replication_strategy.cc:118-129 | after the wrap-around range was inserted, later ranges go before the trailing `(prev, +inf)` |
| ReplicationStrategy.StepWithoutWrap | locator/abstract_replication_strategy.cc:118-129 | without a wrap-around range, later ranges are appended at the back |
| ReplicationStrategy.DoGetRanges | locator/abstract_replication_strategy.cc:142-158 | fails on an empty ring; otherwise the result is the unwrapped ranges of the tokens the predicate selects, starting from `prev` = last token |
| ReplicationStrategy.OwnerIndex | locator/abstract_replication_strategy.cc:142-158 | the token that owns a point is a sorted token |
| ReplicationStrategy.CoveredAppend | locator/abstract_replication_strategy.cc:125-128 | a point is covered by a list with one more range iff it was covered before or lies in the new range |
| ReplicationStrategy.MiddleCovers | locator/abstract_replication_strategy.cc:118-129 | a point is in a bounded range iff the token that owns it was chosen |
| ReplicationStrategy.RangesCoverSelected | locator/abstract_replication_strategy.cc:142-158 | the ranges cover a point exactly when the token owning that point (the first token not below it, wrapping to the first token) was selected |
| ReplicationStrategy.OwnsInMiddleIff | locator/abstract_replication_strategy.cc:142-158 | a point owned by a non-first token is covered iff that token was chosen |
| ReplicationStrategy.CoveredSplit | locator/abstract_replication_strategy.cc:130-139 | with the first token chosen, the two unwrapped halves cover everything up to the first token and everything past the last |
| ReplicationStrategy.CoveredPrepend | locator/abstract_replication_strategy.cc:135-138 | putting a range in front adds exactly its points |
| ReplicationStrategy.Without | locator/abstract_replication_strategy.cc:89-92 | `remove_if` plus `erase` keeps exactly the endpoints not being replaced |
| ReplicationStrategy.WithoutNodeBeingReplaced | locator/abstract_replication_strategy.cc:75-96 | endpoints are unchanged unless some node is being replaced and the strategy allows the filter; then exactly the replaced ones are removed |
| ReplicationStrategy.WithoutConcat | locator/abstract_replication_strategy.cc:89-92 | the filter keeps order: filtering a concatenation is concatenating the filtered parts |
| ReplicationStrategy.WithoutIdempotent | locator/abstract_replication_strategy.cc:89-92 | filtering twice is filtering once |
| ReplicationStrategy.ReplicationMapFactory.Find | locator/abstract_replication_strategy.cc:398-404 | finds the registered map iff the key is registered |
| ReplicationStrategy.ReplicationMapFactory.Insert | locator/abstract_replication_strategy.cc:406-417 | the first insert wins: an existing key returns the registered map and changes nothing; a new key registers the map and sets its factory key |
| ReplicationStrategy.ReplicationMapFactory.Erase | locator/abstract_replication_strategy.cc:419-432 | erases iff the key is registered to this very object, otherwise changes nothing |
| ReplicationStrategy.EffectiveReplicationMap.constructor | locator/abstract_replication_strategy.cc:366-368 | a new map carries the factory key it was made for and is not yet registered with a factory |
| ReplicationStrategy.ReplicationMapFactory.constructor | locator/abstract_replication_strategy.cc:398-404 | a factory starts with no registered maps, so every lookup misses |
| StorageService.OnlyStartAndJoinCollapse | service/storage_service.cc:140-154 | the only distinct modes sharing a status are NONE/STARTING and BOOTSTRAP/JOINING |
| StorageService.MapOperationMode | service/storage_service.cc:140-154 | no mode is reported as UNKNOWN; the status is STARTING exactly for NONE and STARTING, and JOINING exactly for BOOTSTRAP and JOINING |
| StorageService.NodeOpsCmdCheck | service/storage_service.cc:2366-2393 | a `*_prepare` command passes iff no node operation is pending; any other command passes iff the only pending operation is the request's; with nothing pending it fails as unknown |
| StorageService.AdmittedIsExclusive | service/storage_service.cc:2366-2393 | an admitted command leaves at most one pending operation, and it is the request's |
| StorageService.GetIgnoreDeadNodesForReplace | service/storage_service.cc:646-664 | the option is split on commas and each piece cleaned and parsed, as the specification function says |
| StorageService.ParseIgnoreNodes | service/storage_service.cc:650-662 | the loop over the pieces computes the specification: the first piece that does not parse fails the whole call |
| StorageService.IgnoreNodesErrSticks | service/storage_service.cc:659-661 | once one piece failed, later pieces do not change the error |
| StorageService.IgnoreNodes | service/storage_service.cc:646-664 | succeeds iff every non-empty cleaned piece is an address; the result has at most one address per piece, each non-empty, without quotes and without surrounding blanks |
| StorageService.CleanHasNoQuotes | service/storage_service.cc:652-653 | after the two replacements no quote of either kind is left |
| StorageService.IsRepairBasedNodeOpsEnabled | service/storage_service.cc:3532-3565 | an unknown operation name fails; otherwise the result is `global_flag && reason in the parsed set` |
| StorageService.CollectReasons | service/storage_service.cc:3549-3561 | the loop over the pieces computes the specification set, or fails at the first unknown name |
| StorageService.EnabledErrSticks | service/storage_service.cc:3554-3560 | once a name was rejected later pieces do not matter |
| StorageService.AllowedOps | service/storage_service.cc:3542-3546 | the option is split at commas after trimming and blanking quotes: no entry holds a comma or a quote, and the entries joined by commas give back the trimmed, unquoted option |
| StorageService.EnabledReasonsMeaning | service/storage_service.cc:3549-3561 | succeeds iff every non-empty piece is one of the five known names, and the set holds exactly the reasons named |
| StorageService.QuotedNameRefused | service/storage_service.cc:3544-3548 | as written: a quoted name such as `'replace'` is rejected, because the quotes become blanks after the trim |
| StorageService.QuotedNameTrimmed | service/storage_service.cc:3545 | the trim leaves a quoted name as it is |
| StorageService.QuotesBlanked | service/storage_service.cc:3546-3547 | the replacements turn the quotes into blanks around the name |
| StorageService.QuotedNameAcceptedCorrected | service/storage_service.cc:3544-3548 | with the quotes replaced before trimming, a quoted name is accepted and enables its reason |
| StorageService.BlankedNameTrimmed | service/storage_service.cc:3545 | trimming a name between two blanks gives the name |
| StorageService.SpacedListRefused | service/storage_service.cc:3544-3548 | as written: `a, b` is rejected, because the piece after the comma keeps its leading blank |
| StorageService.SpacedListPieces | service/storage_service.cc:3548 | `a, b` splits into `a` and ` b` |
| StorageService.SpacedListClean | service/storage_service.cc:3545-3547 | the trim and replacements leave `a, b` as it is |
| StorageService.SpacedListAcceptedCorrected | service/storage_service.cc:3544-3548 | with each piece trimmed, `a, b` enables both reasons |
| StorageService.TwoNamesEnabled | service/storage_service.cc:3549-3561 | two known names enable exactly their two reasons |
| StorageService.LeadingBlankClean | service/storage_service.cc:3545-3547 | the corrected cleaning of ` b` gives `b` |
| StorageService.FirstUnboundedStart | service/storage_service.cc:3120-3122 | `find_if` for the first entry with an empty start token, or the end |
| StorageService.FirstUnboundedEnd | service/storage_service.cc:3123-3125 | `find_if` for the first entry with an empty end token, or the end |
| StorageService.MergeWrapped | service/storage_service.cc:3119-3133 | the list is unchanged unless the two entries are distinct, both exist and have the same endpoint set; then one entry fewer |
| StorageService.MergeDropsOneUnboundedStart | service/storage_service.cc:3128-3132 | the merge removes exactly one empty start token and keeps all other start tokens |
| StorageService.MergeDropsOneUnboundedEnd | service/storage_service.cc:3128-3132 | the merge removes exactly one empty end token and keeps all other end tokens |
| StorageService.MergedRangeWraps | service/storage_service.cc:3128-3132 | the merged entry runs from the end-unbounded entry's start to the start-unbounded entry's end, with the latter's endpoints |
| StorageService.MergeWrappedErases | service/storage_service.cc:3128-3132 | the merge is: take the other start token into the start-unbounded entry, then erase the end-unbounded one |
| StorageService.SplitCount | service/storage_service.cc:3386-3389 | the split count is at least 1 and at most `#tokens/4 + 1`; it is 1 or covers no more than the estimated rows at `keys_per_split` each; and it is maximal: unless it reached `#tokens/4 + 1`, one more split would need more rows than estimated |
| StorageService.GetAllRanges | service/storage_service.cc:3399-3413 | empty input gives no ranges; otherwise n+1 ranges: `(-inf, t0]`, `(t(i-1), t(i)]` for each i, then `(t(n-1), +inf)` |
| StorageService.RangesPartitionRing | service/storage_service.cc:3399-3413 | over sorted tokens every point lies in exactly one of those ranges: the one at its lower-bound index |
| Semaphore.HasAvailableUnits | reader_concurrency_semaphore.cc:797-801 | available iff the resources are non-empty and at least the request, or no count unit is in use (available count equals the initial count), whatever the memory |
| Semaphore.NewPermit | reader_concurrency_semaphore.cc:124-131 | a new permit is active/unused, has consumed nothing and is neither marked used nor blocked |
| Semaphore.OnPermitActive | reader_concurrency_semaphore.cc:105-112 | becomes active/used (and marked used) iff it has used branches, else active/unused |
| Semaphore.OnPermitInactive | reader_concurrency_semaphore.cc:114-119 | takes the waiting or inactive state and drops the used mark, keeping the permit consistent |
| Semaphore.OnAdmission | reader_concurrency_semaphore.cc:197-202 | admission activates the permit and consumes its base resources, marking them consumed |
| Semaphore.OnEvicted | reader_concurrency_semaphore.cc:214-221 | from inactive only: the state becomes evicted and consumed base resources are released |
| Semaphore.MarkUsed | reader_concurrency_semaphore.cc:248-258 | adds a used branch; the state changes only from active/unused, to used, or straight to blocked when blocked branches already exist |
| Semaphore.MarkUnused | reader_concurrency_semaphore.cc:260-273 | removes a used branch; dropping the last one of a marked permit forces an unblock and returns it to active/unused |
| Semaphore.MarkBlocked | reader_concurrency_semaphore.cc:275-281 | adds a blocked branch; the state changes only from active/used to active/blocked |
| Semaphore.MarkUnblocked | reader_concurrency_semaphore.cc:283-290 | removes a blocked branch; dropping the last one of a marked permit returns it to active/used |
| Semaphore.BlockedWithinUsed | reader_concurrency_semaphore.cc:902-913 | over consistent permits, the blocked count never exceeds the used count |
| Semaphore.AllDestroyedHoldNothing | reader_concurrency_semaphore.cc:143-176 | when no permit is alive none holds resources or counts as used |
| Semaphore.SumsUpdate | reader_concurrency_semaphore.cc:223-231 | replacing one permit changes the totals by exactly the difference of its resources and marks |
| Semaphore.AccountingReplace | reader_concurrency_semaphore.cc:223-231 | a permit consuming `spent` takes it from the semaphore: available plus held stays equal to the initial resources |
| Semaphore.ReaderConcurrencySemaphore.UsedAtLeastBlocked | reader_concurrency_semaphore.cc:902-913 | the asserted `used_permits >= blocked_permits` holds in every valid state |
| Semaphore.ReaderConcurrencySemaphore.AllDestroyedAllReturned | reader_concurrency_semaphore.cc:143-176 | once every permit is destroyed the semaphore has its initial resources back and no used permit |
| Semaphore.ReaderConcurrencySemaphore.constructor | reader_concurrency_semaphore.cc:622-629 | starts with the initial resources available, empty lists and zero counters |
| Semaphore.ReaderConcurrencySemaphore.MakePermit | reader_concurrency_semaphore.cc:885-890 | registers a fresh permit in the permit list |
| Semaphore.ReaderConcurrencySemaphore.Replace | reader_concurrency_semaphore.cc:223-231 | updates one permit and moves `spent` from the semaphore to it, adjusting the used and blocked counters by the marks |
| Semaphore.ReaderConcurrencySemaphore.ConsumeResources | reader_concurrency_semaphore.cc:31-34 | `resource_units` consumes its resources on construction: the permit holds them and the semaphore has that much less |
| Semaphore.ReaderConcurrencySemaphore.Signal | reader_concurrency_semaphore.cc:228-231 | returning resources gives them back to the semaphore and then admits waiters |
| Semaphore.ReaderConcurrencySemaphore.ResetUnits | reader_concurrency_semaphore.cc:62-68 | `reset` consumes the new amount before signalling the old one, and the units then hold the new amount |
| Semaphore.ReaderConcurrencySemaphore.ReleaseUnits | reader_concurrency_semaphore.cc:41-45 | destroying units returns what they hold |
| Semaphore.ReaderConcurrencySemaphore.MarkPermitUsed | reader_concurrency_semaphore.cc:248-258 | the permit is marked used and waiters are admitted as the counters allow |
| Semaphore.ReaderConcurrencySemaphore.MarkPermitUnused | reader_concurrency_semaphore.cc:260-273 | the permit is marked unused and waiters are admitted as the counters allow |
| Semaphore.ReaderConcurrencySemaphore.MarkPermitBlocked | reader_concurrency_semaphore.cc:275-281 | the permit is marked blocked and waiters are admitted as the counters allow |
| Semaphore.ReaderConcurrencySemaphore.MarkPermitUnblocked | reader_concurrency_semaphore.cc:283-290 | the permit is unblocked; the blocked counter can only fall |
| Semaphore.ReaderConcurrencySemaphore.CheckQueueSize | reader_concurrency_semaphore.cc:807-814 | rejects, and counts a shed read, iff wait-list plus ready-list size reaches the maximum queue length |
| Semaphore.ReaderConcurrencySemaphore.EnqueueWaiter | reader_concurrency_semaphore.cc:816-827 | rejected iff the queues are full; otherwise the permit goes waiting at the back of the wait list and the enqueued counter grows |
| Semaphore.ReaderConcurrencySemaphore.AdmitHead | reader_concurrency_semaphore.cc:870-882 | admits the head of the wait list: it leaves the list, is counted, and goes to the ready list iff it has a function |
| Semaphore.ReaderConcurrencySemaphore.MaybeAdmitWaiters | reader_concurrency_semaphore.cc:867-883 | admits a prefix of the wait list in FIFO order and stops only when the head can no longer be admitted (ready list non-empty, head's base resources unavailable, or some used permit not blocked) |
| Semaphore.ReaderConcurrencySemaphore.WithReadyPermit | reader_concurrency_semaphore.cc:949-957 | rejected (and counted as shed) iff the queues are full; otherwise the entry joins the ready list |
| Semaphore.ReaderConcurrencySemaphore.DoWaitAdmission | reader_concurrency_semaphore.cc:839-865 | admitted immediately only when both lists are empty, units are available and all used permits are blocked (`all_used_permits_are_stalled`, modelled by `ReaderConcurrencySemaphore.AllUsedPermitsAreStalled`) (and then always, unless the ready list is full); otherwise enqueued, behind existing waiters |
| Semaphore.ReaderConcurrencySemaphore.ObtainPermit | reader_concurrency_semaphore.cc:920-926 | a new permit with base resources goes through admission; it is never admitted ahead of queued reads |
| Semaphore.ReaderConcurrencySemaphore.WithPermit | reader_concurrency_semaphore.cc:944-947 | the same with a function: an immediately admitted read is the only one on the ready list |
| Semaphore.ReaderConcurrencySemaphore.MakeTrackingOnlyPermit | reader_concurrency_semaphore.cc:936-938 | a permit with no base resources that is never admitted |
| Semaphore.ReaderConcurrencySemaphore.RegisterInactiveRead | reader_concurrency_semaphore.cc:652-680 | kept as inactive iff the wait list is empty and memory is available; otherwise evicted at once and counted as a permit-based eviction |
| Semaphore.ReaderConcurrencySemaphore.EvictPermit | reader_concurrency_semaphore.cc:214-221 | evicts an inactive permit, releasing its base resources and admitting waiters |
| Semaphore.ReaderConcurrencySemaphore.Detach | reader_concurrency_semaphore.cc:572-577 | takes one inactive read off the list; its permit stays inactive |
| Semaphore.ReaderConcurrencySemaphore.UnregisterInactiveRead | reader_concurrency_semaphore.cc:693-718 | returns the reader iff the handle still refers to a registered inactive read; its permit becomes active again |
| Semaphore.ReaderConcurrencySemaphore.Evict | reader_concurrency_semaphore.cc:759-787 | removes the inactive read, evicts its permit, and counts a permit-based eviction only for that reason |
| Semaphore.ReaderConcurrencySemaphore.TryEvictOneInactiveRead | reader_concurrency_semaphore.cc:720-726 | evicts the front inactive read iff there is one |
| Semaphore.ReaderConcurrencySemaphore.EvictReadersInBackground | reader_concurrency_semaphore.cc:829-837 | evicts inactive reads from the front until the wait list or the inactive list is empty, counting each eviction |
| Semaphore.ReaderConcurrencySemaphore.DestroyPermit | reader_concurrency_semaphore.cc:143-176 | destroying a permit returns its base resources and unlinks it |
| Semaphore.ReaderConcurrencySemaphore.GiveBack | reader_concurrency_semaphore.cc:617-620 | the semaphore's `signal` adds the resources back and admits waiters |
| Semaphore.ReaderConcurrencySemaphore.Unlink | reader_concurrency_semaphore.cc:892-896 | the permit leaves the permit list |
| Semaphore.ReaderConcurrencySemaphore.PopReady | reader_concurrency_semaphore.cc:599-600 | the execution loop takes the ready list's front entry |
| Semaphore.ReaderConcurrencySemaphore.Broken | reader_concurrency_semaphore.cc:959-967 | every waiter is failed and the wait list is emptied |
| LoadingCache.Lookup | utils/loading_cache.hh:316-334 | a key is found in a list iff it is one of the list's keys, and the entry found carries that key and is in the list |
| LoadingCache.Find | utils/loading_cache.hh:386-388 | a key is found in the two sections iff one of them holds it, and the entry found carries that key |
| LoadingCache.Touched | utils/loading_cache.hh:423-435 | a touch keeps key, value, size and times; below the threshold the count grows by one, on reaching it once more, never past threshold + 1; the entry goes back to the unprivileged list iff its count was below the threshold |
| LoadingCache.CountAfterCapped | utils/loading_cache.hh:423-435 | after n touches the count is n up to threshold + 1 and stays there, so an entry is privileged iff it was touched more than threshold times |
| LoadingCache.ContainerHoldsEntry | utils/loading_cache.hh:386-388 | under the cache invariant, `container_list` picks the privileged list for an entry iff the privileged list holds it |
| LoadingCache.UnlinkInv | utils/loading_cache.hh:640-647 | unlinking a cached entry and subtracting its size keeps the invariant and removes exactly its key |
| LoadingCache.LinkInv | utils/loading_cache.hh:620-630 | linking a new entry at the front of the list its count selects and adding its size keeps the invariant |
| LoadingCache.TouchShape | utils/loading_cache.hh:417-436 | the unlink step touches only the list holding the entry, and the entry is re-pushed on the unprivileged list iff its old count was below the threshold |
| LoadingCache.TouchToPrivileged | utils/loading_cache.hh:429-434 | a touch that pushes the entry on the privileged list keeps the invariant, the keys and the footprint, and the key then finds the touched entry |
| LoadingCache.TouchToUnprivileged | utils/loading_cache.hh:423-426 | a touch that pushes the entry on the unprivileged list keeps the invariant, the keys and the footprint, and the key then finds the touched entry |
| LoadingCache.DropLastInv | utils/loading_cache.hh:497-511 | destroying the back entry of either list and subtracting its size keeps the invariant |
| LoadingCache.KeepIfInv | utils/loading_cache.hh:337-349 | filtering both lists and recomputing the size from the survivors keeps the invariant |
| LoadingCache.ReassignInv | utils/loading_cache.hh:139-148 | storing a reloaded value in place keeps the invariant with `_current_size` moved by the difference of the sizes, the key then finds the updated entry, and the old size was part of `_current_size` |
| LoadingCache.ReassignShape | utils/loading_cache.hh:139-148 | storing a reloaded value keeps both lists' lengths and keys, and changes nothing when the key is not cached |
| LoadingCache.ShrinkStep | utils/loading_cache.hh:499-511 | while the footprint is at least the limit, one eviction step drops the unprivileged back entry, or the privileged back entry once the unprivileged list is empty |
| LoadingCache.ShrinkKeepsPrefixes | utils/loading_cache.hh:497-512 | shrinking keeps a prefix (the most recently used part) of each list, touches the privileged list only after emptying the unprivileged one, and changes nothing below the limit |
| LoadingCache.ShrinkBelowLimit | utils/loading_cache.hh:497-512 | for a positive limit, the footprint after shrinking is below the limit |
| LoadingCache.ShrinkEvictsNoMoreThanNeeded | utils/loading_cache.hh:497-512 | the last entry evicted from either list was evicted while the footprint was still at least the limit |
| LoadingCache.LoadFootprintAsWritten | utils/loading_cache.hh:273-285 | inserting after a `shrink()` to `max_size` leaves a footprint below `max_size` plus the new entry's size, and no better |
| LoadingCache.LoadCanExceedMaxSize | utils/loading_cache.hh:273-285 | with `max_size` 10, a privileged entry of size 9 and a new entry of size 10, the footprint after the insertion is 19 |
| LoadingCache.RoomFor | utils/loading_cache.hh:273-280 | the eviction limit that leaves room for an entry no larger than `max_size` is positive |
| LoadingCache.LoadFootprint | utils/loading_cache.hh:273-285 | shrinking to make room for the new entry keeps the footprint after the insertion within `max_size` |
| LoadingCache.CheckConfig | utils/loading_cache.hh:204-217 | the constructor passes iff caching is disabled (zero expiry) or both refresh and `max_size` are positive; otherwise it throws `configuration_exception` |
| LoadingCache.TimerPeriod | utils/loading_cache.hh:219-248 | the timer period is the expiry, or with reload enabled the smaller of expiry and refresh |
| LoadingCache.Cache.Get | utils/loading_cache.hh:397-399 | a key has an entry iff it is cached |
| LoadingCache.Cache.constructor | utils/loading_cache.hh:204-217 | a cache passing the sanity check starts with both lists empty, `_current_size` 0 and the given configuration |
| LoadingCache.Cache.Size | utils/loading_cache.hh:360-362 | the sum of the two lists' lengths is the number of distinct cached keys |
| LoadingCache.Cache.MemoryFootprint | utils/loading_cache.hh:365-367 | `_current_size` equals the total entry size of both lists |
| LoadingCache.Cache.DueForReload | utils/loading_cache.hh:542-549 | the entries handed to reload are exactly the cached entries loaded more than `refresh` ago |
| LoadingCache.Cache.Touch | utils/loading_cache.hh:417-436 | the entry gets the read time and the bumped count, leaves its list and becomes the front of the list its new count selects; keys, footprint and invariant are kept |
| LoadingCache.Cache.FindEntry | utils/loading_cache.hh:325-334 | returns the touched entry iff the key is cached, leaving the lists untouched otherwise |
| LoadingCache.Cache.ShrinkBelow | utils/loading_cache.hh:497-512 | leaves the lists `ShrinkSections` describes, with the footprint below the limit, and counts one unprivileged eviction per entry dropped from that list |
| LoadingCache.Cache.EvictUnprivileged | utils/loading_cache.hh:499-504 | the first loop empties the unprivileged list or brings the footprint below the limit, counting each eviction |
| LoadingCache.Cache.EvictPrivileged | utils/loading_cache.hh:507-511 | the second loop drops privileged back entries until the footprint is below the limit |
| LoadingCache.Cache.Shrink | utils/loading_cache.hh:497-512 | `shrink()` leaves the footprint below `max_size` |
| LoadingCache.Cache.GetPtr | utils/loading_cache.hh:258-291 | as written: a cached key is touched and returned with the footprint unchanged; a new value larger than `max_size` fails with `entry_is_too_big` and changes nothing; otherwise `shrink()` runs to `max_size` without counting the new entry, the entry is linked at the front of its list, and the footprint is the shrunk footprint plus the new size, below `max_size` plus that size but possibly above `max_size` |
| LoadingCache.Cache.GetPtrCorrected | utils/loading_cache.hh:258-291 | corrected (see Findings): the same, except that the cache shrinks to make room for the new entry first, so the footprint after linking never exceeds `max_size` |
| LoadingCache.Cache.LoadNew | utils/loading_cache.hh:272-284 | the insertion branch: after shrinking below the limit the new entry (touched once) is the front of the list its count selects, the key finds it, and the footprint is the shrunk footprint plus its size |
| LoadingCache.Cache.Remove | utils/loading_cache.hh:351-354 | unlinks exactly the key's entry, if cached, and subtracts its size |
| LoadingCache.Cache.Filter | utils/loading_cache.hh:337-349 | keeps exactly the entries the predicate accepts, in order, in both lists |
| LoadingCache.Cache.RemoveIf | utils/loading_cache.hh:337-349 | the cached entries afterwards are exactly those whose value does not satisfy the predicate |
| LoadingCache.Cache.DropExpired | utils/loading_cache.hh:473-493 | the cached entries afterwards are exactly those read within the expiry and, with reload enabled, loaded within the expiry |
| LoadingCache.Cache.Reload | utils/loading_cache.hh:438-471 | a key dropped meanwhile is left alone; otherwise its value, size and load time are replaced in place and `_current_size` moves by the difference of the sizes |
| LoadingCache.NewCache | utils/loading_cache.hh:204-217 | fails with `configuration_exception` iff the sanity check fails, and otherwise returns a fresh, empty cache |
| Expression.Compare | cql3/expr/expression.cc:203-204 | the tri-state comparison is negative iff the left value is smaller and zero iff the values are equal |
| Expression.Holds | cql3/expr/expression.cc:205-220 | a comparison result is interpreted for LT, LTE, GT, GTE, EQ and NEQ; any other operator is a `logic_error` |
| Expression.Limits | cql3/expr/expression.cc:203-221 | `limits` on two values is exactly `<`, `<=`, `>`, `>=`, `==` or `!=` for the six compare operators, and a `logic_error` otherwise |
| Expression.ColumnLimits | cql3/expr/expression.cc:224-234 | a non-slice operator is a `logic_error`; otherwise the column is limited iff both the cell and the bound are non-null and the values compare as the operator says |
| Expression.LexCompareFirstDifference | cql3/expr/expression.cc:251-276 | the tuple order is decided by the first component where the tuples differ |
| Expression.LexCompare | cql3/expr/expression.cc:251-279 | tuples of the same width compare equal iff they are equal |
| Expression.LexCompareAntisymmetric | cql3/expr/expression.cc:251-279 | swapping the tuples negates the comparison |
| Expression.LexCompareFirstComponent | cql3/expr/expression.cc:251-276 | a tuple that compares lower (higher, equal) has a first component no greater (no smaller, equal) |
| Expression.TupleLimitsOf | cql3/expr/expression.cc:237-280 | a non-slice operator, a missing tuple or a width mismatch is an error; otherwise the tuples are compared lexicographically and the result is read by the operator, so equal tuples satisfy only LTE and GTE |
| Expression.TupleLimits | cql3/expr/expression.cc:237-280 | the component loop returns exactly the lexicographic verdict `TupleLimitsOf` states |
| Expression.SingleColumnTuple | cql3/expr/expression.cc:237-280 | a one-column tuple comparison agrees with the single-column `limits` |
| Expression.CollectionContains | cql3/expr/expression.cc:283-321 | a null value is contained in any collection, and a null collection contains nothing |
| Expression.ContainsKey | cql3/expr/expression.cc:324-345 | a null key is always contained, a null map contains no key, and only a non-map collection can fail |
| Expression.Like | cql3/expr/expression.cc:389-405 | LIKE on a non-string column is an `invalid_request_exception`, and it holds only with a non-null pattern and a non-null value |
| Expression.TupleValues | cql3/expr/expression.cc:259-262 | the row's values of the tuple's columns, position by position, or none when some column is null |
| Expression.Deref | cql3/expr/expression.cc:567 | a tuple of optional values is dereferenced iff every component is present, keeping the components in order |
| Expression.EvalBinOp | cql3/expr/expression.cc:494-533 | NEQ is the exact negation of EQ, a null on either side is unequal and fails every slice, a column tuple with a null column equals no tuple, and a token restriction holds of every fetched row |
| Expression.EvalAllTrue | cql3/expr/expression.cc:535-545 | a conjunction holds iff every child holds |
| Expression.AndThen | cql3/expr/expression.cc:535-545 | the short-circuit AND of two verdicts holds iff both hold |
| Expression.EvalAllAppend | cql3/expr/expression.cc:535-545 | evaluating concatenated children is the short-circuit AND of evaluating each part |
| Expression.Explode | cql3/expr/expression.cc:65-70 | a conjunction is replaced by its children and any other expression by itself alone |
| Expression.ExplodeEval | cql3/expr/expression.cc:65-70 | the exploded children evaluate exactly as the expression |
| Expression.MakeConjunction | cql3/expr/expression.cc:616-620 | the result is a conjunction of the exploded children of both sides, in order |
| Expression.MakeConjunctionEval | cql3/expr/expression.cc:616-620 | the conjunction evaluates as the short-circuit AND of its two operands |
| Expression.ToRange | cql3/expr/expression.cc:652-669 | for EQ and the slices the range holds exactly the values the operator admits against the bound; any other operator is a `logic_error` |
| Expression.LaterStart | cql3/expr/expression.cc:484-487 | the later of two start bounds admits exactly the values both admit |
| Expression.EarlierEnd | cql3/expr/expression.cc:484-487 | the earlier of two end bounds admits exactly the values both admit |
| Expression.RangeIntersection | cql3/expr/expression.cc:484-487 | the intersection of two ranges holds exactly the values in both, and is none when they share no value |
| Expression.SortedIntersection | cql3/expr/expression.cc:467-471 | the `set_intersection` of two increasing lists is increasing and holds exactly the values in both |
| Expression.InRange | cql3/expr/expression.cc:473-476 | filtering a list by a range keeps exactly its values inside the range, in order |
| Expression.Intersection | cql3/expr/expression.cc:465-492 | the intersection of two value sets is well formed and holds exactly the values in both |
| Expression.SortedUnique | cql3/expr/expression.cc:558-563 | sorting and deduplicating gives an increasing list of exactly the same values |
| Expression.NonNull | cql3/expr/expression.cc:565-567 | the non-null values of a list, dereferenced |
| Expression.Kth | cql3/expr/expression.cc:593-610 | the k-th components of the IN tuples |
| Expression.IndexOf | cql3/expr/expression.cc:709-715 | the index of the first occurrence of the column in the tuple, or the tuple's width when it is absent |
| Expression.TokenValues | cql3/expr/expression.cc:735-762 | a null token bound matches nothing; EQ and the slices give a well-formed value set, an upper bound at the minimal token is read as the maximal token, and any other operator is a `logic_error` |
| Expression.BinOpValues | cql3/expr/expression.cc:688-765 | the value set of one restriction is well formed |
| Expression.PossibleLhsValuesAsWritten | cql3/expr/expression.cc:675-766 | `possible_lhs_values` as written produces a well-formed value set |
| Expression.PossibleLhsValues | cql3/expr/expression.cc:675-766 | the corrected `possible_lhs_values` produces a well-formed value set |
| Expression.Possible | cql3/expr/expression.cc:675-687 | a literal is everything or nothing, a conjunction folds its children, and the result is well formed |
| Expression.Fold | cql3/expr/expression.cc:681-686 | accumulating children by intersection gives a well-formed value set inside the starting one |
| Expression.ValueSetToRange | cql3/expr/expression.cc:768-778 | a range converts to itself and a one-element list to its singular range, holding the same values; a list of any other size is a `logic_error` |
| Expression.UnboundedHoldsAll | cql3/expr/expression.cc:464 | the unbounded value set holds every value |
| Expression.ColumnSound | cql3/expr/expression.cc:690-704 | a row satisfying a single-column restriction has its value of that column in the restriction's value set |
| Expression.TupleSliceSound | cql3/expr/expression.cc:724-730 | a tuple satisfying a multi-column slice has its first component inside the inclusively relaxed range of the first bound component |
| Expression.TupleSound | cql3/expr/expression.cc:706-734 | a row satisfying a multi-column restriction has its value of the column in the corrected value set |
| Expression.PossibleSound | cql3/expr/expression.cc:675-766 | every row satisfying an expression (without NEQ) has its column value in the corrected `possible_lhs_values` |
| Expression.FoldSound | cql3/expr/expression.cc:681-686 | a row satisfying every child of a conjunction keeps its value through the intersection fold |
| Expression.StrictTupleBoundMissesRow | cql3/expr/expression.cc:724-730 | for `(c0, c1) < (1, 5)` the row `c0 = 1, c1 = 3` satisfies the restriction, yet the value set as written for `c0` excludes 1 |
| Expression.SingleColumnUnaffected | cql3/expr/expression.cc:724-730 | the correction changes nothing for one-column tuples |
| Assignment.UntypedConstantTest | cql3/expr/prepare_expr.cc:545-615 | a literal constant is not assignable to a collection or user type, weakly assignable to a tuple or custom type, an exact match only as a duration for a duration receiver, and otherwise weakly assignable iff its type class admits the receiver's native kind |
| Assignment.NullTest | cql3/expr/prepare_expr.cc:730-736 | null is not assignable exactly to counters and is never an exact match |
| Assignment.FieldIndex | cql3/expr/prepare_expr.cc:47-52 | the position of the literal's value for a user-type field, or the number of values when the literal leaves that field out |
| Assignment.TestAssignment | cql3/expr/prepare_expr.cc:971-1034 | null and bind variables are never an exact match; list, map and user literals are not assignable to a receiver of another kind; a tuple literal is assignable only to a tuple type or a user type (a `tuple_type_impl`) with at least as many components |
| Assignment.TestEntryRule | cql3/expr/prepare_expr.cc:177-183 | a map entry is not assignable iff its key or its value is not, and an exact match iff both are |
| Assignment.TestAll | cql3/expr/prepare_expr.cc:1036-1049 | `test_assignment_all` is not assignable iff some element is not, and an exact match iff every element is |
| Assignment.TestEntriesRule | cql3/expr/prepare_expr.cc:172-186 | the map-entry loop is not assignable iff some entry is not, and an exact match iff every entry is |
| Assignment.TestEntriesNot | cql3/expr/prepare_expr.cc:172-182 | the map-entry loop returns not assignable iff some entry is not assignable |
| Assignment.TestEntriesExact | cql3/expr/prepare_expr.cc:172-186 | the map-entry loop ends in an exact match iff every entry is an exact match |
| Assignment.TestAssignmentAll | cql3/expr/prepare_expr.cc:1036-1049 | the loop returns the lattice meet of the elements' results: not assignable iff some element is not, exact iff all are |
| Assignment.MapTestAssignment | cql3/expr/prepare_expr.cc:162-187 | a non-map receiver is not assignable, an empty map literal is weakly assignable, and the loop returns the result of the map-literal test |
| Assignment.Combine | cql3/expr/prepare_expr.cc:1040-1046 | folding one more result is not assignable iff either is, and exact iff both are |
| Assignment.EmptyLiteralsWeak | cql3/expr/prepare_expr.cc:361-373 | empty list, set and map literals are only weakly assignable to their collection types |
| Assignment.TooLongTupleNotAssignable | cql3/expr/prepare_expr.cc:425-453 | a tuple literal with more elements than the tuple or user type has components is not assignable |
| Assignment.UserTypeTakesTuples | cql3/expr/prepare_expr.cc:424-477 | a user type takes a tuple literal exactly as the tuple of its field types does, and prepares it to the same tuple, typed by the user type |
| Assignment.PrepareNull | cql3/expr/prepare_expr.cc:740-745 | preparing null succeeds iff null is assignable to the receiver, giving the receiver type's null constant |
| Assignment.Prepare | cql3/expr/prepare_expr.cc:882-947 | a prepared literal is typed by its receiver; an untyped constant prepares exactly when it is assignable and its text is accepted by the type's `from_string` (`untyped_constant_parsed_value`, modelled by `Assignment.ParsedValueOk`), and otherwise fails with `invalid_request_exception`; a bind variable prepares exactly when its shape is scalar or scalar-IN, to a scalar marker with the same index whose receiver is the receiver, or `list<T>` of it for scalar-IN |
| Assignment.ConstantParsedByValidator | cql3/expr/prepare_expr.cc:525-540 | the parser that decides a constant: a counter column accepts an integer literal exactly when the bigint parser accepts its text, a blob column a hex literal exactly when the blob parser accepts the text after `0x`, a text column a string literal exactly when the text parser accepts it |
| Assignment.PrepareEachAt | cql3/expr/prepare_expr.cc:393-401 | preparing the elements succeeds only when each element prepares, giving their preparations in order (with no bind marker when markers are refused), and without that refusal whenever each element prepares |
| Assignment.PrepareListElements | cql3/expr/prepare_expr.cc:378-410 | a prepared non-empty list literal is a list term of the receiver whose elements are the literal's elements, each prepared against the list's element type |
| Assignment.PreparedIsAssignable | cql3/expr/prepare_expr.cc:882-947 | a literal that prepares successfully passes the assignability test against the same receiver |
| Assignment.EmptyMultiCellIsNull | cql3/expr/prepare_expr.cc:387-389 | an empty literal for a non-frozen list or set prepares to null |
| Assignment.EmptySetForMap | cql3/expr/prepare_expr.cc:285-305 | an empty set literal for a map prepares to null when the map is non-frozen and to an empty map otherwise |
| Assignment.MarkerInListLiteral | cql3/expr/term_expr.cc:397-402 | any list literal holding a bind marker is refused by the older term preparation, and prepares as an expression exactly when the receiver is a list that takes every element and every element prepares |
| Assignment.PrepareMultiColumn | cql3/expr/prepare_expr.cc:950-968 | only tuple literals and bind variables prepare against several receivers; a tuple literal must have one element per receiver and becomes a tuple of the receivers' types |
| MultiColumn.MergeSlice | cql3/restrictions/multi_column_restriction.hh:419 | a tuple within both slices is within the merged slice; and when the two slices do not bound the same side (which `merge_with` checks first), a tuple is within the merged slice exactly when it is within both |
| MultiColumn.PickOperator | cql3/restrictions/multi_column_restriction.hh:474 | a start bound becomes `>` or `>=` and an end bound `<` or `<=`, always a slice operator |
| MultiColumn.NumReversed | cql3/restrictions/multi_column_restriction.hh:162-163 | the count of reversed columns is at most the number of columns |
| MultiColumn.NumReversedZero | cql3/restrictions/multi_column_restriction.hh:161-166 | no column is counted as reversed iff every column is ascending |
| MultiColumn.NumReversedAll | cql3/restrictions/multi_column_restriction.hh:161-166 | every column is counted as reversed iff every column is descending |
| MultiColumn.Shared | cql3/restrictions/multi_column_restriction.hh:107 | the columns kept are exactly those in both restrictions |
| MultiColumn.InsertById | cql3/restrictions/multi_column_restriction.hh:104-105 | inserting a column into an id-sorted list keeps it sorted and adds exactly that column |
| MultiColumn.SortById | cql3/restrictions/multi_column_restriction.hh:104-105 | `std::sort` by column gives a sorted list of the same columns |
| MultiColumn.CommonColumns | cql3/restrictions/multi_column_restriction.hh:100-107 | the common columns are sorted and are exactly the columns both restrictions name |
| MultiColumn.Names | cql3/restrictions/multi_column_restriction.hh:109-116 | the column names, in the order of the columns |
| MultiColumn.ColumnsInCommon | cql3/restrictions/multi_column_restriction.hh:100-117 | the error text names every column the two restrictions share |
| MultiColumn.MultiColumnRestriction.constructor | cql3/restrictions/multi_column_restriction.hh:69-74 | a new restriction holds its columns, slice, mode and expression, with the ordering flags computed |
| MultiColumn.MultiColumnRestriction.UpdateAscDescExistence | cql3/restrictions/multi_column_restriction.hh:161-166 | recomputes the only-ascending and only-descending flags from the current columns |
| MultiColumn.MultiColumnRestriction.IsAscOrder | cql3/restrictions/multi_column_restriction.hh:153-155 | ascending order iff no restricted column is reversed |
| MultiColumn.MultiColumnRestriction.IsDescOrder | cql3/restrictions/multi_column_restriction.hh:145-147 | descending order iff every restricted column is reversed |
| MultiColumn.MultiColumnRestriction.IsMixedOrder | cql3/restrictions/multi_column_restriction.hh:137-139 | mixed order iff some restricted column is reversed and some is not |
| MultiColumn.MultiColumnRestriction.MergeWith | cql3/restrictions/multi_column_restriction.hh:80-87 | merging fails with the first failing check and changes nothing; otherwise the wider column list is kept, the slices are merged and the expression becomes the conjunction, which evaluates as the AND of both |
| MultiColumn.MergeError | cql3/restrictions/multi_column_restriction.hh:397-414 | a merge succeeds iff the other restriction is multi-column, this one is a slice, the other has a slice, the modes agree and no side is bounded twice; a single-column other, an EQ or an IN always fails with its message |
| MultiColumn.FirstNeq | cql3/restrictions/multi_column_restriction.hh:436-454 | none iff the tuples are equal; otherwise the first index where they differ, or the shorter length when one is a proper prefix of the other |
| MultiColumn.FindFirstNeqComponent | cql3/restrictions/multi_column_restriction.hh:436-454 | the loop returns exactly `FirstNeq` |
| MultiColumn.SingleBound | cql3/restrictions/multi_column_restriction.hh:500-510 | the i-th expanded restriction fixes the columns before `k + i` by equality and bounds column `k + i`, inclusively only in the last restriction of an inclusive bound |
| MultiColumn.SingleBoundRestrictions | cql3/restrictions/multi_column_restriction.hh:496-512 | one restriction per column from the first unequal component on, each as `SingleBound` describes |
| MultiColumn.MakeSingleBoundRestrictions | cql3/restrictions/multi_column_restriction.hh:496-512 | the loop builds exactly `SingleBoundRestrictions` |
| MultiColumn.FirstRestriction | cql3/restrictions/multi_column_restriction.hh:500-510 | a row satisfies the first expanded restriction iff it equals the bound before `k` and its column `k` is bounded by the picked operator |
| MultiColumn.SingleBoundShift | cql3/restrictions/multi_column_restriction.hh:500-510 | the i-th restriction from `k` is the (i-1)-th restriction from `k + 1` |
| MultiColumn.ShiftRestrictions | cql3/restrictions/multi_column_restriction.hh:496-512 | a row satisfies some restriction from `k` iff it satisfies the first one or some restriction from `k + 1` |
| MultiColumn.AnySatisfiedShift | cql3/restrictions/multi_column_restriction.hh:496-512 | a list of restrictions whose tail is another list is satisfied iff its head or that list is |
| MultiColumn.SingleBoundSemantics | cql3/restrictions/multi_column_restriction.hh:484-512 | a row satisfies some expanded single-column restriction iff it agrees with the bound before `k` and its remaining components compare lexicographically with the bound's as the tuple operator requires, so the expansion is equivalent to the tuple relation |
| SingleColumnPk.MergeSameColumn | cql3/restrictions/single_column_primary_key_restrictions.hh:154 | a second restriction on an already restricted column merges only when both are slices bounding different sides, giving a slice on the same column |
| SingleColumnPk.AddRestriction | cql3/restrictions/single_column_primary_key_restrictions.hh:154 | adding a restriction keeps the set ordered by column position and never shrinks it; a new column is inserted at its position |
| SingleColumnPk.InsertAt | cql3/restrictions/single_column_primary_key_restrictions.hh:154 | inserting a restriction on an unrestricted column keeps the set ordered and grows it by exactly that restriction |
| SingleColumnPk.MergeCheck | cql3/restrictions/single_column_primary_key_restrictions.hh:131-150 | without ALLOW FILTERING on a non-empty set, a column after a slice-restricted last column, or a slice on a column before the last one, is refused; the first case gets the after-slice message naming both columns, the second the slice-before message |
| SingleColumnPk.MergeKeepsSliceLast | cql3/restrictions/single_column_primary_key_restrictions.hh:131-155 | when the checks pass without ALLOW FILTERING, a slice can only be the last restriction before and after the merge |
| SingleColumnPk.Names | cql3/restrictions/single_column_primary_key_restrictions.hh:185 | the restricted column names, in key order |
| SingleColumnPk.SingleColumnPrimaryKeyRestrictions.constructor | cql3/restrictions/single_column_primary_key_restrictions.hh:65-72 | starts with no restrictions and the slice, contains and IN flags cleared |
| SingleColumnPk.SingleColumnPrimaryKeyRestrictions.DoMergeWith | cql3/restrictions/single_column_primary_key_restrictions.hh:131-155 | a failed position check changes nothing; otherwise the flags accumulate the new restriction's kind and the set becomes `AddRestriction` of it, or stays unchanged with its error; without ALLOW FILTERING, when the flag records every slice, a slice stays on the last restricted column |
| SingleColumnPk.SingleColumnPrimaryKeyRestrictions.MergeWith | cql3/restrictions/single_column_primary_key_restrictions.hh:176-188 | multi-column and token restrictions are refused with their messages and leave the set and all three flags unchanged; a single-column one fails with the position check's message and changes nothing, or ORs its kind into the flags and becomes `AddRestriction` of the set (or fails with its error, the set unchanged); without ALLOW FILTERING a slice stays last |
| SingleColumnPk.SingleColumnPrimaryKeyRestrictions.NeedsFiltering | cql3/restrictions/single_column_primary_key_restrictions.hh:462-475 | the loop answers exactly `NeedsFilteringSpec`: a CONTAINS, a gap in the key prefix or a slice that is not last |
| SingleColumnPk.SingleColumnPrimaryKeyRestrictions.ValuesAsKeys | cql3/restrictions/single_column_primary_key_restrictions.hh:190-216 | the loop computes exactly `ValuesAsKeysOf` |
| SingleColumnPk.SingleColumnPrimaryKeyRestrictions.ComputeBounds | cql3/restrictions/single_column_primary_key_restrictions.hh:219-333 | the loop computes exactly `ComputeBoundsOf` |
| SingleColumnPk.SingleColumnPrimaryKeyRestrictions.PartitionBoundsRanges | cql3/restrictions/single_column_primary_key_restrictions.hh:403-416 | the loop computes exactly `PartitionBoundsRangesOf` |
| SingleColumnPk.SingleColumnPrimaryKeyRestrictions.ClusteringBoundsRanges | cql3/restrictions/single_column_primary_key_restrictions.hh:421-454 | fails iff computing the bounds fails, and otherwise returns the filtered, sorted, deduplicated clustering ranges |
| SingleColumnPk.Prepend | cql3/restrictions/single_column_primary_key_restrictions.hh:211-215 | each key of the product is extended at the front by one value |
| SingleColumnPk.ProductWithMembers | cql3/restrictions/single_column_primary_key_restrictions.hh:211-215 | a key is in the product of a value list with a set of keys iff its head is in the list and its tail in the set, and the size is the product of the sizes |
| SingleColumnPk.ProductMembers | cql3/restrictions/single_column_primary_key_restrictions.hh:211-215 | a key is in the cartesian product iff it chooses one value from each list, and the product has the product of the sizes |
| SingleColumnPk.Present | cql3/restrictions/single_column_primary_key_restrictions.hh:198-203 | a value list with no null is dereferenced element by element |
| SingleColumnPk.CollectAll | cql3/restrictions/single_column_primary_key_restrictions.hh:192-209 | with every value list non-empty and non-null, collection succeeds with every column's values in order |
| SingleColumnPk.ValuesAsKeysMembers | cql3/restrictions/single_column_primary_key_restrictions.hh:190-216 | with no null and no empty value list, a key is selected iff it takes, for every restricted column, one of that column's values |
| SingleColumnPk.CollectNull | cql3/restrictions/single_column_primary_key_restrictions.hh:198-203 | the first column with a null value makes `values_as_keys` fail with its invalid-null message |
| SingleColumnPk.Singulars | cql3/restrictions/single_column_primary_key_restrictions.hh:327-330 | one singular range per key prefix, in order |
| SingleColumnPk.ReadBound | cql3/restrictions/single_column_primary_key_restrictions.hh:292-305 | a present bound reads as the prefix extended by its value, with its inclusiveness |
| SingleColumnPk.SliceRange | cql3/restrictions/single_column_primary_key_restrictions.hh:265-312 | a slice restriction yields a non-singular range |
| SingleColumnPk.SliceRanges | cql3/restrictions/single_column_primary_key_restrictions.hh:286-312 | one non-singular range per prefix of the cartesian product |
| SingleColumnPk.PartitionBoundsRangesOf | cql3/restrictions/single_column_primary_key_restrictions.hh:403-416 | partition ranges succeed iff every computed bound is singular, and then they are all singular |
| SingleColumnPk.AllEqKey | cql3/restrictions/single_column_primary_key_restrictions.hh:236-249 | with all-EQ restrictions on consecutive columns and no null, the single key is their values in order |
| SingleColumnPk.PrefixStops | cql3/restrictions/single_column_primary_key_restrictions.hh:256-260 | a gap in the positions or a CONTAINS ends the prefix: the rest of the restrictions play no part |
| SingleColumnPk.PrefixSingular | cql3/restrictions/single_column_primary_key_restrictions.hh:317-333 | without slices every computed range is singular |
| SingleColumnPk.NoSlicePartitionRanges | cql3/restrictions/single_column_primary_key_restrictions.hh:403-416 | without slices the partition ranges are exactly the computed bounds |
| SingleColumnPk.SlicePartitionRefused | cql3/restrictions/single_column_primary_key_restrictions.hh:406-409 | a slice on the first partition-key column is refused as a range query |
| SingleColumnPk.PrefixCompareZero | cql3/restrictions/single_column_primary_key_restrictions.hh:430 | prefixes compare equal iff they are equal |
| SingleColumnPk.PrefixCompareAntisymmetric | cql3/restrictions/single_column_primary_key_restrictions.hh:430 | swapping the prefixes negates the comparison |
| SingleColumnPk.PrefixCompareTransitive | cql3/restrictions/single_column_primary_key_restrictions.hh:430 | the prefix order is transitive |
| SingleColumnPk.WeightedCompareSame | cql3/restrictions/single_column_primary_key_restrictions.hh:424-427 | for the same prefix, the after-position is greater than the before-position |
| SingleColumnPk.SingularNotEmpty | cql3/restrictions/single_column_primary_key_restrictions.hh:424-427 | a singular range is never filtered out as empty |
| SingleColumnPk.NonEmpty | cql3/restrictions/single_column_primary_key_restrictions.hh:423-427 | keeps exactly the ranges whose end is not before their start |
| SingleColumnPk.StartTotal | cql3/restrictions/single_column_primary_key_restrictions.hh:431-442 | any two starts are ordered one way or the other |
| SingleColumnPk.StartLessTransitive | cql3/restrictions/single_column_primary_key_restrictions.hh:431-442 | the start order is transitive |
| SingleColumnPk.InsertByStart | cql3/restrictions/single_column_primary_key_restrictions.hh:431-442 | inserting into a start-sorted list keeps it sorted and adds exactly that range |
| SingleColumnPk.SortByStart | cql3/restrictions/single_column_primary_key_restrictions.hh:431-442 | sorting by start gives a sorted permutation |
| SingleColumnPk.Unique | cql3/restrictions/single_column_primary_key_restrictions.hh:444-452 | deduplication keeps only input ranges and always the first one |
| SingleColumnPk.UniqueStrict | cql3/restrictions/single_column_primary_key_restrictions.hh:444-452 | deduplicating a start-sorted list leaves strictly increasing starts |
| SingleColumnPk.UniqueCovers | cql3/restrictions/single_column_primary_key_restrictions.hh:444-452 | every start of the input survives deduplication |
| SingleColumnPk.AdjacentToAll | cql3/restrictions/single_column_primary_key_restrictions.hh:444-452 | strictly increasing neighbours give strictly increasing starts between any two positions |
| SingleColumnPk.ClusteringRangesIncreasing | cql3/restrictions/single_column_primary_key_restrictions.hh:421-454 | the clustering ranges come out with strictly increasing starts |
| SingleColumnPk.ClusteringRangesFromInput | cql3/restrictions/single_column_primary_key_restrictions.hh:421-454 | every clustering range is a non-empty computed range |
| SingleColumnPk.ClusteringRangesKeepStarts | cql3/restrictions/single_column_primary_key_restrictions.hh:421-454 | the start of every non-empty computed range is the start of some clustering range |
| DistributedLoader.IsSystemKeyspace | replica/distributed_loader.cc:54-56 | a system keyspace is always also an internal keyspace |
| DistributedLoader.IsInternalKeyspace | replica/distributed_loader.cc:61-72 | `is_internal_keyspace` holds only of keyspaces named `system…` |
| DistributedLoader.SystemKeyspacesAreInternal | replica/distributed_loader.cc:36-75 | the system keyspaces are exactly `system` and `system_schema`, and both are internal keyspaces |
| DistributedLoader.LoadPriority.constructor | replica/distributed_loader.cc:42-43 | no keyspace has load priority and population has not started |
| DistributedLoader.LoadPriority.MarkKeyspaceAsLoadPrio | replica/distributed_loader.cc:47-60 | callable only before population starts; adds exactly the keyspace to the priority set, so `is_load_prio_keyspace` (`LoadPriority.IsLoadPrioKeyspace`) then holds of it |
| DistributedLoader.InsertDescending | replica/distributed_loader.cc:187-190 | inserting into a list sorted by descending size keeps it sorted and adds exactly that sstable |
| DistributedLoader.ConsDescending | replica/distributed_loader.cc:187-190 | a head no smaller than the sorted rest gives a sorted list |
| DistributedLoader.SortDescending | replica/distributed_loader.cc:187-190 | sorting gives a permutation of the sstables in descending size order |
| DistributedLoader.FirstSmallest | replica/distributed_loader.cc:193 | `min_element` picks a shard with the smallest total size, the first such shard |
| DistributedLoader.Distribute | replica/distributed_loader.cc:192-197 | assigning the sstables keeps one descriptor per shard |
| DistributedLoader.Empty | replica/distributed_loader.cc:185 | one empty descriptor per shard |
| DistributedLoader.DistributeReshardJobs | replica/distributed_loader.cc:184-200 | the loop assigns the sstables, largest first, each to the first least-loaded shard, as `Distribute` does |
| DistributedLoader.SmallestShard | replica/distributed_loader.cc:193 | the scan returns exactly the first least-loaded shard |
| DistributedLoader.AllJobsPlace | replica/distributed_loader.cc:194-195 | placing an sstable on a shard adds exactly that sstable to the jobs of all shards |
| DistributedLoader.AllJobsPlaceLast | replica/distributed_loader.cc:194-195 | placing on the last shard adds exactly that sstable |
| DistributedLoader.AllJobsPlaceBefore | replica/distributed_loader.cc:194-195 | placing on an earlier shard adds exactly that sstable |
| DistributedLoader.ConsistentPlace | replica/distributed_loader.cc:194-195 | each descriptor's size stays the sum of its sstables' sizes |
| DistributedLoader.DistributePartitions | replica/distributed_loader.cc:184-200 | every sstable ends up on exactly one shard (the shards' jobs are the input as a multiset) and each shard's size is the sum of its jobs |
| DistributedLoader.MaxSize | replica/distributed_loader.cc:139-150 | the largest shard size is attained and bounds every shard |
| DistributedLoader.DistributeBalanced | replica/distributed_loader.cc:184-200 | greedy placement keeps the shards within the largest sstable's size of each other |
| DistributedLoader.NothingToReshard | replica/distributed_loader.cc:205-208 | resharding is skipped iff every shard's total size is zero |
| DistributedLoader.ShardGenerations.constructor | replica/distributed_loader.cc:335-343 | each shard's first generation is `(highest / count + 1) * count + shard` |
| DistributedLoader.ShardGenerations.Allocate | replica/distributed_loader.cc:347 | `fetch_add` hands out the shard's current generation, congruent to the shard and above the highest generation seen, and advances only that shard by the shard count |
| DistributedLoader.ModShift | replica/distributed_loader.cc:347 | advancing a generation by the shard count keeps its shard residue |
| DistributedLoader.FirstGeneration | replica/distributed_loader.cc:336-342 | a shard's first generation belongs to that shard and is above the highest generation seen |
| DistributedLoader.HighestGeneration | replica/distributed_loader.cc:238-243 | the highest generation over the shards bounds every shard's and is one of them, or 0 |
| DistributedLoader.HighestVersion | replica/distributed_loader.cc:245-251 | the highest version is at least the system version, bounds every shard's and is one of them or the system version |
| SstableDirectory.ManifestJsonFilter | sstables/sstable_directory.cc:27-34 | the lister filter rejects exactly the non-directory entries named `manifest.json` or `schema.cql`; an entry of unknown type is judged as a regular file |
| SstableDirectory.InsertFile | sstables/sstable_directory.cc:69 | adding a file to `generations_found` adds exactly that (generation, path) pair to the multimap |
| SstableDirectory.InsertFileSorted | sstables/sstable_directory.cc:69 | the multimap stays ordered by generation after an insertion |
| SstableDirectory.Handle | sstables/sstable_directory.cc:64-90 | a component of another shard's generation changes nothing; otherwise the file is recorded, a TOC adds its generation to the descriptors, a temporary TOC is queued, and a temporary Statistics file is scheduled for removal |
| SstableDirectory.ScanRecordsMine | sstables/sstable_directory.cc:185-195 | after the directory listing, the recorded files are exactly the earlier ones plus the files of this shard's generations, still ordered by generation |
| SstableDirectory.PathsOf | sstables/sstable_directory.cc:211-216 | every path recorded under a generation is collected |
| SstableDirectory.Without | sstables/sstable_directory.cc:217 | erasing a generation's range leaves exactly the files of the other generations |
| SstableDirectory.DropTempTocsEffect | sstables/sstable_directory.cc:207-219 | for each generation with a temporary TOC, all of its files are scheduled for removal and dropped from the scan together with its descriptor; every other file stays and nothing already scheduled is lost |
| SstableDirectory.MaxGeneration | sstables/sstable_directory.cc:221-223 | the highest generation seen bounds every remaining generation and is one of them, or 0 when none is left |
| SstableDirectory.Missing | sstables/sstable_directory.cc:228-236 | the files left after the descriptors are taken out are exactly those whose generation has no TOC |
| SstableDirectory.AllPaths | sstables/sstable_directory.cc:241-248 | every path of a file missing its TOC is collected |
| SstableDirectory.MissingTocHandling | sstables/sstable_directory.cc:237-249 | a file without a TOC fails the scan exactly when `throw_on_missing_toc` is set; otherwise every such file is scheduled for removal; scheduled removals are never dropped |
| SstableDirectory.SstableDirectoryState.constructor | sstables/sstable_directory.cc:50-61 | a directory state starts with nothing scheduled for removal, generation 0 seen and no unshared sstables |
| SstableDirectory.SstableDirectoryState.ProcessSstableDir | sstables/sstable_directory.cc:167-250 | the directory scan sets the highest generation seen and the removal set to the result of scanning, dropping temporary-TOC generations and handling missing TOCs |
| SstableDirectory.SstableDirectoryState.RemoveInputSstablesFromReshaping | sstables/sstable_directory.cc:315-341 | the unshared list keeps, in order, exactly the sstables that are not in the reshaped list |
| SstableDirectory.ScanFiles | sstables/sstable_directory.cc:185-195 | the listing loop computes the scan of all listed files |
| SstableDirectory.DropTempTocs | sstables/sstable_directory.cc:207-219 | the temporary-TOC loop computes the scan with those generations dropped |
| SstableDirectory.RemoveMissingToc | sstables/sstable_directory.cc:237-249 | the missing-TOC loop computes the failure or the grown removal set |
| SstableDirectory.KeepUnlistedLoop | sstables/sstable_directory.cc:328-334 | the rebuild loop keeps the unshared sstables that are not excluded, in order |
| SstableDirectory.MaxGenerationLoop | sstables/sstable_directory.cc:221-223 | the accumulation computes the highest generation |
| SstableDirectory.AllPathsSnoc | sstables/sstable_directory.cc:241-248 | collecting one more file adds exactly its path |
| SstableDirectory.KeepUnlisted | sstables/sstable_directory.cc:328-334 | rebuilding never grows the list |
| SstableDirectory.KeepUnlistedMembers | sstables/sstable_directory.cc:321-334 | an sstable stays exactly when it was in the list and is not excluded |
| SstableDirectory.KeepUnlistedSnoc | sstables/sstable_directory.cc:330-334 | one more sstable is kept exactly when it is not excluded |
| SstableDirectory.KeepUnlistedAppend | sstables/sstable_directory.cc:328-334 | rebuilding distributes over concatenation, so order is preserved |
| SstableDirectory.JobCounts | sstables/sstable_directory.cc:416-419 | for a non-empty input the job count lies in 1..n, the per-job count in 1..max, and per-job times jobs never exceeds n |
| SstableDirectory.NumJobsBounds | sstables/sstable_directory.cc:418 | the ceiling division gives between 1 and n jobs, enough to cover n at the maximum per job |
| SstableDirectory.PerJobBounds | sstables/sstable_directory.cc:419 | the per-job count lies between 1 and the maximum |
| SstableDirectory.ReshardBuckets | sstables/sstable_directory.cc:410-431 | no input gives no buckets; otherwise there are exactly `num_jobs` buckets, their concatenation is the input in order, and every bucket but the last holds `sstables_per_job` sstables |
| SstableDirectory.BucketsNext | sstables/sstable_directory.cc:426-430 | placing one more sstable keeps the bucket invariant |
| SstableDirectory.BucketCount | sstables/sstable_directory.cc:426-430 | once all sstables are placed, every job has its bucket |
| SstableDirectory.LastBucketExceedsMaximum | sstables/sstable_directory.cc:416-430 | with 10 sstables and at most 3 per job, 4 jobs of 2 are planned and the last bucket receives 4 sstables, more than the maximum |
| SstableDirectory.MinOf | sstables/sstable_directory.cc:486-490 | the smallest generation bounds all and is one of them |
| SstableDirectory.MaxOf | sstables/sstable_directory.cc:486-490 | the largest generation bounds all and is one of them |
| SstableDirectory.PendingDeleteLogNameShape | sstables/sstable_directory.cc:486-501 | the pending-delete log is named `sstables-<min>-<max>.log` with min at most max, and both numbers read back from their decimal text |
| SstableDirectory.NonEmpty | sstables/sstable_directory.cc:563 | the filtered basenames are all non-empty |
| SstableDirectory.ReplayRoundTrip | sstables/sstable_directory.cc:513-563 | replaying a log written by `delete_atomically` yields exactly the TOC names written, in order: `SstableDirectory.ReplayedNames` of the log's text is the list of names |
| Database.FirstMin | replica/database.cc:191 | the minimum element found is an index of a smallest count |
| Database.FindCount | replica/database.cc:182-184 | the search finds an entry with the given count, or there is none |
| Database.SeenCountedSnoc | replica/database.cc:166-167 | visiting one more table records its count |
| Database.SkipKeeps | replica/database.cc:168-180 | skipping a table with no operations, or one below the minimum of a full result, keeps the top-10 invariant |
| Database.FillKeeps | replica/database.cc:171-177 | while the result has room, a table with operations gets its own entry and the tracked minimum moves to it when it is smaller |
| Database.FirstMinSnoc | replica/database.cc:173-175 | the update of the tracked minimum on emplace agrees with the first smallest entry |
| Database.AppendKeeps | replica/database.cc:182-187 | a table whose count is already present joins that entry's table list |
| Database.ReplaceKeeps | replica/database.cc:189-191 | a table above the minimum of a full result replaces the minimum entry, and the minimum is recomputed |
| Database.FirstMinSameCounts | replica/database.cc:191 | the minimum depends only on the counts |
| Database.InsertByCount | replica/database.cc:194 | insertion keeps the entries ordered by count, holding exactly the old entries and the new one |
| Database.SortByCount | replica/database.cc:194 | sorting orders the entries by count and keeps exactly the same entries |
| Database.SortKeeps | replica/database.cc:194-196 | after the final sort the result is a top-10 result of the tables seen |
| Database.SortEntriesCounted | replica/database.cc:194 | sorting keeps every entry's count consistent with its tables |
| Database.SortSeenListed | replica/database.cc:194 | after sorting, each table with operations is listed or its count is at most every count of a full result |
| Database.PhasedBarrierTop10Counts | replica/database.cc:155-197 | the result holds at most 10 entries in ascending count order, each with a non-zero count that every table it lists has; no table is listed twice; and every table with operations is listed unless the result is full of counts at least as large (two tables with the same count may have separate entries, as long as the result has room) |
| Database.OnceStep | replica/database.cc:167-191 | a step that lists one table not seen before, possibly dropping a replaced entry's tables, keeps every table listed at most once |
| Database.TablesOfSort | replica/database.cc:194 | the final sort lists the same tables, each as often as before |
| Database.FreshId | replica/database.cc:166 | a table's id was not visited earlier |
| Database.CountsOfKeys | replica/database.cc:166 | every counted id is an id of a visited table |
| Database.DatabaseState.constructor | replica/database.cc:327-360 | a database starts with no tables, consistent registries and no schema change counted |
| Database.DatabaseState.UpdateVersion | replica/database.cc:747-752 | the version is set, and the schema change count grows by one exactly when the version differs |
| Database.DatabaseState.AddColumnFamily | replica/database.cc:896-924 | a table is added to both registries exactly when neither its uuid nor its (keyspace, name) is known; the registries stay mutually consistent; otherwise nothing changes and the error names the clash |
| Database.DatabaseState.FindUuid | replica/database.cc:986-992 | the uuid of a (keyspace, name) is found exactly when registered, and maps back to it; otherwise `no_such_column_family` |
| Database.AddCheck | replica/database.cc:911-918 | adding passes exactly when the uuid and the (keyspace, name) are both new; a known uuid is reported before a known name |
| Database.EraseDashes | replica/database.cc:1184-1185 | the result holds no dash and exactly the other characters of the uuid |
| Database.LastIndexOf | replica/database.cc:2230 | the last occurrence of a character is found, or there is none |
| Database.ExtractCfName | replica/database.cc:2226-2235 | a directory name without a dash is an error; otherwise the name up to the last dash |
| Database.ColumnFamilyDirectory | replica/database.cc:1183-1187 | a table's directory is an entry of the base directory whose name gives back the table name |
| Database.ExtractCfNameRoundTrip | replica/database.cc:1183-1186 | extracting from a table directory `name-uuid` gives back the table name, even when the name holds dashes |
| Database.GetAvailableIndexName | replica/database.cc:1977-1993 | the accepted index name is free, and it is the first free name among `base`, `base_1`, `base_2`, … |
| Database.CandidateInjective | replica/database.cc:1990 | distinct counters give distinct candidate names |
| Database.CandidateFresh | replica/database.cc:1990 | each candidate differs from all earlier ones |
| Database.CandidatesCount | replica/database.cc:1989-1991 | the first i candidates are i distinct names, so the search ends |
| Database.ClassifyQuery | replica/database.cc:1446-1468 | the statement group is a user query; otherwise the default, compaction, gossip, memory-compaction, memtable and memtable-to-cache groups are system queries, the streaming group is maintenance, and the rest are user queries |
| Migration.HaveSchemaAgreement | service/migration_manager.cc:205-234 | the loop answers exactly the agreement predicate: a lone known endpoint agrees; otherwise every live peer other than this node has published our schema version, and at least one such peer exists |
| Migration.DisagreementFound | service/migration_manager.cc:216-229 | one live peer with a missing or different schema version rules agreement out |
| Migration.NoLivePeers | service/migration_manager.cc:207-233 | with no live peer, the nodes agree exactly when this node is the only endpoint known |
| Migration.SchemaPullDecision | service/migration_manager.cc:240-257 | no pull exactly when the versions match or the peer should not be pulled from; an immediate pull exactly when our version is the empty one or the node has been up less than the migration delay; otherwise a pull after the delay |
| Migration.RecheckAfterDelay | service/migration_manager.cc:259-276 | after the delay a pull is submitted exactly when the peer's state and schema are still present and its version still differs from ours |
| Migration.NoPullFromIncompatible | service/migration_manager.cc:377-380 | `should_pull_schema_from` (`Migration.ShouldPullSchemaFrom`): a peer with incompatible schema tables or one that is only a gossip member is never pulled from |
| Migration.GenerateGroup0StateId | service/migration_manager.cc:1097-1106 | a new group 0 state id carries a timestamp at least the clock's and strictly after the previous id's, bumped by one only when the clock lags |
| Migration.Chain | service/migration_manager.cc:1097-1106 | generating ids one after another yields one time id per clock reading |
| Migration.ChainIncreasing | service/migration_manager.cc:1097-1106 | successive state ids have strictly increasing timestamps, whatever the clock does |
| Migration.AnnounceWithRaft | service/migration_manager.cc:998-1050 | `add_entry` is retried after `dropped_entry` and `commit_status_unknown`; the command is committed on the first applied attempt, `not_a_leader` is rethrown, and only retryable failures keep the loop going |
| Migration.AnnounceOutcome | service/migration_manager.cc:1076-1094 | announcing succeeds exactly on shard 0 with a committed command whose new state id is in the group 0 history; a committed command missing from the history is a concurrent modification |
| ServiceLevels.UpdatedLevel | service/qos/service_level_controller.cc:303-331 | an updated level takes the new options and keeps its group and static flag; a group that ran at the old options' shares runs at the new options' shares (corrected: the shares are taken from the new options) |
| ServiceLevels.UpdatedLevelAsWritten | service/qos/service_level_controller.cc:316-328 | as written: the update takes the new options and keeps the group and static flag, but a group that ran at the old options' shares keeps those shares whatever the new options say |
| ServiceLevels.StaleSharesAsWritten | service/qos/service_level_controller.cc:321-325 | as written, changing a level from 1000 to 500 shares leaves its group at 1000 shares, because the shares are read from the options before they are replaced |
| ServiceLevels.ServiceLevelController.constructor | service/qos/service_level_controller.cc:27-41 | the global controller starts with no levels and no static configurations, with the default group as the only group to reuse |
| ServiceLevels.ServiceLevelController.GetSchedulingGroup | service/qos/service_level_controller.cc:371-378 | a known level's group, or the default group for an unknown name |
| ServiceLevels.ServiceLevelController.NotifyServiceLevelUpdated | service/qos/service_level_controller.cc:303-331 | as written: a known level is replaced by `UpdatedLevelAsWritten` of it (the group's shares are read from the options being replaced); an unknown name changes nothing |
| ServiceLevels.ServiceLevelController.NotifyServiceLevelRemoved | service/qos/service_level_controller.cc:334-356 | the level is erased and its group joins the back of the reuse queue; an unknown name changes nothing |
| ServiceLevels.ServiceLevelController.DoAddServiceLevel | service/qos/service_level_controller.cc:502-571 | a static add records the static configuration; an existing level is updated as written (shares from the replaced options) unless a static add meets a non-static level, and a static level turned non-static loses the flag; a new level takes the oldest reusable group or a fresh one, at its options' shares; no other level changes |
| ServiceLevels.ServiceLevelController.DoRemoveServiceLevel | service/qos/service_level_controller.cc:574-596 | removing the static layer forgets the static configuration and removes a static level; removing a non-static level falls back to its saved static configuration when there is one and otherwise removes it; other combinations and unknown names change nothing else |
| ServiceLevels.ServiceLevelController.UpdateServiceLevelsFromDistributedData | service/qos/service_level_controller.cc:158-248 | afterwards every distributed level is present with its distributed options, and every remaining level is distributed or static |
| ServiceLevels.ServiceLevelController.RemoveAll | service/qos/service_level_controller.cc:240-242 | the deletion batch adds no level, leaves only static levels among the deleted names, and touches no other name |
| ServiceLevels.ServiceLevelController.AddAll | service/qos/service_level_controller.cc:243-245 | every name of the add-or-update batch ends up a non-static level with its distributed options; other names are untouched |
| ServiceLevels.NotFrom | service/qos/service_level_controller.cc:209-222 | in a sorted list, a name below the cursor is not among the rest |
| ServiceLevels.OnlyAt | service/qos/service_level_controller.cc:191-208 | a name occurs once in a strictly sorted list |
| ServiceLevels.DeletesStep | service/qos/service_level_controller.cc:209-227 | stepping past a current level keeps the deletion batch decided |
| ServiceLevels.AddsStep | service/qos/service_level_controller.cc:191-237 | stepping past a distributed level keeps the add-or-update batch decided |
| ServiceLevels.SeparatedEqual | service/qos/service_level_controller.cc:191-207 | advancing both cursors on a shared name keeps the walked prefixes separated |
| ServiceLevels.SeparatedDelete | service/qos/service_level_controller.cc:209-220 | a current name below the distributed cursor is not distributed |
| ServiceLevels.SeparatedAdd | service/qos/service_level_controller.cc:221-227 | a distributed name below the current cursor is not current |
| ServiceLevels.DiffServiceLevels | service/qos/service_level_controller.cc:180-237 | the merge walk deletes exactly the current non-static levels missing from the distributed data, with their options, and adds or updates exactly the distributed levels that are new or whose options differ |
| ServiceLevels.WalkedAll | service/qos/service_level_controller.cc:229-237 | once both walks are done the two batches are exactly the diff |
| ServiceLevels.SetDistributedServiceLevel | service/qos/service_level_controller.cc:483-499 | altering a missing level and adding an existing one fail with their messages; adding an existing level if not exists changes nothing; otherwise the level is written |
| ServiceLevels.FindServiceLevel | service/qos/service_level_controller.cc:250-282 | a level is found exactly when some role names a known level; when only the last role can, its options are the result |
| EncryptedFile.Wrap64Small | ent/encryption/encrypted_file_impl.cc:150 | unsigned 64-bit arithmetic leaves a value in range unchanged |
| EncryptedFile.LowMask | ent/encryption/encrypted_file_impl.cc:23-25 | masking with a power of two minus one is the remainder by it |
| EncryptedFile.BlockSizeIsPow2 | ent/encryption/encrypted_file_impl.cc:71 | the 4096-byte block size is a power of two |
| EncryptedFile.IsAlignedMod | ent/encryption/encrypted_file_impl.cc:23-25 | `is_aligned` holds exactly for multiples of the alignment |
| EncryptedFile.AlignUp | ent/encryption/encrypted_file_impl.cc:301 | the least multiple of the alignment at or above the value |
| EncryptedFile.AlignDown | ent/encryption/encrypted_file_impl.cc:223 | the greatest multiple of the alignment at or below the value |
| EncryptedFile.CalculateFileLength | ent/encryption/encrypted_file_impl.cc:147-154 | an aligned physical size is the logical length; otherwise one key block of padding is taken off, wrapping at 2^64 |
| EncryptedFile.TruncatedSize | ent/encryption/encrypted_file_impl.cc:314-320 | shrinking keeps an aligned length and pads an unaligned one with a key block |
| EncryptedFile.TruncateRoundTrip | ent/encryption/encrypted_file_impl.cc:147-154 | the length computed from a truncated file is the length truncated to |
| EncryptedFile.EncryptedFileState.constructor | ent/encryption/encrypted_file_impl.cc:137-145 | a wrapped file starts with no cached length |
| EncryptedFile.EncryptedFileState.VerifyFileLength | ent/encryption/encrypted_file_impl.cc:156-163 | a cached length is kept; otherwise it is computed from the physical size |
| EncryptedFile.EncryptedFileState.MaybeSetLength | ent/encryption/encrypted_file_impl.cc:165-169 | the cached length only grows, to the larger of itself and the new end |
| EncryptedFile.EncryptedFileState.ClearLength | ent/encryption/encrypted_file_impl.cc:171-173 | the cached length is forgotten |
| EncryptedFile.EncryptedFileState.Size | ent/encryption/encrypted_file_impl.cc:387-391 | the size is the cached length, computed first when missing, and it stays cached |
| EncryptedFile.EncryptedFileState.WriteDma | ent/encryption/encrypted_file_impl.cc:240-249 | a write of whole blocks returns the bytes written, grows the physical size to the written end and the cached length to at least that end |
| EncryptedFile.EncryptedFileState.Truncate | ent/encryption/encrypted_file_impl.cc:312-376 | after truncation the logical length is exactly the length asked for, the physical size carries the key-block padding, and the length read back from it agrees |
| EncryptedFile.LittleEndian | ent/encryption/encrypted_file_impl.cc:192-193 | the encoding has exactly the requested width |
| EncryptedFile.LittleEndianRoundTrip | ent/encryption/encrypted_file_impl.cc:192-193 | decoding the little-endian bytes of a value that fits gives the value back |
| EncryptedFile.Zeros | ent/encryption/encrypted_file_impl.cc:189 | a run of zero bytes of the given length |
| EncryptedFile.CounterBlock | ent/encryption/encrypted_file_impl.cc:188-193 | the IV input block has the size asked for |
| EncryptedFile.CounterBlockDecodes | ent/encryption/encrypted_file_impl.cc:188-193 | the IV input is zero except for its last 8 bytes, which hold the block number little-endian |
| EncryptedFile.Resize | ent/encryption/encrypted_file_impl.cc:198 | resizing keeps the leading bytes |
| EncryptedFile.IvFor | ent/encryption/encrypted_file_impl.cc:175-201 | an ECB key gets no IV; otherwise the IV is the block key's encryption of the counter block, cut to the IV length |
| EncryptedFile.Transform | ent/encryption/encrypted_file_impl.cc:203-230 | as written (the loop `EncryptedFile.TransformFrom`): whole blocks are transformed in order; an unaligned encryption fails with "Output data not aligned"; a cut-short decryption transforms the key-aligned prefix of the last block and reports `l - pos` wrapped at 2^64, so a read that starts past the logical end reports nearly 2^64 bytes |
| EncryptedFile.TransformCorrected | ent/encryption/encrypted_file_impl.cc:203-230 | corrected (see Findings; the loop `EncryptedFile.TransformFromCorrected`): the same transform, except that a cut-short decryption reports the logical bytes left from `pos`, and 0 when `pos` is at or past the logical end |
| EncryptedFile.EncryptWholeBlocks | ent/encryption/encrypted_file_impl.cc:214-229 | encrypting whole blocks transforms every byte |
| EncryptedFile.EncryptShortBlockFails | ent/encryption/encrypted_file_impl.cc:218-222 | encrypting a buffer that does not end on a block boundary fails with "Output data not aligned" |
| EncryptedFile.ReadPastEndAsWritten | ent/encryption/encrypted_file_impl.cc:218-225 | as written, decrypting 11 bytes read at 4096 of a file of logical length 4091 reports 2^64 - 5 bytes |
| EncryptedFile.DecryptWithinLength | ent/encryption/encrypted_file_impl.cc:218-225 | with the correction, a decryption never reports more than the logical bytes left from `pos`, and reports 0 bytes when it starts at or past the logical end (the Findings input: position 4096, logical length 4091) |
| EncryptedFile.CorrectedAgrees | ent/encryption/encrypted_file_impl.cc:203-230 | the correction changes nothing for transforms that start within the logical file |
| EncryptedFile.PlanBulkRead | ent/encryption/encrypted_file_impl.cc:291-301 | the bulk read starts at the block boundary below the offset and reads whole key blocks covering the front skip and the requested range |
| EncryptedFile.BulkReadResult | ent/encryption/encrypted_file_impl.cc:302-307 | the result is the decrypted bytes after the front skip, never more than asked for, and all of them when enough were decrypted |
| SstableTool.GetOutputFormatFromOptions | tools/scylla-sstable.cc:265-277 | no option gives the default format; "text" and "json" are the only accepted values and give the format of that name; anything else is an error naming the value |
| SstableTool.OutputFormatRoundTrip | tools/scylla-sstable.cc:265-277 | the name of each format parses back to it |
| SstableTool.ParseBucket | tools/scylla-sstable.cc:672-690 | no option gives months; an accepted value is the name of the bucket chosen; a rejected value names no bucket and is reported |
| SstableTool.BucketRoundTrip | tools/scylla-sstable.cc:672-690 | the name of each bucket parses back to it |
| SstableTool.UnitMicros | tools/scylla-sstable.cc:604-618 | every bucket unit is at least an hour of microseconds |
| SstableTool.TruncMultipleBounds | tools/scylla-sstable.cc:604-618 | `duration_cast` truncates toward zero: the result is a multiple of the unit, below a non-negative timestamp by less than a unit and above a negative one by less than a unit |
| SstableTool.TruncMultipleIdempotent | tools/scylla-sstable.cc:604-618 | truncating twice is truncating once |
| SstableTool.TruncMultipleMonotone | tools/scylla-sstable.cc:604-618 | truncation keeps the order of timestamps |
| SstableTool.TimestampBucket | tools/scylla-sstable.cc:604-618 | a timestamp's bucket is a multiple of the bucket unit and lies within one unit of the timestamp, toward zero |
| SstableTool.BucketIdempotent | tools/scylla-sstable.cc:604-618 | a bucket start is its own bucket |
| SstableTool.BucketMonotone | tools/scylla-sstable.cc:604-618 | later timestamps fall in the same or a later bucket |
| SstableTool.TallyKeys | tools/scylla-sstable.cc:620-629 | every histogram key is a bucket start with a positive count |
| SstableTool.TallyCounts | tools/scylla-sstable.cc:620-629 | a bucket is in the histogram exactly when some timestamp falls in it, with the number of timestamps that do |
| SstableTool.TotalRemove | tools/scylla-sstable.cc:620-629 | the total of a histogram splits off any one bucket |
| SstableTool.TallyTotal | tools/scylla-sstable.cc:620-629 | the counts of the histogram add up to the number of timestamps collected |
| SstableTool.RowStep | tools/scylla-sstable.cc:649-654 | visiting one more cell of a row adds its timestamps and cells |
| SstableTool.FirstUnknown | tools/scylla-sstable.cc:630-647 | the first cell of unknown type, or the row's end when there is none |
| SstableTool.HistogramConsumer.constructor | tools/scylla-sstable.cc:672-690 | a consumer starts with an empty histogram and zero partitions, rows and cells |
| SstableTool.HistogramConsumer.CollectTimestamp | tools/scylla-sstable.cc:620-629 | a timestamp adds one to the count of its bucket, creating the bucket at 1 |
| SstableTool.HistogramConsumer.CollectColumn | tools/scylla-sstable.cc:630-647 | an atomic cell adds one cell and its timestamp; a collection adds its tombstone's timestamp and one cell and timestamp per element; a cell of unknown type fails with its message |
| SstableTool.HistogramConsumer.CollectCollection | tools/scylla-sstable.cc:634-643 | a collection adds its tombstone's timestamp when present and one cell and timestamp per element |
| SstableTool.HistogramConsumer.CollectRow | tools/scylla-sstable.cc:649-658 | a row counts once and adds the cells before the first one of unknown type, which fails the row |
| SstableTool.HistogramConsumer.CollectClusteringRow | tools/scylla-sstable.cc:660-669 | a clustering row adds its marker's and tombstone's timestamps when present, then its cells as a row |
| SstableTool.HistogramConsumer.ConsumePartitionStart | tools/scylla-sstable.cc:697-703 | a partition counts once and adds its tombstone's timestamp when present |
| SstableTool.HistogramConsumer.ConsumeRangeTombstoneChange | tools/scylla-sstable.cc:712-715 | a range tombstone change adds its timestamp |
| SstableTool.HistogramConsumer.EndOfStream | tools/scylla-sstable.cc:725-760 | an empty histogram writes nothing; otherwise the buckets are written in increasing order with their counts, exactly the histogram's entries |
| SstableTool.HistogramSumsToTimestamps | tools/scylla-sstable.cc:620-629 | the histogram's counts add up to the timestamps counter |
| SstableTool.WordsAreWords | tools/scylla-sstable.cc:80-110 | every partition key read is non-empty and holds no whitespace |
| SstableTool.FindSpace | tools/scylla-sstable.cc:87 | the first whitespace of the buffer, or its end |
| SstableTool.RunJoinsWord | tools/scylla-sstable.cc:95-101 | a run without whitespace joins the pending key |
| SstableTool.SpaceEndsWord | tools/scylla-sstable.cc:103-107 | a whitespace ends the pending key, if any |
| SstableTool.SplitBuffer | tools/scylla-sstable.cc:86-109 | one buffer yields the keys it completes, and the rest carries over as the pending key, so that buffers split anywhere give the same keys |
| SstableTool.ReadPartitionsFile | tools/scylla-sstable.cc:80-111 | the keys read from the file are exactly its whitespace-separated words, in order, however the stream is chunked |
| ScyllaRepair.RingIsPow2 | tools/scyllarepair/scyllarepair.py:90-91 | the `2**64-1` mask is taken modulo 2^64 |
| ScyllaRepair.LowWidth | tools/scyllarepair/scyllarepair.py:90-91 | the part of a position left after the ignored most significant bits is at least 2 wide |
| ScyllaRepair.WidthTimesScale | tools/scyllarepair/scyllarepair.py:90-91 | shifting by `msb` scales that part back to the whole ring |
| ScyllaRepair.ShardByLowBits | tools/scyllarepair/scyllarepair.py:90-91 | a position's shard depends only on its bits below the ignored ones |
| ScyllaRepair.LowShardRange | tools/scyllarepair/scyllarepair.py:90-91 | the shard of any low part is a valid shard |
| ScyllaRepair.ShardRange | tools/scyllarepair/scyllarepair.py:90-95 | `zero_based_shard_of` always names one of the `nr_shards` shards |
| ScyllaRepair.LowShardMonotone | tools/scyllarepair/scyllarepair.py:90-91 | within a block, higher positions belong to the same or a higher shard |
| ScyllaRepair.FirstOfShardHasShard | tools/scyllarepair/scyllarepair.py:97-106 | the first position searched for a shard belongs to that shard |
| ScyllaRepair.BelowFirstOfShard | tools/scyllarepair/scyllarepair.py:103-106 | every position below a shard's start belongs to an earlier shard |
| ScyllaRepair.FirstOfShardBelowWidth | tools/scyllarepair/scyllarepair.py:97-106 | a shard's start lies within one block |
| ScyllaRepair.FirstOfShardIsLeast | tools/scyllarepair/scyllarepair.py:97-106 | a shard's start is the least position of that shard within a block |
| ScyllaRepair.FirstOfShardIncreasing | tools/scyllarepair/scyllarepair.py:97-106 | shard starts increase with the shard |
| ScyllaRepair.BlockShard | tools/scyllarepair/scyllarepair.py:90-91 | the shard of a position is the shard of its low part, whatever block it is in |
| ScyllaRepair.LowShardVersusFirst | tools/scyllarepair/scyllarepair.py:97-106 | a low part is below a shard's start exactly when it belongs to an earlier shard |
| ScyllaRepair.SearchStartsBelowFirst | tools/scyllarepair/scyllarepair.py:101-102 | the search for a shard's start begins at or below it, so the upward search finds it |
| ScyllaRepair.ShardNearFirst | tools/scyllarepair/scyllarepair.py:97-106 | positions below a shard's start belong to earlier shards, and the start belongs to the shard |
| ScyllaRepair.Murmur3Partitioner.constructor | tools/scyllarepair/scyllarepair.py:31-35 | a partitioner keeps its `msb` and shard count and has its shard starts computed |
| ScyllaRepair.Murmur3Partitioner.InitZeroBasedShardStart | tools/scyllarepair/scyllarepair.py:97-106 | the shard start list holds, for every shard, the least position of that shard within a block |
| ScyllaRepair.Murmur3Partitioner.GetShardStart | tools/scyllarepair/scyllarepair.py:108-110 | a shard's start belongs to the shard and every lower position of the block to an earlier shard |
| ScyllaRepair.Murmur3Partitioner.SplitRangeToShards | tools/scyllarepair/scyllarepair.py:233-255 | a wrapping range is an error; otherwise every piece lies within the range and within one shard, keyed by that shard, and every token of the range is in some piece |
| ScyllaRepair.Murmur3Partitioner.SplitRanges | tools/scyllarepair/scyllarepair.py:154-168 | splitting reaches at least the target count, leaves enough ranges alone, keeps the total width, and covers exactly the tokens the input covered |
| ScyllaRepair.ZeroBasedShardOf | tools/scyllarepair/scyllarepair.py:90-91 | the shard of a ring position is one of the `nr_shards` shards |
| ScyllaRepair.ShardOf | tools/scyllarepair/scyllarepair.py:93-95 | every token, moved up by 2^63, belongs to one of the `nr_shards` shards |
| ScyllaRepair.PositionParts | tools/scyllarepair/scyllarepair.py:90-95 | a ring position splits into a block number below 2^msb and a low part that decides its shard |
| ScyllaRepair.PrevShardSound | tools/scyllarepair/scyllarepair.py:133-152 | `token_for_prev_shard` (`Murmur3Partitioner.TokenForPrevShard`) gives the minimum token or a token of the requested shard at or before the given token |
| ScyllaRepair.NextShardInBlock | tools/scyllarepair/scyllarepair.py:112-131 | the next-shard token is the shard's start in the block chosen from the token's block and `spans` |
| ScyllaRepair.BlockTokenOfShard | tools/scyllarepair/scyllarepair.py:125-131 | a shard's start in any block is a token of that shard |
| ScyllaRepair.NextBlockAfter | tools/scyllarepair/scyllarepair.py:119-124 | the chosen block's shard start lies after the token |
| ScyllaRepair.NextShardSound | tools/scyllarepair/scyllarepair.py:112-131 | `token_for_next_shard` (`Murmur3Partitioner.TokenForNextShard`) gives the maximum token or a token of the requested shard after the given token |
| ScyllaRepair.PrevShardInBlock | tools/scyllarepair/scyllarepair.py:133-152 | for a token's own shard, the previous-shard token is that shard's start in the token's block |
| ScyllaRepair.PrevShardCovers | tools/scyllarepair/scyllarepair.py:133-152 | every token from a token's shard start up to the token belongs to the same shard |
| ScyllaRepair.PrevShardBoundary | tools/scyllarepair/scyllarepair.py:240-251 | the token just before a shard's start belongs to the previous shard, cyclically, as the splitting loop assumes |
| ScyllaRepair.FirstOfShardOfZero | tools/scyllarepair/scyllarepair.py:97-106 | shard 0 starts at position 0 |
| ScyllaRepair.AddRanges | tools/scyllarepair/scyllarepair.py:170-174 | the shard's ranges are extended by the new ranges, created when missing; other shards are unchanged |
| ScyllaRepair.AddRangeCovers | tools/scyllarepair/scyllarepair.py:170-174 | adding a piece keeps every covered token covered and covers the piece |
| ScyllaRepair.AddRangeOfShard | tools/scyllarepair/scyllarepair.py:244-250 | adding a piece of the right shard within the range keeps every piece within the range and its shard |
| ScyllaRepair.SumWidthAppend | tools/scyllarepair/scyllarepair.py:154-168 | the total width grows by the width of an appended range |
| ScyllaRepair.InSomeAppend | tools/scyllarepair/scyllarepair.py:154-168 | a token is covered by an extended list exactly when covered before or by the new range |
| ScyllaRepair.HalvesCover | tools/scyllarepair/scyllarepair.py:163-165 | the two halves of a range cover exactly the range |
| ScyllaRepair.SplitStep | tools/scyllarepair/scyllarepair.py:160-167 | keeping or halving one more range preserves total width and coverage |
| ScyllaRepair.WrapSplitCovers | tools/scyllarepair/scyllarepair.py:276-284 | a wrapping ring range becomes two forward ranges that cover exactly the tokens of the ring range |
| ScyllaRepair.GatherNext | tools/scyllarepair/scyllarepair.py:271-298 | visiting one more ring entry adds its ranges to the primary list when this node is its primary, and to the non-primary list when it is a replica |
| ScyllaRepair.WantedCoversStep | tools/scyllarepair/scyllarepair.py:271-298 | coverage by the wanted entries grows exactly by the next entry's ring range when it is wanted |
| ScyllaRepair.LocalRangesForward | tools/scyllarepair/scyllarepair.py:271-298 | every local range goes forward |
| ScyllaRepair.LocalRangesCover | tools/scyllarepair/scyllarepair.py:271-298 | the local ranges cover exactly the tokens of the ring ranges this node holds in that role |
| ScyllaRepair.ForwardConcat | tools/scyllarepair/scyllarepair.py:271-298 | forward range lists stay forward when joined |
| ScyllaRepair.InSomeConcat | tools/scyllarepair/scyllarepair.py:271-298 | a joined list covers what either part covers |
| ScyllaRepair.GetLocalRange | tools/scyllarepair/scyllarepair.py:257-299 | the primary and non-primary ranges are exactly the local ranges of each role that was asked for, with the non-primary wrap corrected |
| ScyllaRepair.GetLocalRangeAsWritten | tools/scyllarepair/scyllarepair.py:257-299 | as written, asking for non-primary ranges fails with a `NameError` exactly when some wrapping ring range has this node as a replica; otherwise the ranges are the local ranges |
| ScyllaRepair.NoWrapBeforeMeans | tools/scyllarepair/scyllarepair.py:286-296 | no failure so far means no wrapping replica range so far |
| ScyllaRepair.NonPrimaryWrapFails | tools/scyllarepair/scyllarepair.py:286-296 | a single wrapping range held as a replica makes the code as written fail, although its local ranges are well defined |
| ScyllaRepair.ChunksFlatten | tools/scyllarepair/scyllarepair.py:356 | joining the chunks gives back the ranges in order |
| ScyllaRepair.ChunksSizes | tools/scyllarepair/scyllarepair.py:356 | there are as many chunks as the ceiling of the ranges over the chunk size; every chunk is non-empty and at most that size, and all but the last are full |
| ScyllaRepair.ChunkAt | tools/scyllarepair/scyllarepair.py:356 | chunk `i` is exactly the slice `ranges[i*k:(i+1)*k]`, cut at the end of the list, and is non-empty |
| ScyllaRepair.RangeTextInjective | tools/scyllarepair/scyllarepair.py:354 | two ranges written as the same `start:end` text are the same range |
| ScyllaRepair.RepairJobs | tools/scyllarepair/scyllarepair.py:354-356 | a zero chunk size is an error, a negative one gives no jobs; a positive size `k` gives one job per chunk, and job `i` is the comma-join of the texts of `ranges[i*k:(i+1)*k]` |
| ScyllaRepairMerge.Events | tools/scyllarepair/scyllarepair.py:190-193 | every interval gives a start event and an end event |
| ScyllaRepairMerge.InsertPermutes | tools/scyllarepair/scyllarepair.py:194 | inserting an event keeps every event |
| ScyllaRepairMerge.InsertSorted | tools/scyllarepair/scyllarepair.py:194 | inserting into sorted events keeps them sorted |
| ScyllaRepairMerge.SortEventsSorted | tools/scyllarepair/scyllarepair.py:194 | `data.sort()` orders events by position with starts before ends at the same position, and keeps exactly the same events |
| ScyllaRepairMerge.CountIfSort | tools/scyllarepair/scyllarepair.py:194 | sorting does not change how many events of a kind there are |
| ScyllaRepairMerge.EndsBeforeStarts | tools/scyllarepair/scyllarepair.py:190-194 | for forward intervals, no more intervals end at or before an event than start before it |
| ScyllaRepairMerge.PrefixDepth | tools/scyllarepair/scyllarepair.py:196-205 | scanning the sorted events never closes more intervals than it has opened |
| ScyllaRepairMerge.EventCounts | tools/scyllarepair/scyllarepair.py:190-193 | there are as many start events and end events as intervals |
| ScyllaRepairMerge.CoveredByRanges | tools/scyllarepair/scyllarepair.py:185-205 | a token is inside an open interval of the event sequence exactly when some input interval covers it |
| ScyllaRepairMerge.CoveredBetween | tools/scyllarepair/scyllarepair.py:196-205 | between two events, a token is covered exactly when the scan depth there is positive |
| ScyllaRepairMerge.NotCoveredBeforeFirst | tools/scyllarepair/scyllarepair.py:196-205 | nothing before the first event is covered |
| ScyllaRepairMerge.ScanStep | tools/scyllarepair/scyllarepair.py:198-204 | one more event keeps the scan invariant: a start opens, an end closes, and closing the last open interval emits the merged interval |
| ScyllaRepairMerge.SortedEvents | tools/scyllarepair/scyllarepair.py:190-194 | the sorted events are two per interval |
| ScyllaRepairMerge.ScanStart | tools/scyllarepair/scyllarepair.py:196-197 | the scan starts with the first event open |
| ScyllaRepairMerge.ScanDepth | tools/scyllarepair/scyllarepair.py:198-204 | the depth stays non-negative and moves by one per event |
| ScyllaRepairMerge.ScanEnd | tools/scyllarepair/scyllarepair.py:196-205 | at the end the merged intervals go forward, are disjoint and ordered, and cover exactly the tokens of the input |
| ScyllaRepairMerge.CollectEvents | tools/scyllarepair/scyllarepair.py:190-193 | the event loop collects the events of the intervals |
| ScyllaRepairMerge.Merge | tools/scyllarepair/scyllarepair.py:187-205 | no intervals merge to none; forward intervals merge into forward, disjoint, ordered intervals covering exactly the same tokens |

## Left out

General:

- Futures, coroutines, sharding (`smp::invoke_on_*`, `sharded<>`), gates, timers, gossip, messaging, raft and RPC are left out. They carry asynchrony and cross-node traffic, not decisions. Each modelled operation runs on one shard, to completion.
- Disk and file I/O are left out: directory listing, `sst->load`, unlink, `delete_atomically`'s writes, file opening in `load_file`, and the HTTP, thread, process and TinyDB calls of `scyllarepair.py`. Their results are parameters.
- Floating-point logic is left out because it is floating point: backlog controllers, `calculate_splits`, ownership totals and the memory split.
- Cryptography is left out. The block cipher and the IV cipher of the encrypted file are function parameters.
- Log messages and metrics are left out, except for the counters the modelled properties name (shed reads, permit-based evictions, the schema-change counter).

idl-compiler.py:

- The pyparsing grammar of `parse_file` (idl-compiler.py:443-522) is a foreign library and is not part of this model. Only the tree it produces is modelled, and a `parseAll` failure becomes an error result (`IdlEmit.LoadFile`). The set `types_with_const_appearances` (idl-compiler.py:388-399), which a parse action fills while the grammar runs, is therefore a parameter of `IdlEmit.LoadFile` and `IdlEmit.DeclareSections`.
- The generated C++ text is modelled as sections that record the generator's decisions, not as characters. The view and writer generators (`add_view`, `handle_visitors_*`, `add_param_write*`) are left out, together with the `read_sizes`/`writers` dedup sets and the `is_basic_type`/`is_local_writable_type` tests that only serve them.
- `IdlRegistry.SortLayers`: on a dependency cycle, self-reference included, `sort_dependencies` loops forever. The model returns `None` there instead, and its contract speaks of acyclic registries.
- `IdlRegistry.Compiler.HandleTypes`: `handle_types` registers the classes found directly in the tree or in namespaces. It skips enums and does not descend into classes, so a nested class is never registered.
- `IdlMetadata.Annotate`: `setup_additional_metadata` assigns fields on the AST nodes in place. Here it returns the annotated tree, so aliasing between nodes is not modelled.
- `list_types` applies `reduce` without an initial value, which would raise on a template type with no arguments. The grammar cannot produce one, and the model gives the empty list there.

Token ring and storage service:

- The snitch's datacenter and rack lookups in `topology::add_endpoint` and the boost ICL interval maps of pending ranges are left out, because their types are not part of this model. A node's datacenter is a parameter of the within-DC range predicate.
- The joining, bootstrapping, decommission and removal flows of storage_service.cc, and `replicate_to_all_cores`, are left out: they are gossip and RPC plumbing.

Reader concurrency semaphore:

- Permits are identified by an index into the permit list. Readers, their buffers and their read functions are reduced to queue entries.
- Time-based evictions and the admission timeout come from timers and are left out. Only permit-based evictions are modelled.

Loading cache:

- The reload timer, the loader futures and the rehash of the underlying set are left out. Time is a parameter of each operation.
- `get()` with caching disabled calls the loader directly and stores nothing. It is not modelled.

CQL expressions and restrictions:

- Values of every CQL type are integers compared by their natural order. The byte-wise comparators, `like_matcher` and the collection value encodings are left out. `LIKE` is an uninterpreted predicate of the row.
- `Assignment.Prepare`: the column types' `from_string` parsers (types.cc) are not part of this model. Whether a type accepts a constant's text is a parameter `fromString` of the preparation functions, applied to the validator `untyped_constant_parsed_value` picks (prepare_expr.cc:525-540).
- `is_satisfied_by` of a token restriction is true in the model, because the token function is not part of this model.
- `Expression.PossibleSound` excludes `!=`: a `!=` restriction is satisfied by non-matching rows while its value set is empty.
- A slice whose tuple holds a null component dereferences an empty optional in the source. The model returns an error there.
- `pick_operator` is not part of this model. It is taken to map a start bound to `>`/`>=` and an end bound to `<`/`<=`.
- `SingleColumnPk.SortByStart` is a stable insertion sort, while `std::sort` is not stable. Among clustering ranges with equal starts, the model therefore fixes which one `SingleColumnPk.Unique` keeps; the source leaves that unspecified.
- The null-value messages (`SingleColumnPk.NullMessage`, `SingleColumnPk.KeyNullMessage`) name the column, where the source prints the restriction with `to_string()`.
- `MultiColumn.ColumnsInCommon` puts `" ,"` between every two names. The source skips the separator while the text built so far is empty, which differs only for an empty column name, and CQL has none.
- single_column_restrictions.hh and cartesian_product.hh are not part of this model. For the merge of two restrictions on the same column, only two slices with complementary bounds merge, and anything else is an error. `cartesian_product_is_empty` holds when there are no factors or some factor is empty.

SSTable directory, loader and database:

- `SstableDirectory.LastBucketExceedsMaximum` shows that the last reshard bucket can hold more than the maximum job size. It is not a finding, because the source comment says leftovers go to the last bucket.
- `token_compress_on` in the pending-delete log replay is not modelled. Empty names are dropped either way, so the result is the same.
- Tables are identified by their ids; table objects and their lifetimes are left out.
- Database.PhasedBarrierTop10Counts: an entry's table list is unbounded. In the source it is a `static_vector<table*, 16>` (replica/database.cc:157), whose `push_back` throws when a 17th table has a count already in a full result; the model raises no error there.
- `DistributedLoader.SortDescending` is a stable insertion sort, while `std::sort` is not stable. The model therefore fixes the order among equally sized sstables, and with it which of them reaches a shard first; the source leaves that unspecified.

Service levels and migration:

- `ServiceLevels.ServiceLevelController.NotifyServiceLevelUpdated` and `DoAddServiceLevel` follow the code as written, so the controller invariant does not say that a group runs at its level's shares; the corrected update (`ServiceLevels.UpdatedLevel`) keeps that, and is not wired into the controller.
- `ServiceLevels.ServiceLevelController.NotifyServiceLevelUpdated` and `NotifyServiceLevelRemoved` do not require the controller invariant, because the source calls them while the state is transiently inconsistent.
- I/O priority classes, subscribers and the per-shard fan-out of the service-level controller are left out.
- The schema push/pull RPCs of the migration manager are left out. Only the pull decision is modelled.

Encrypted file:

- `EncryptedFile.EncryptedFileState.Truncate` assumes the underlying `write_dma` writes every byte, since a short write would need the disk layer.
- `EncryptedFile.EncryptedFileState.Truncate` requires that the length plus two blocks stays below 2^64, so it does not model the wrap of the `uint64_t` sums.
- The power-of-two masks of the alignment arithmetic are written as division and multiplication. They are equal for the block sizes used.

scyllarepair.py:

- `verify_ranges`, `do_verify_ranges`, `verify_merge_ragnes` and the `run_repair` orchestration are left out. They are HTTP and thread plumbing around the modelled arithmetic.
- `token_for_prev_shard` and `token_for_next_shard` read the module-global `msb`, which the main program sets from the partitioner. The model takes it to be the partitioner's own `msb`.
- The bitwise OR that joins a shard's start to a block is modelled as addition, since the start lies below the block width.
- `ScyllaRepair.Murmur3Partitioner.SplitRanges` requires a non-empty list when the target is positive. The source loops forever on an empty list.
- The shard arithmetic (`ScyllaRepair.Params`) requires `2^msb * nr_shards <= 2^64`, which keeps each shard's share of a block non-empty. The script does not check it, and it holds for any real cluster (msb at most 12, a few hundred shards).
- `ScyllaRepair.PrevShardSound` and `ScyllaRepair.NextShardSound` are stated for `spans >= 1`, the only value the source passes.
- `ScyllaRepair.LocalRangesCover` is stated for tokens above the minimum token. The minimum token is the excluded start of every range.
- `ScyllaRepair.GetLocalRange` requires a well-formed ring: every entry has at least one endpoint and token bounds inside the ring, as the ring-describing API returns.
- `merge` is modelled as a module-level method (`ScyllaRepairMerge.Merge`) because it uses no state of the partitioner.
- In `merge`, Python's `start` could be unbound when an end event comes first. The model proves this never happens for the sorted events.

## Findings

| source | as written | input that shows it | evidently intended | confidence | as-written member | corrected member |
|---|---|---|---|---|---|---|
| service/storage_service.cc:3543-3548 | `trim_all` runs before the quotes are replaced by spaces, and the pieces after the split are not trimmed, so a quoted name or a name after `", "` is not a known operation | `'replace'` or `replace, bootstrap` as the allowed operations | trim each piece after quote replacement and splitting, so both lists enable the named operations | not executed | StorageService.QuotedNameRefused, StorageService.SpacedListRefused | StorageService.QuotedNameAcceptedCorrected, StorageService.SpacedListAcceptedCorrected |
| locator/token_metadata.cc:450-477 | the endpoint's old tokens are erased from the token map, but `sort_tokens` runs only when a new token key was inserted | endpoint A owns token 1 and B owns 2; A is updated to {2}, so 1 stays in the sorted tokens though the map no longer has it | re-sort whenever the token map changed | not executed | TokenMetadata.StaleSortedTokens | TokenMetadata.CorrectedSortKeepsRing, TokenMetadata.CorrectedSortsMore |
| utils/loading_cache.hh:273-285 | `shrink()` runs before the new entry is linked and does not count its size, so the footprint can end above `max_size` | `max_size` 10, one cached entry of size 9, a new value of size 10: footprint 19 | make room for the new entry before linking it | not executed | LoadingCache.LoadCanExceedMaxSize, LoadingCache.Cache.GetPtr | LoadingCache.LoadFootprint, LoadingCache.Cache.GetPtrCorrected |
| cql3/expr/expression.cc:724-730 | a strict multi-column bound gives the first column a strict bound, dropping values equal to the first component | `(c0, c1) < (1, 5)` on a row with c0 = 1, c1 = 3: the row matches, yet 1 is not a possible value of c0 | the first column gets the inclusive bound; only the whole tuple is strict | not executed | Expression.StrictTupleBoundMissesRow | Expression.PossibleSound |
| service/qos/service_level_controller.cc:321-325 | the updated scheduling group takes its shares from the old options | a level altered from 1000 to 500 shares keeps 1000 | shares from the new options | not executed | ServiceLevels.StaleSharesAsWritten, ServiceLevels.UpdatedLevelAsWritten | ServiceLevels.UpdatedLevel |
| ent/encryption/encrypted_file_impl.cc:218-225 | a decryption that reads past the logical length returns `l - pos` in unsigned arithmetic, which wraps when the read starts past the end | logical length 4091, 11 bytes read at position 4096: the byte count is 2^64 - 5 | return 0 bytes when the read starts at or past the logical end | not executed | EncryptedFile.ReadPastEndAsWritten, EncryptedFile.Transform | EncryptedFile.DecryptWithinLength, EncryptedFile.TransformCorrected |
| tools/scyllarepair/scyllarepair.py:286-296 | the wrap branch for non-primary ranges calls `minimum_token()` and `maximum_token()` without `self`, which raises `NameError` | ring entry (5, -5) with endpoints [a, b], non-primary ranges for node b | call the partitioner's methods and split the wrapping range as the primary branch does | not executed | ScyllaRepair.NonPrimaryWrapFails | ScyllaRepair.LocalRangesCover |
