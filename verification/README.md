# A verified model of reiny's schema, contract and transaction core

reiny connects robot modules over a message bus. A schema fingerprint travels with every sample, a bindings
file says who may talk to whom, a recorder and a player move samples in and out of bag files, and a launcher
pins sources and publishes bundles. This project models the code that decides those things and proves what it
is meant to guarantee, for every input, every run and every interleaving.

How the files fit together:

- Schema identity: `Descriptor`, `SchemaRecord`, `Canonical`, `Fingerprint` (index, worklist, byte writer),
  `SchemaIdentity` (bytes and meaning determine each other), `SchemaOrder` (order is irrelevant), `FieldRules`
  (what the field and name rules come to), `IndexContent` and `SchemaContent` (index, legality, closure and identity
  said of the descriptors alone), `Lookup` and `Pruning` (pruning a descriptor set keeps the fingerprint),
  `UnimportedType` (a set that pruning spoils).
- Split schema builds: `SchemaParts` (dependencies, ownership), `SchemaServices` (nothing dropped, nothing emitted twice).
- Contracts and keys: `Bindings`, `Keys`, `KeyPatterns` (patterns as text), `KeyText`, `BusKeys`.
- Bags: `Recorder` (the event loop), `EndpointSchema` (what descriptor answers teach), `BagChannels` (schema agreement,
  channels), `Recording` (loop and bag together), `FingerprintText`, `Playback` (the plan, and that recordings play),
  `Calendar` (dates).
- Presence: `Presence` (escape codec, polling as an event log).
- Transactions: `Cancellation`, `Control`, `Preparation`, `Sources`, `Artifacts`.
- Shared: `Prelude`, `Text`, `Order`, `Graph`, `Counting`.

Code that changes state step by step is a class or a method with loops, proved against functions and predicates
that do not mention the loop; code made of expressions is functions and lemmas. The outside world (bus, Git,
file system, writer, clock, cancellation requests) is an argument with arbitrary values, so every statement
holds for whatever it answers. Text is UTF-8 bytes in the schema and bundle modules, and characters in the key
modules. A `Result` carries no diagnostic text.

Where a property the code seems to promise turned out false, the code is modelled as it is, with an input that
shows the failure and the exact condition under which the property holds; two entries say instead what cannot
happen or is not needed:

- Looking a message up by walking dotted segments misses a definition whose own name contains a dot, although the
  index has it (`DottedNameIsMissed`); it finds exactly the messages spelled without such names (`FindAgreesWithIndex`).
- A pruned descriptor set keeps a successful fingerprint if and only if every reachable definition lies in the
  message's file or an imported one (`PruningExact`); a set with a type that is not imported loses it
  (`UnimportedTypeIsLost`). With failing runs included, the answer changes exactly when imports do not suffice and
  one of the two runs succeeds (`PruningAnswers`).
- The cycle error of the dependency check cannot occur: a cycle is always refused earlier, as a missing closure
  edge (`ValidateDepends`). So cycles are refused, but never under the message written for them.
- Printing what a key text parsed to gives the text back unless it is an input schema pattern over all
  ports (`PrintParse`); `InputPatternIsLost` is such a text.
- Matching keys field by field agrees with matching their texts, unless a schema pattern over all ports, printed under
  `@out`, meets an input's schema (`MatchesIsGlob`, `SchemaPatternCrosses`).
- A recorded key with an equals sign can never be mapped for playback: arguments are split at the first one
  (`MappingExact`).
- A service is emitted by exactly one part if and only if all entries of its request's type path have one owner
  (`ServicesConserved`); two parts whose protos define one type path emit it twice (`EmittedTwice`).
- Resolving one namespace and source twice in a transaction may give two commits: pinned, then locked to another
  directory, then back (`DetourMovesPin`). It is sure to give one commit exactly when this transaction fetched that
  commit itself (`RepeatExact`).
- Accepted bundle names can still clash as paths when a slash is doubled or a `.` segment is written
  (`DoubledSlashHides`). A spelling can hide a clash exactly when it is not plain (`PlainExact`), and plainly spelled
  names are accepted exactly when they fit in one tree (`AcceptedExact`).
- Staging can therefore lose a file or fail, depending on the file system. On a tree that ignores case, two accepted
  names can share a place, and then one replaces the other (`DoubledSlashReplaces`), or one can be a directory of the
  other (`DoubledSlashBlocks`). Wherever the tree puts names, staging keeps as many files as names exactly when the
  names fit in it (`StageFiles`); on a tree that tells paths apart it refuses or keeps every file (`PathsKept`).
- Agreement of recorded fingerprints does not need one contract per source address: the key text contains the
  type, so different types never share a channel (`SameTextSameSource`, `AgreementGrows`).

## Model

| member | source | states |
|---|---|---|
| Descriptor.FillMeaning | crates/reiny-build/src/fingerprint.rs:22-75 | Inserting declarations one by one succeeds exactly when all are named and no full name occurs twice, and then the index holds exactly those definitions |
| IndexContent.IndexExact | crates/reiny-build/src/fingerprint.rs:22-75 | An index holds exactly the messages and enums that the files declare at any depth, each under its package and the names around it joined by dots |
| Fingerprint.Index.Build | crates/reiny-build/src/fingerprint.rs:22-31 | The nested insertion loops build the index of the flat list of declarations, or fail exactly when it cannot be indexed |
| Fingerprint.Index.InsertScope | crates/reiny-build/src/fingerprint.rs:33-53 | Recursion into nested scopes adds exactly the scope's declarations under their full names |
| Fingerprint.Index.Insert | crates/reiny-build/src/fingerprint.rs:55-75 | An empty or repeated full name is refused, any other is added and nothing else changes |
| Fingerprint.Resolve | crates/reiny-build/src/fingerprint.rs:129-156 | The scope-shrinking loop ends and returns the first defined candidate, never an undefined name |
| FieldRules.CandidatesAreScopes | crates/reiny-build/src/fingerprint.rs:129-156 | The names tried for a relative reference are its readings in the enclosing scopes, one per scope, innermost first |
| FieldRules.InnermostWins | crates/reiny-build/src/fingerprint.rs:129-156 | A relative reference means its reading in the innermost enclosing scope that defines it, and fails only when no enclosing scope does |
| FieldRules.MeansExact | crates/reiny-build/src/fingerprint.rs:129-156 | In any scope a reference resolves exactly to what it means: an absolute one to the name after its dot, a relative one to its reading in the innermost enclosing scope that has one |
| FieldRules.TypedExact | crates/reiny-build/src/fingerprint.rs:219-258 | Inference finds the one kind and reference that fit what is stated: a reference exactly on message, group and enum kinds, resolved to a definition of that kind |
| FieldRules.CountsAlone | crates/reiny-build/src/fingerprint.rs:289-303 | Counting one field in a oneof is the same as no other field naming it |
| FieldRules.RecordedFieldRules | crates/reiny-build/src/fingerprint.rs:260-332 | A message's field is accepted exactly when it can be typed and its place is lawful under the protobuf rules on cardinality, oneofs, proto3 and packing |
| FieldRules.RecordedFieldSays | crates/reiny-build/src/fingerprint.rs:312-358 | Entry by entry, the record has the field's own number, name, cardinality, proto3-optional flag and default value, its typed kind and reference, the name of its oneof, the JSON name stated or else the camel case of the name, and is packed and has presence exactly by the protobuf rules |
| Fingerprint.FieldKind | crates/reiny-build/src/fingerprint.rs:219-258 | Resolving through the scope loop and then checking in order gives the field's kind and reference, or fails exactly when it has none |
| Fingerprint.CountSharing | crates/reiny-build/src/fingerprint.rs:289-303 | The loop counts the fields that name one oneof |
| Fingerprint.DefaultJsonName | crates/reiny-build/src/fingerprint.rs:333-354 | The loop with its flag computes the default JSON name |
| Fingerprint.CheckField | crates/reiny-build/src/fingerprint.rs:260-354 | The checks made one after another leave exactly the fields that have a record, and build that record |
| FieldRules.JsonNameIsCamel | crates/reiny-build/src/fingerprint.rs:333-354 | The default JSON name is the camel case of the pieces between underscores |
| Fingerprint.EncodeField | crates/reiny-build/src/fingerprint.rs:260-363 | A field that passes the checks is appended as its record's items and its reference is pushed; any other appends nothing |
| Fingerprint.EncodeMessage | crates/reiny-build/src/fingerprint.rs:158-217 | The message encoder accepts exactly the admissible messages, appends their record and pushes all references in field order |
| Fingerprint.EncodeEnum | crates/reiny-build/src/fingerprint.rs:366-398 | The enum encoder accepts exactly the admissible enums and appends their record |
| Fingerprint.PutRanges | crates/reiny-build/src/fingerprint.rs:438-446 | Reserved ranges are appended sorted, behind their count |
| Fingerprint.PutStrings | crates/reiny-build/src/fingerprint.rs:430-437 | Names are appended sorted, behind their count |
| SchemaRecord.AppendRecordWrite | crates/reiny-build/src/fingerprint.rs:93-107 | The bytes the encoders append one call at a time are the code words of the record's item list |
| SchemaRecord.ReferencesDefined | crates/reiny-build/src/fingerprint.rs:93-107 | Every reference a record pushes is an indexed definition, so the worklist never looks up a missing name |
| Fingerprint.Index.RecordDefinition | crates/reiny-build/src/fingerprint.rs:87-107 | One turn of the worklist yields the record of the definition and pushes exactly its references, or fails exactly when the definition has no record |
| Fingerprint.Index.Fingerprint | crates/reiny-build/src/fingerprint.rs:77-127 | The worklist ends, whatever the reference cycles, and answers none for a missing message, an error exactly when some reachable definition has no record, and otherwise the hash of one record per reachable definition in name order |
| Fingerprint.Index.Emit | crates/reiny-build/src/fingerprint.rs:108-127 | The bytes hashed are the header, version, root and the reachable definitions' records in name order |
| SchemaContent.SchemaFraming | crates/reiny-build/src/fingerprint.rs:108-118 | The hashed bytes are the header text, version 2, the root, the number of records and the records in name order |
| EndpointSchema.HeaderText | crates/reiny-build/src/fingerprint.rs:109 | The header is the UTF-8 text `reiny.schema-fingerprint` |
| Fingerprint.HashVectors | crates/reiny-build/src/fingerprint.rs:119-127 | The hash gives published FNV-1a values |
| Canonical.WordSplit | crates/reiny-build/src/fingerprint.rs:400-447 | No item's code word is a proper prefix of another's of its kind |
| Canonical.WriteSplit | crates/reiny-build/src/fingerprint.rs:400-447 | Item lists of one shape are read back uniquely whatever bytes follow, for lengths below 2^64 |
| Canonical.WordReads | crates/reiny-build/src/fingerprint.rs:400-446 | Each item is written in its fixed width, least significant byte first, and each text behind its length in eight bytes |
| Canonical.Writer.PutOptional | crates/reiny-build/src/fingerprint.rs:424-429 | An optional text is appended as a presence byte and, if present, a length-prefixed text |
| Canonical.Writer.PutString | crates/reiny-build/src/fingerprint.rs:417-423 | A text is appended behind its 64-bit length |
| SchemaIdentity.RecordAgrees | crates/reiny-build/src/fingerprint.rs:158-217 | A definition's record is an arrangement of its meaning: fields by number, reserved items as multisets, oneof names as a set, references resolved |
| SchemaIdentity.SameMeaningSameRecord | crates/reiny-build/src/fingerprint.rs:158-217 | A meaning has one sorted record |
| SchemaIdentity.RecordUnique | crates/reiny-build/src/fingerprint.rs:158-217 | Records with equal bytes are equal |
| SchemaIdentity.CanonicalBytesExact | crates/reiny-build/src/fingerprint.rs:77-127 | The pre-hash bytes of two successful runs are equal if and only if the roots and the normalised reachable closures are equal |
| SchemaIdentity.BytesThenMeaning | crates/reiny-build/src/fingerprint.rs:77-127 | Equal bytes come from equal roots and equal meanings: no two different schemas share bytes |
| SchemaIdentity.MeaningThenBytes | crates/reiny-build/src/fingerprint.rs:77-127 | Equal meanings give equal bytes |
| SchemaContent.LegalExact | crates/reiny-build/src/fingerprint.rs:158-398 | A definition has a record exactly when it is legal, said of the descriptors: known syntax, no extensions, distinct named oneofs, distinct positive numbers and distinct names, every field typed and lawful; distinct named enum values and at least one |
| SchemaContent.RefersExact | crates/reiny-build/src/fingerprint.rs:158-363 | The record of a message refers to exactly the types of its fields |
| SchemaContent.EncodableExact | crates/reiny-build/src/fingerprint.rs:77-128 | A message can be fingerprinted exactly when everything it needs through field types is legal |
| SchemaContent.ClosureExact | crates/reiny-build/src/fingerprint.rs:77-128 | The definitions recorded are exactly those the message needs through chains of field types |
| SchemaContent.SameFieldExact | crates/reiny-build/src/fingerprint.rs:260-363 | Two fields have one record exactly when number, name, cardinality, type, oneof, proto3-optional flag, packing, default value and JSON name agree |
| SchemaContent.BytesSaySchema | crates/reiny-build/src/fingerprint.rs:77-128 | The bytes of two messages are equal if and only if the messages have one name, need the same names, and each definition needed says the same in both descriptor sets, field by field; stated on descriptors only |
| SchemaOrder.FilesInAnyOrder | crates/reiny-build/src/fingerprint.rs:22-75 | Permuting the files of a descriptor set gives the same index, or fails in both orders |
| SchemaOrder.OrderNeverMatters | crates/reiny-build/src/fingerprint.rs:77-217 | Definitions with fields, enum values after the first and reserved items in another order give every root the same fingerprint, absence or error |
| SchemaOrder.MessagesPermuted | crates/reiny-build/src/fingerprint.rs:33-53 | Permuting the messages of a scope reorders it, at any depth |
| SchemaOrder.FilesPermuted | crates/reiny-build/src/fingerprint.rs:22-31 | Permuting files reorders a set |
| SchemaOrder.ReorderingNeverMatters | crates/reiny-build/src/fingerprint.rs:22-217 | A descriptor set reordered at any depth (files, scopes, fields, values, reserved items) indexes exactly when the original does and then answers every root alike |
| Lookup.FindAgreesWithIndex | crates/reiny-build/src/lib.rs:1296-1317 | When the index builds, the walk finds a message if and only if the index has a message of that name whose path is spelled without dotted names, and it finds that definition |
| Lookup.DottedNameIsMissed | crates/reiny-build/src/lib.rs:1296-1317 | A concrete set whose message is indexed but not found by the walk |
| Pruning.DescriptorSubset | crates/reiny-build/src/lib.rs:1258-1286 | The growing list with a cursor ends and keeps exactly the files reachable through imports, in their original order |
| Pruning.SubsetExact | crates/reiny-build/src/lib.rs:1257-1287 | Exactly the files whose names are reached from the message's file through import lists are kept, in their order; stated on the files only |
| Pruning.IndexRestricted | crates/reiny-build/src/lib.rs:1258-1286 | Keeping some files of an indexable set gives the index restricted to those files' definitions |
| Pruning.RestrictionPreserves | crates/reiny-build/src/lib.rs:1247-1286 | A restriction that keeps every reachable definition and its references answers every fingerprint request as the whole set does |
| Pruning.RestrictionExact | crates/reiny-build/src/lib.rs:1247-1286 | A restriction keeps a successful run's bytes if and only if it keeps the whole closure |
| Pruning.PruningPreserves | crates/reiny-build/src/lib.rs:1247-1317 | For any indexable set, pruning answers none exactly when there is no such message spelled without dotted names; otherwise the pruned set indexes, and if imports suffice it gives the same fingerprint or error |
| Pruning.PruningAnswers | crates/reiny-build/src/lib.rs:1247-1317 | With failing runs included, pruning changes the answer exactly when imports do not suffice and at least one of the two runs succeeds |
| UnimportedType.UnimportedTypeIsLost | crates/reiny-build/src/lib.rs:1258-1286 | A concrete set whose message has a fingerprint that the pruned set loses |
| Pruning.PruningExact | crates/reiny-build/src/lib.rs:1247-1317 | A successful fingerprint survives pruning if and only if every reachable definition lies in the message's file or an imported one |
| SchemaParts.ValidateDepends | crates/reiny-build/src/lib.rs:760-800 | The check ends and accepts exactly when everything a part reaches is a part, is not itself and is declared by it directly; each refusal names a real fault (a self dependency, an unknown part, an undeclared dependency of a dependency), and the cycle refusal never occurs |
| SchemaParts.SoundMeans | crates/reiny-build/src/lib.rs:760-800 | The local checks of one part are equivalent to closure under all transitive dependencies |
| SchemaParts.Walk | crates/reiny-build/src/lib.rs:780-798 | The stack walk ends and accepts exactly when the declared list is closed and does not come back |
| SchemaParts.AssignOwners | crates/reiny-build/src/lib.rs:804-839 | Succeeds exactly when every proto is listed once and every entry's proto is listed; then each entry is owned by the part listing its proto and nothing else of it changes |
| SchemaParts.OneOwner | crates/reiny-build/src/lib.rs:804-839 | With every file listed once, a file has one owner |
| SchemaParts.PathFromSnoc | crates/reiny-build/src/lib.rs:205-211 | A type path puts two colons before each segment |
| SchemaServices.ResolveServices | crates/reiny-build/src/lib.rs:1723-1782 | Accepts exactly when all aliases are known, responses are visible where requests are generated, and no two services share a request type; then resolves them in order |
| SchemaServices.FindAlias | crates/reiny-build/src/lib.rs:1785-1796 | An alias found is that of an entry exposed under that spelling |
| SchemaServices.AnswersExact | crates/reiny-build/src/lib.rs:1785-1796 | An entry answers to its own alias, and one from a dependency to that with the dependency and the first two colons before it |
| SchemaServices.CrateIdentExact | crates/reiny-build/src/lib.rs:105-107 | A crate's identifier is its name with underscores for dashes |
| SchemaServices.FirstAnswer | crates/reiny-build/src/lib.rs:1785-1796 | No earlier entry is exposed under that spelling, and none at all when nothing is found |
| SchemaServices.EntriesConserved | crates/reiny-build/src/lib.rs:972-976 | Every entry is in exactly one part's plan |
| SchemaServices.EmittedWhereGenerated | crates/reiny-build/src/lib.rs:1460-1486 | In an accepted workspace a part emits a service exactly when it generates the request's type path: none is dropped |
| SchemaServices.ServicesConserved | crates/reiny-build/src/lib.rs:1460-1486 | A service is emitted by exactly one part if and only if its request's type path has one owner; the emitter owns the request and declares the response's owner as a dependency |
| SchemaServices.PathsDetermineHomes | crates/reiny-build/src/lib.rs:1460-1486 | If a type path determines its proto file, every type path has one owner |
| SchemaServices.EmittedTwice | crates/reiny-build/src/lib.rs:1460-1486 | A concrete accepted workspace in which two parts emit one service |
| Bindings.Validate | crates/reiny-core/src/bindings.rs:501-591 | Accepts exactly the sound bindings: valid contracts on their own side, one contract per source address over all inputs, one source per RPC input, each endpoint delegated at most once over all children, and a namespace that is the endpoint's or `<endpoint>/owned/<child>` |
| Bindings.TypeNameExact | crates/reiny-core/src/bindings.rs:422-430 | A type name is letters, digits and underscores in parts between single dots |
| Bindings.PoliciesOwned | crates/reiny-core/src/bindings.rs:461-499 | A contract is valid exactly when its names and semantics are stated and resetting the policies of the other side, or of both for an RPC, changes nothing |
| Bindings.ValidateInputs | crates/reiny-core/src/bindings.rs:529-556 | One pass with an address map decides agreement of every pair of inputs that share a source |
| Bindings.ValidateDelegations | crates/reiny-core/src/bindings.rs:563-591 | One pass with sets decides exclusivity over every pair of children |
| Keys.ParsePrint | crates/reiny/src/engine/mod.rs:198-387 | Every valid key reads back from its text |
| Keys.PrintInjective | crates/reiny/src/engine/mod.rs:359-387 | Two valid keys with one text are one key |
| Keys.PrintParse | crates/reiny/src/engine/mod.rs:261-319 | A text that parses prints back to itself exactly when it is not an input schema pattern over all ports |
| Keys.InputPatternIsLost | crates/reiny/src/engine/mod.rs:261-319 | A concrete text that parses and prints as another |
| KeyPatterns.MatchesIsGlob | crates/reiny/src/engine/mod.rs:318-348 | The text of a valid pattern, with `*` and `**` read segment by segment, matches the text of a valid key if and only if the pattern matches the key field by field and is not a schema pattern over all ports against an input's schema |
| KeyPatterns.SchemaPatternCrosses | crates/reiny/src/engine/mod.rs:318-348 | The pattern for every schema matches every input's schema although its text matches none |
| KeyText.ParsePartsExact | crates/reiny-cli/src/bus.rs:344-381 | Searching for the slot in the text agrees with parsing the key, and succeeds exactly on concrete endpoints without a facet |
| KeyText.PartsRoundTrip | crates/reiny-cli/src/bus.rs:344-381 | Printing a valid endpoint and reading its parts gives the parts back |
| KeyText.PartsPrintBack | crates/reiny-cli/src/bus.rs:344-381 | A text whose parts can be read is the print of those parts |
| KeyText.KeySourceExact | crates/reiny-cli/src/bus.rs:392-410 | The searched source is the parsed source on every text that parses, and empty otherwise |
| KeyText.SourcesDistinct | crates/reiny-cli/src/bus.rs:278-313 | Two sources have one key text exactly when they are one address |
| BusKeys.InputKeysRead | crates/reiny-cli/src/bus.rs:278-313 | The keys of an input are those of exactly the wanted sources, and each reads back as its own source |
| BusKeys.InputKeysDistinct | crates/reiny-cli/src/bus.rs:278-313 | In accepted bindings the keys of one input are all different |
| BusKeys.AcceptedKeysValid | crates/reiny-cli/src/bus.rs:278-340 | In accepted bindings every source and every output makes a valid key |
| BusKeys.InputKeysExact | crates/reiny-cli/src/bus.rs:278-313 | For accepted bindings keys are found exactly for a declared input of the kind and, if asked for, a source it has |
| BusKeys.RpcHasOneKey | crates/reiny-cli/src/bus.rs:278-313 | An accepted RPC input has one provider, so its call has exactly one key |
| Presence.EscapeIsEncode | crates/reiny-iceoryx2/src/lib.rs:162-167 | The two replacement passes equal a per-character code, and its output has no `@` |
| Presence.DecodeEncode | crates/reiny-iceoryx2/src/lib.rs:169-186 | The greedy decoder recovers every text, including texts that contain the escape words |
| Presence.EscapeInjective | crates/reiny-iceoryx2/src/lib.rs:162-167 | Two texts with one escaped form are one text |
| Presence.DecodeName | crates/reiny-iceoryx2/src/lib.rs:169-184 | The decoding loop ends and computes the greedy decoding |
| Presence.ParseAlive | crates/reiny-iceoryx2/src/lib.rs:169-186 | A foreign name is ignored, any other is decoded and parsed |
| Presence.AliveRoundTrip | crates/reiny-iceoryx2/src/lib.rs:162-186 | The presence name of a valid key parses back to the key |
| Presence.ReplayAlternates | crates/reiny-iceoryx2/src/lib.rs:690-710 | A log that replays alternates joined and left for each key, starting with joined, and a key is present after an odd number of events |
| Presence.Watchers.Watch | crates/reiny-iceoryx2/src/lib.rs:506-516 | A valid pattern gets a fresh watcher with an empty log; an invalid one changes nothing |
| Presence.Watchers.Drop | crates/reiny-iceoryx2/src/lib.rs:785-797 | Removes its own watcher and no other, delivering nothing |
| Presence.Watchers.Refresh | crates/reiny-iceoryx2/src/lib.rs:695-708 | Brings one watcher up to date, touching no other watcher's log |
| Presence.Watchers.Poll | crates/reiny-iceoryx2/src/lib.rs:690-710 | After every poll each watcher knows exactly the matching live keys and replaying its whole log from the empty set gives exactly those; logs only grow and a removed watcher's log stays |
| Recorder.SetsAreHistories | crates/reiny-cli/src/bagcmd.rs:356-440 | In every run the loop's two sets are exactly the keys with a live sample, or a query, since they last left |
| Recorder.SnapshotsYieldToLive | crates/reiny-cli/src/bagcmd.rs:356-440 | A snapshot is written exactly when no live sample of its key was taken since the key last left, and never after closing |
| Recorder.OneQueryPerSession | crates/reiny-cli/src/bagcmd.rs:356-440 | Between two queries for one key, the key has left |
| Recorder.QueriesStayOpen | crates/reiny-cli/src/bagcmd.rs:356-440 | In every run that is not closing the open queries are those sent, in order, without one for each that was exhausted |
| Recorder.QueriesAreJoins | crates/reiny-cli/src/bagcmd.rs:356-440 | Queries are sent for exactly the keys that join without having been queried since they last left, in order |
| Recorder.ArmsExact | crates/reiny-cli/src/bagcmd.rs:372-438 | Which arms can fire follows from whether the run was stopped and whether a sent query is still unexhausted |
| Recorder.ClosingDrains | crates/reiny-cli/src/bagcmd.rs:356-440 | However a run goes on after closing, the drained live samples are handed to the writer in order and nothing else is, and it ends within one turn more than there were items |
| Recorder.Loop.Step | crates/reiny-cli/src/bagcmd.rs:372-438 | One turn of the loop changes its fields exactly as the state machine does |
| Recorder.Loop.RecordPending | crates/reiny-cli/src/bagcmd.rs:356-440 | The loop over any sequence of turns is a run of the state machine |
| BagChannels.RecordContracts | crates/reiny-cli/src/bagcmd.rs:539-571 | Accepts exactly bindings without outputs whose inputs are recordable and valid and name some source; then every declared source has a contract, and every contract is that of an input declaring the key; all are first-in-first-out streams, and live ones without snapshots |
| BagChannels.FilterLaws | crates/reiny-cli/src/bagcmd.rs:1170-1181 | A filter accepts everything until told otherwise; an excluded type is shut out, the first type or source asked for shuts out all others, each further one lets in its own |
| BagChannels.SchemaKeyText | crates/reiny-cli/src/bagcmd.rs:482 | A schema is asked for under the source's own text with the type behind it |
| BagChannels.RecordedContractAgrees | crates/reiny-cli/src/bagcmd.rs:539-571 | In accepted bindings a key's contract agrees with every input that declares the key, whatever order inputs come in |
| BagChannels.SameTextSameSource | crates/reiny-cli/src/bagcmd.rs:474-528 | Two declared sources with one key text are one address with one type |
| EndpointSchema.FingerprintSet | crates/reiny-cli/src/bagcmd.rs:492-494 | Pruning and fingerprinting an answered set gives the pruned set and its fingerprint, or nothing |
| EndpointSchema.AnswerIsOwn | crates/reiny-cli/src/bagcmd.rs:492-494 | The fingerprint taken from an answer hashes the sent set's own bytes exactly when every reachable definition lies in the type's file or an imported one, and then it is that set's fingerprint |
| EndpointSchema.ReadDescriptors | crates/reiny-cli/src/bagcmd.rs:485-504 | A fingerprint is found exactly when there is an answer and all answers come from the asked endpoint with one fingerprint; it comes with the pruned set of the last answer, whose own fingerprint it is |
| EndpointSchema.AnyDissent | crates/reiny-cli/src/bagcmd.rs:485-504 | One refusal, foreign answer, undecodable set or other fingerprint is enough to teach nothing |
| EndpointSchema.UnanimousIsOwn | crates/reiny-cli/src/bagcmd.rs:485-504 | What unanimous answers teach is the own fingerprint of every answering set whose imports reach |
| EndpointSchema.Utf8Injective | crates/reiny-cli/src/bagcmd.rs:492-494 | Type names are compared as their UTF-8 bytes (section 3 of RFC 3629), and no two texts have the same bytes |
| BagChannels.ComparePeers | crates/reiny-cli/src/bagcmd.rs:507-524 | Accepts exactly when every known fingerprint of every input with this source agrees |
| BagChannels.AgreementGrows | crates/reiny-cli/src/bagcmd.rs:507-526 | Adding a fingerprint that agrees with its peers keeps agreement over all inputs |
| BagChannels.RecordChannels.DiscoverSchema | crates/reiny-cli/src/bagcmd.rs:474-528 | Learns a fingerprint exactly when the answers are unanimous about it and no known peer disagrees, keeps agreement over all inputs, and stores a pruned set that has this fingerprint under the declared type |
| BagChannels.RecordChannels.OpenChannel | crates/reiny-cli/src/bagcmd.rs:633-667 | A key has one channel, created exactly when the writer gives one, with the key's stored schema and described by its parts, fingerprint and contract |
| BagChannels.RecordChannels.WriteSample | crates/reiny-cli/src/bagcmd.rs:613-690 | Skips exactly unreadable or filtered keys; writes exactly when the schema is known, the sample carries its fingerprint and the writer goes along; the message is the sample, on the key's one channel, numbered by the messages already written for it modulo 2^32 |
| BagChannels.RecordChannels.WriteVerified | crates/reiny-cli/src/bagcmd.rs:442-472 | Writes exactly a declared sample that is wanted and carries the fingerprint known or just taught, with its own payload and fingerprint, skips exactly known keys that are not wanted and rejects the rest; never changes a known fingerprint; keeps every invariant of the recording |
| BagChannels.LogNext | crates/reiny-cli/src/bagcmd.rs:668-689 | After a write every message still carries its key's fingerprint and channel and its own number |
| BagChannels.RecordedSourcesAgree | crates/reiny-cli/src/bagcmd.rs:442-528 | In every reachable recording, the samples written from sources of one input came with one fingerprint |
| Recording.TurnAccepts | crates/reiny-cli/src/bagcmd.rs:372-438 | A turn of the loop accepts exactly the sample it hands over, unless that is rejected, and the loop then ends |
| Recording.HandTo | crates/reiny-cli/src/bagcmd.rs:435-472 | A sample handed over is accepted exactly when its key is declared and known and, if wanted, it carries the key's fingerprint and the writer goes along; the bag then holds the wanted accepted samples in order |
| Recording.Step | crates/reiny-cli/src/bagcmd.rs:372-438 | One turn of loop and bag together: the loop goes on exactly as the bag decides, and the two stay in step |
| Recording.Record | crates/reiny-cli/src/bagcmd.rs:342-440 | Over every sequence of events the bag's messages are, in order, the wanted samples the loop handed over up to a rejected one, each with its own key, payload and fingerprint, and the count returned is their number |
| Recording.MessagesVerified | crates/reiny-cli/src/bagcmd.rs:442-528 | Every message of a run is of a wanted declared key and carries the fingerprint of the schema stored for that key |
| Recording.ClosedRecording | crates/reiny-cli/src/bagcmd.rs:342-440 | A run that closes and finishes holds the wanted samples handed over before closing and then every wanted live sample still queued, in order |
| Playback.PlaybackMappings | crates/reiny-cli/src/bagcmd.rs:838-861 | Accepts exactly well-formed arguments naming no endpoint and no output twice, and returns the one-to-one map they spell |
| Playback.MappingExact | crates/reiny-cli/src/bagcmd.rs:842-851 | An argument is accepted, and read as an endpoint and an output, exactly when it is an output's key without equals sign, an equals sign and a nonempty output name |
| Playback.SpellsExact | crates/reiny-cli/src/bagcmd.rs:838-861 | The map spelled sends the key of each argument to its output and has no other key |
| Playback.PlanChannel | crates/reiny-cli/src/bagcmd.rs:880-938 | A channel is planned exactly when it fits its output and was recorded under the fingerprint of the schema stored with it |
| Playback.FitsExact | crates/reiny-cli/src/bagcmd.rs:880-929 | A channel fits an output exactly when a recorder could have written it and the output publishes its type |
| Playback.LiveKeyReads | crates/reiny-cli/src/bagcmd.rs:909-915 | A live key reads back as the player's domain and namespace, the output's name and its type |
| Playback.PlanChannels | crates/reiny-cli/src/bagcmd.rs:874-939 | Accepts exactly when every selected channel fits the output it is mapped to and no topic is selected twice; then plans exactly the selected channels |
| Playback.SizesDecide | crates/reiny-cli/src/bagcmd.rs:940-954 | Comparing sizes decides that every mapped endpoint was recorded and every output is mapped |
| Playback.PlaybackPlan | crates/reiny-cli/src/bagcmd.rs:863-956 | Succeeds exactly when arguments are sound and channels, mappings and outputs pair off |
| Playback.OutputsPlayedOnce | crates/reiny-cli/src/bagcmd.rs:863-956 | In a plan every declared output is played by exactly one recorded channel, agreeing on type and fingerprint |
| Playback.LiveKeysDistinct | crates/reiny-cli/src/bagcmd.rs:863-956 | No two planned channels publish to one live key |
| FingerprintText.FingerprintReads | crates/reiny-cli/src/bagcmd.rs:924-928 | A fingerprint written as sixteen hexadecimal digits reads back as itself |
| Playback.RecordedChannel | crates/reiny-cli/src/bagcmd.rs:637-667 | Every channel of every reachable recording has consistent metadata, and its recorded fingerprint reads back as the fingerprint of the schema stored with it |
| Playback.RecordedPlays | crates/reiny-cli/src/bagcmd.rs:889-929 | A recorded channel passes all of the player's checks for exactly the outputs that publish its declared type |
| Playback.RecordingPlays | crates/reiny-cli/src/bagcmd.rs:863-956 | A finished recording pairs off with the declared outputs exactly when the mappings pair its wanted keys with them, type for type |
| Calendar.DatesAreConsecutive | crates/reiny-cli/src/bagcmd.rs:1204-1219 | Day zero is 1970-01-01, every day gets a real date and the next day gets the next date, under the month lengths and leap rule of section 5.7 and appendix C of RFC 3339 |
| Calendar.DatesInOrder | crates/reiny-cli/src/bagcmd.rs:1204-1219 | Later days get later dates |
| Calendar.CountsBack | crates/reiny-cli/src/bagcmd.rs:1204-1219 | Counting a date's days year by year and month by month gives the day number back |
| Calendar.CivilExact | crates/reiny-cli/src/bagcmd.rs:1204-1219 | Every 64-bit second count becomes a real date and time of day that counts back to it |
| Sources.PinStays | crates/reiny-launch/src/acquire.rs:138-240 | Without update a locked record stays in place throughout a run if and only if no resolve locks its namespace to another source; failed attempts do not matter |
| Sources.PinnedOutcome | crates/reiny-launch/src/acquire.rs:138-240 | Each of its resolves hands back the locked commit, wherever the remote has moved |
| Sources.OneCommitPerReference | crates/reiny-launch/src/acquire.rs:190-217 | In one transaction all unpinned resolves of one repository and reference get one commit |
| Sources.RepeatExact | crates/reiny-launch/src/acquire.rs:138-240 | A repeated resolve hands back the same commit over every continuation and remote if and only if this transaction fetched that commit itself |
| Sources.ResolveExact | crates/reiny-launch/src/acquire.rs:138-240 | What any resolve of a transaction hands back: nothing if forbidden or not checked out; the locked commit if its namespace is locked to the source; else what the remote named when the reference was first asked for in this transaction; else what it names now |
| Sources.UpdateFollows | crates/reiny-launch/src/acquire.rs:178-217 | Under update a reference asked for the first time is what the remote names now, whatever is locked |
| Sources.LastLockHolds | crates/reiny-launch/src/acquire.rs:138-240 | After its last successful resolve a namespace stays locked to what that handed back |
| Sources.NeverLocked | crates/reiny-launch/src/acquire.rs:138-240 | A namespace that no resolve locks is locked as it was at the start |
| Sources.SameSourceSameCommit | crates/reiny-launch/src/acquire.rs:138-240 | Within a run a repeat gives the same commit if the first resolve was not pinned, or if the namespace was not locked elsewhere in between |
| Sources.DetourMovesPin | crates/reiny-launch/src/acquire.rs:138-240 | A concrete run in which a pinned namespace comes back with another commit |
| Sources.PublishedOnce | crates/reiny-launch/src/acquire.rs:242-274 | A run publishes at most once |
| Sources.PublishedClean | crates/reiny-launch/src/acquire.rs:138-274 | What is published is the records of that moment, before it no resolve failed and nothing was cancelled, and nothing later is published |
| Sources.PublishesExact | crates/reiny-launch/src/acquire.rs:246-274 | A step publishes exactly when it is a finish that persists some records and nothing before it failed, cancelled or finished the transaction |
| Sources.CommitsValid | crates/reiny-launch/src/acquire.rs:138-240 | Every commit recorded or fetched in a run is a full commit name |
| Sources.SourceResolver.Open | crates/reiny-launch/src/acquire.rs:75-119 | Opens exactly when not cancelled and the lockfile, if any, has the known version and only full commit names; a fresh transaction then holds its records |
| Sources.SourceResolver.Resolve | crates/reiny-launch/src/acquire.rs:138-240 | The resolver's fields change exactly as the transaction step does, and a failure latches |
| Sources.SourceResolver.Finish | crates/reiny-launch/src/acquire.rs:246-274 | Publishes only when open, neither failed nor cancelled, and then closes |
| Artifacts.ValidatePaths | crates/reiny-launch/src/artifacts.rs:772-802 | The textual check accepts exactly normal names of which none is, or lies below, another segment by segment, ignoring case and slash style |
| Artifacts.NormalExact | crates/reiny-launch/src/artifacts.rs:774-784 | A name is normal exactly when it is nonempty and relative, has no leading `.` and no component `..` |
| Artifacts.SpellingsClash | crates/reiny-launch/src/artifacts.rs:785-791 | Names that differ in slash style only, or agree in lower case, are never accepted together |
| Artifacts.PrefixText | crates/reiny-launch/src/artifacts.rs:791-800 | A text starts with another and a slash exactly when its segments extend the other's |
| Artifacts.LayoutableAccepted | crates/reiny-launch/src/artifacts.rs:772-802 | Normal names that fit in one tree that ignores case and slash style are never refused |
| Artifacts.AcceptedExact | crates/reiny-launch/src/artifacts.rs:772-802 | Plainly spelled names are accepted exactly when they fit in one tree that ignores case and slash style |
| Artifacts.PlainExact | crates/reiny-launch/src/artifacts.rs:772-802 | A spelling can hide a clash with a plain name if and only if it is not plain itself |
| Artifacts.DoubledSlashHides | crates/reiny-launch/src/artifacts.rs:772-802 | Two concrete names that are accepted but do not fit in one tree |
| Artifacts.StageFiles | crates/reiny-launch/src/artifacts.rs:804-838 | Wherever the tree puts names: succeeds exactly on accepted readable names of which no place lies above another; every name's place then holds the bytes of a name placed there; as many files as names exactly when the names fit in that tree, and then each has its own bytes |
| Artifacts.SharedPlaces | crates/reiny-launch/src/artifacts.rs:804-838 | Where no place lies above another, names fit in a tree exactly when no two share a place |
| Artifacts.PathsKept | crates/reiny-launch/src/artifacts.rs:804-838 | Names that differ as paths, on a tree that tells paths apart: no place lies above another exactly when all fit, so staging refuses or keeps every file |
| Artifacts.DoubledSlashReplaces | crates/reiny-launch/src/artifacts.rs:804-838 | Two concrete accepted names, different as paths, that share a place on a tree that ignores case and both fit in a tree that does not |
| Artifacts.DoubledSlashBlocks | crates/reiny-launch/src/artifacts.rs:804-838 | Two concrete accepted names that a tree ignoring case cannot hold and any other tree can |
| Artifacts.Feed | crates/reiny-launch/src/artifacts.rs:873-882 | Reading through the fixed buffer feeds exactly the file's bytes |
| Artifacts.DirectoryDigest | crates/reiny-launch/src/artifacts.rs:862-885 | The bytes hashed are each path and file behind its length, in path order |
| Artifacts.PathLeqExact | crates/reiny-launch/src/artifacts.rs:861-898 | Paths are ordered by the components where they first differ, a prefix first |
| Order.StrLeqExact | crates/reiny-build/src/fingerprint.rs:430-446 | Texts are ordered by the bytes where they first differ, a prefix first |
| Artifacts.StreamExact | crates/reiny-launch/src/artifacts.rs:861-898 | Two directories feed the hash the same bytes if and only if they hold the same files, although the number of files is not written |
| Artifacts.CollectLibraryDirectory | crates/reiny-launch/src/artifacts.rs:745-770 | Succeeds exactly when files and libraries of one name hold the same bytes, and then finds exactly those names with those bytes |
| Artifacts.LibraryExact | crates/reiny-launch/src/artifacts.rs:745-762 | A library is a file whose name ends in `.dll` in any case, in `.dylib` or `.so`, or has `.so.` inside |
| Artifacts.ScanOrderIrrelevant | crates/reiny-launch/src/artifacts.rs:745-770 | Listing the entries in any order gives the same bytes under the same names, or a conflict |
| Artifacts.ScansCompose | crates/reiny-launch/src/artifacts.rs:727-770 | Scanning directories one after another conflicts, and finds the same names and bytes, exactly when scanning them as one does |
| Control.Latched | crates/reiny-cli/src/control.rs:89-170 | Over every interleaving of calls an error implies cancelled, finished excludes both, and the first error, the first cancel time and a finish never change |
| Control.CommitsUnlessRequested | crates/reiny-cli/src/control.rs:141-152 | A publication commits exactly when every earlier request came after an earlier commit |
| Control.Control.Request | crates/reiny-cli/src/control.rs:89-105 | A request after a finish changes nothing; any other latches cancellation and keeps the first error and time |
| Control.Control.Check | crates/reiny-cli/src/control.rs:114-126 | Refuses exactly when an operation would not be admitted, naming a recorded error before a plain cancellation |
| Control.Control.Publish | crates/reiny-cli/src/control.rs:141-152 | Commits exactly when neither error nor cancellation came first and the operation succeeds |
| Control.Control.Active | crates/reiny-cli/src/control.rs:154-163 | Runs under the same admission but leaves the control open |
| Preparation.Tail | crates/reiny-cli/src/preparecmd.rs:131-141 | A shown diagnostic is a suffix of the text within the limit, whole if it fits |
| Preparation.TailStart | crates/reiny-cli/src/preparecmd.rs:131-134 | It starts at the first character boundary at or after the limit |
| Preparation.TailLongest | crates/reiny-cli/src/preparecmd.rs:131-141 | It is the longest suffix within the limit that does not cut a character |
| Preparation.Forwarded | crates/reiny-cli/src/preparecmd.rs:126-144 | No start or finish of the inner preparation is shown |
| Preparation.ForwardedExact | crates/reiny-cli/src/preparecmd.rs:122-146 | Every inner event but a start or a finish is shown once, in order and as it is, except that a diagnostic keeps only its tail |
| Preparation.Protocol.Emit | crates/reiny-cli/src/preparecmd.rs:56-84 | Each line takes the next number, rising always and without gaps while every write succeeds; a failed write uses its number |
| Preparation.Materialize | crates/reiny-cli/src/preparecmd.rs:101-163 | Succeeds exactly when the log can be opened, every inner event can be logged and shown and the preparation does; shows exactly the forwarded events; a failure to log or show them leaves a recorded error |
| Preparation.PublishResult | crates/reiny-cli/src/preparecmd.rs:206-222 | Commits exactly when admitted, placed and announced; the result is in place and announced exactly when the control has finished; otherwise nothing is announced, and nothing is left unless removing failed |
| Preparation.FailureStatus | crates/reiny-cli/src/preparecmd.rs:226-235 | An unpublished preparation is cancelled exactly when no error is recorded and it was cancelled, and failed otherwise |
| Preparation.Prepare | crates/reiny-cli/src/preparecmd.rs:165-243 | In every run the stream starts once, finishes at most once and last, and says success exactly when publication committed; it commits exactly when no step, log or line fails and no interrupt came first; a failed log or line is a recorded error, reported as failed; when all lines are written they are numbered 1 to n and complete |

## Left out

- The bus (Zenoh, iceoryx2 ports), MCAP file bytes, Git, Cargo, file locks and process control: I/O, present only as arbitrary answers.
- Hash outputs (FNV-1a beyond its definition, SHA-256): statements are about the bytes fed to them, not about collisions.
- Protobuf wire encoding and decoding of descriptor sets: the model starts from decoded descriptors.
- Error texts and their contexts; a failure is a value without text.
- `parse_with_chunk` and the remaining key helpers of the command line: they would repeat the key round trips.
- The fixed-size request metadata of the shared-memory transport (`Meta`): array bounds only.
- Playback timing and rates: floating point without a hard property.
- Cancellation of child tokens: one latch is modelled, and the inner preparation's own cancellation is an argument.
- Code and template rendering, tables and scaffolding: string templates.
- Job, step, component and deployment owners, and the bindings for other languages: other state machines, not part of this model.
- Sources.SourceResolver.Open: location and directory checks of locked records are one answer of the environment, and taking the file lock always succeeds.
- Sources.SourceResolver.Resolve: URL, path and reference-format checks and repository creation are one answer of the environment; comparing paths is comparing component lists.
- Artifacts.ValidatePaths: path components follow the Unix rules, and case folding is an arbitrary function of the text; a parent segment written with backslashes counts as a name.
- SchemaOrder.ReorderingNeverMatters: the order of oneof declarations is not permuted, because fields name them by position; equal meanings with oneofs in another order are covered by CanonicalBytesExact.
- Artifacts.StageFiles: cancellation and permissions are not modelled, and each source file is read as one value.
- Artifacts.CollectLibraryDirectory: a file that exists can be read.
- BagChannels.RecordChannels.WriteSample: sequence numbers wrap at 2^32, as in a build without overflow checks; times are not modelled, and the stored schema is the descriptor set its bytes decode to.
- BagChannels.RecordChannels.DiscoverSchema: an answer is a decoded descriptor set or none; decoding it is not modelled.
- Preparation.Prepare: interrupts arrive while preparing, just before publication and after a failure, in any number; a partly written line counts as not written.
- Playback.RecordingPlays: that the finished file holds the channels under the numbers its writer gave out is a premise; the file's bytes are not modelled.
- Recording.Record: the engine delivers samples under valid keys only.
- Recorder.Loop.RecordPending: the select's fairness is not modelled; any arm that can fire may fire.
