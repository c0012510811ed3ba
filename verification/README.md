# Samgita: Codex tooling and fixtures, modelled and proved

Samgita drives a native Codex binary. Around that driver the repository keeps Python tools that read
the vendored JSON Schema documents of the Codex protocol, fixtures that stand in for Codex's peers in its
integration runs, and a script that releases its four packages together. This project models the parts of those
tools whose correctness is not visible from one function:

- **Schema documents whose references may be cyclic.** `Json`, `JsonPointer` and `SchemaGraph` give parsed documents,
  JSON Pointers (RFC 6901) and the reference graph. `WorklistSearch` is the worklist `request_methods`, proved to find
  exactly the reachable definitions. `PathSearch` is the cycle-cutting `input_paths`; `InputRoutes` says what it
  returns in the words of a document: the keys of every route that enters no definition twice, one path each, in
  document order. `SearchAgreement` proves that the two agree on documents whose references stand where `input_paths`
  looks, and `SearchExactness` says exactly on which schemas they agree and what happens on the others. `SampleSchema`
  is the sample generator and `SampleKeywords` what it gives for each keyword; `SampleFragment` states an independent
  validator and the schemas whose samples `SampleValidity` proves to validate, and `SampleExample` is a document among
  them. `SupplementClosure` is the closure under references that `generate` computes. `SchemaContracts` is the
  inventory walk, `ContractCoverage` says which contracts it writes, and `ContractPointers` what its pointers lead to.
  `OutputCorrections` is the renaming of output fields, with the exact condition under which it keeps which objects
  satisfy a union branch, and `RepeatedCorrections` says when a second pass changes nothing.
- **Parsers, scanners and wire formats.** `TypeText` and `TypeRoundTrip` (the TypeScript subset), `RustScan` (brace
  and field scanners), `WebSocketFrames` (framing and masking of RFC 6455), `FrameRelay` (the validating relay),
  `WireFormats` (what both read and write, in bits and numbers), `PngChunks` (PNG Specification, Third Edition,
  section 5.3) and `ShellQuoting` (sections 2.2.1 and 2.2.2 of the POSIX Shell Command Language).
- **Concurrent fixtures as step machines.** `InterruptedProvider`, `McpStreams` and `TrackedServer` hold the state and
  its atomic sections; `InterruptedRuns`, `InterruptedAnswers`, `McpStreamRuns`, `McpStreamEffects` and the second
  half of `TrackedServer` prove what holds in every run: any requests arrive at any time, threads take their sections
  in any order, any wait may time out and any write may fail. `InterruptedProgress`, `McpStreamProgress` and the end
  of `TrackedServer` prove what does come about: a released root is answered, queued outputs are sent, `stop` reports.
  In these modules a class carries the source's fields, each section of the source is a method on it, and each method
  is proved to do what one step of the machine does. In the provider and the streams a thread's place in its code is a
  phase, and every method keeps the part of the invariant that speaks of the object alone.
- **The coordinated release.** `Release` validates every declaration, stages the packages and then changes the
  checkout; its lemmas range over every sequence of requests. `VersionPattern` has the version pattern on text, and
  `ReleaseText` the edits as they fall on text.

A dict is a list of members in insertion order. An exception is `Failure`, without its kind. A locked section
of the source is one step; an event flag is read or set in one step; a wait is a step that is possible once its event
is set, or a step that times out.

Results that qualify what the source or its documentation suggests:

- `pointer` strips every leading slash, so a pointer whose first key is empty and which has a second key is read as
  another pointer: `KeysOfRendered` states exactly when reading gives back what was written.
- `request_methods` and `input_paths` agree on a schema, for all plain definitions and targets, exactly when every name
  that the schema's own tree refers to is also referred to from a place the path search descends to:
  `SearchesAgreeExactly`. A name that is not is seen by the first and missed by the second,
  `HiddenReferenceIsMissed`, as one beside `properties` is, `HiddenBesideProperties`.
- `frame` writes opcodes of sixteen and more and payloads over the limit that `read_frame` does not read back:
  `FrameReadsBack` states exactly when it does.
- `field_type` counts `>` of an arrow as a closing bracket: a field ends at the comma after its type exactly when the
  type has no arrow at any depth, `FieldEndsAfterType`, and with one no field ends there, `ArrowHidesTheComma`.
- `prepare` replaces only sibling requirements that stand at the old version: `AcceptedCoordinates` states exactly
  when an accepted request leaves the whole checkout on one version.
- Correction keeps which objects satisfy a branch, whatever the property schemas mean, exactly when no name of the
  branch becomes the same as another name: `MeaningIsKeptExactly`, and `CollisionChangesMeaning` gives the object.
- Correcting twice equals correcting once exactly when every branch keeps a tag whose renames touch none of its new
  names: `CorrectedTwiceExactly`. That no new name is renamed again is not enough: `RetaggedDocumentChanges`.
- `sample` leaves out a required name that is not declared. When the other schemas it visits meet the condition, its
  value for an object schema of the fragment validates exactly when each required name of that schema is declared or is
  certain to come from a merged alternative: `SampleValidatesExactly`. Without combinators, in the fragment or not, the
  value of a schema with an undeclared required name never validates: `UndeclaredIsOmitted`.
- A manifest that was prepared for a version is accepted for it again, and then kept to the last character, exactly
  when its requirement at that version was not there a second time: `RepeatOnText`.
- The order of the provider's responses rests on its client: `EarlyOutputsBreakOrder`.

## Model

| member | source | states |
|---|---|---|
| `WorklistSearch.SeenReferences` | scripts/codex/generate_input_semantics.py:295-305 | The inner worklist ends on any document, cyclic or not; it raises exactly when some reachable node has a reference that is not text or not defined, and otherwise `seen` is exactly the set of definitions referred to from nodes reachable by "child of" and "refers to" |
| `WorklistSearch.SearchShrinks` | scripts/codex/generate_input_semantics.py:296-305 | Each turn of the worklist leaves fewer unseen definitions, or as many and a smaller pending list |
| `WorklistSearch.SearchingStep` | scripts/codex/generate_input_semantics.py:297-305 | Each turn keeps: everything found is reachable, every seen name is referred to and its definition found, everything taken off the list has its children and definition found |
| `WorklistSearch.SearchingEnds` | scripts/codex/generate_input_semantics.py:296-306 | With nothing pending, seen is the least set closed under both relations |
| `WorklistSearch.RequestMethods` | scripts/codex/generate_input_semantics.py:292-308 | The result is ascending and holds, with multiplicity, the methods of exactly those branches whose params reach a reference to the definition |
| `SchemaGraph.FullEdgeIs` | scripts/codex/generate_input_semantics.py:297-305 | The relation that reachability is about leads from a dict to its values, from a list to its items, and from a dict with a text `$ref` to the definition named in it, with or without the prefix |
| `SchemaGraph.NamedProperlyIs` | scripts/codex/generate_input_semantics.py:299-303 | The search raises at a node exactly when its `$ref` is no text or the name in it is not defined |
| `PathSearch.PathsAreRoutes` | scripts/codex/generate_input_semantics.py:1061-1081 | Every returned path is the property path of a genuine route to a reference to the target that enters no definition twice and none already seen |
| `PathSearch.RoutesAreReturned` | scripts/codex/generate_input_semantics.py:1061-1081 | Every such route's path is returned |
| `PathSearch.CutCycles` | scripts/codex/generate_input_semantics.py:1067-1070 | Any route, however often it repeats definitions, shortens to one that enters none twice |
| `PathSearch.FollowingShrinks` | scripts/codex/generate_input_semantics.py:1067-1070 | Entering a definition leaves fewer spellings of defined names unseen, so the search ends on cyclic documents |
| `PathSearch.InputPathsExact` | scripts/codex/generate_input_semantics.py:1061-1081 | The returned paths are exactly the property paths of cycle-free routes, and there are none only when there is no route at all, repeating or not |
| `InputRoutes.InputPathsAreRoutes` | scripts/codex/generate_input_semantics.py:1061-1081 | For both copies of the search and every document: it raises exactly when a route that enters no definition twice comes to a node with an unusable reference or `properties`; otherwise it returns, in document order and once per route, the property names and "[]" along exactly the routes to the target that enter no definition twice. Routes are stated on `properties`, `items`, members and items of the document |
| `InputRoutes.PathsInOrder` | scripts/codex/generate_input_semantics.py:930-948 | The list behind it: every such route once, sorted by the places where routes part |
| `InputRoutes.FailureIsStuck` | scripts/codex/generate_input_semantics.py:1061-1081 | A raise comes from such a node |
| `SearchAgreement.PlainNeverFails` | scripts/codex/generate_input_semantics.py:930-948 | On a document whose references are defined and stand where the search looks, the path search raises nowhere |
| `SearchAgreement.WalkIsTrail` | scripts/codex/generate_input_semantics.py:1214-1234 | On such a document every walk of the full reference graph that ends at a reference to the target shows a route of the path search |
| `SearchAgreement.TrailIsWalk` | scripts/codex/generate_input_semantics.py:1061-1081 | On any document a route of the path search is a walk of the full graph, unless it crosses a reference that is the bare prefix |
| `SearchAgreement.SearchesAgree` | scripts/codex/generate_input_semantics.py:292-308 | On such a document the path search succeeds and returns at least one path exactly when the worklist sees the target |
| `SearchAgreement.DocumentSearchesAgree` | scripts/codex/generate_input_semantics.py:292-308 | A method is reported exactly when its branch has an input path to the definition |
| `SearchExactness.SearchesAgreeExactly` | scripts/codex/generate_input_semantics.py:1061-1081 | For every schema: the path search has a route to a target exactly when the worklist sees the target, for all plain definitions and all targets, if and only if every name that the schema's tree refers to has a route within the tree |
| `SearchExactness.InViewPathsAgree` | scripts/codex/generate_input_semantics.py:292-308 | On such a schema, plain or not, the path search returns a path, if it does not raise, exactly when the worklist sees the target |
| `SearchExactness.LeavesTree` | scripts/codex/generate_input_semantics.py:296-305 | A walk to a reference stays in the schema's tree or leaves it at a reference to a definition that leads on to it |
| `SearchExactness.Redirected` | scripts/codex/generate_input_semantics.py:1061-1081 | A route within the tree to a definition goes on with any route from that definition |
| `SearchExactness.HiddenReferenceIsMissed` | scripts/codex/generate_input_semantics.py:1071-1073 | Any name without a route within the tree that refers to it is seen by the worklist and gets no path, among any definitions that do not lead to it themselves |
| `SearchExactness.HiddenBesideProperties` | scripts/codex/generate_input_semantics.py:1071-1073 | A reference beside `properties` is one: reported by the worklist, without a path |
| `JsonPointer.Pointer` | scripts/codex/generate_fixtures.py:14-19 | The loop follows the unescaped keys one after the other, by name in dicts and in lists by index as `int` reads it (spaces, sign, underscores, counted from the end when negative), and raises at the first that leads nowhere |
| `JsonPointer.IndexLeads` | scripts/codex/generate_fixtures.py:18-18 | In a list, index n leads to item n, index -n to the n-th item from the end, and an index beyond either end raises |
| `JsonPointer.EscapeRoundTrip` | scripts/codex/inventory.py:165-166 | For every name the two-step unescape undoes the two-step escape, and an escaped name holds no slash (sections 3 and 4 of RFC 6901) |
| `JsonPointer.EscapedFirst` | scripts/codex/inventory.py:165-166 | An escaped name has "~0" for each tilde, "~1" for each slash and every other character as it is (section 3 of RFC 6901) |
| `JsonPointer.KeysOfRendered` | scripts/codex/generate_fixtures.py:16-17 | Reading a written pointer gives back its keys if and only if there is at most one key or the first is not empty |
| `JsonPointer.RenderInjective` | scripts/codex/inventory.py:165-166 | Different key lists are written as different pointers |
| `SampleSchema.Sample` | scripts/codex/generate_fixtures.py:22-60 | The recursive generator with its comprehension, combinator loop and depth limit computes the specification function whose values the next rows speak of; keywords of a wrong type always raise in it |
| `SampleSchema.SampleOwn` | scripts/codex/generate_fixtures.py:46-47 | The comprehension over `required` |
| `SampleSchema.SampleKeyword` | scripts/codex/generate_fixtures.py:52-59 | The inner combinator loop, with its in-place updates and its early return |
| `SampleSchema.SampleMerged` | scripts/codex/generate_fixtures.py:48-59 | The three combinator loops merge like one loop over all choices taken in order |
| `SampleKeywords.TextIsLeast` | scripts/codex/generate_fixtures.py:40-41 | A text is "fixture" and letters x up to the length bound, and no longer |
| `SampleKeywords.NumberIsLeast` | scripts/codex/generate_fixtures.py:42-43 | A number is the least integer that is neither negative nor below the bound |
| `SampleKeywords.ArrayIsLeast` | scripts/codex/generate_fixtures.py:44-45 | An array has as many items as asked for, each the sample of `items` |
| `SampleKeywords.TypeListIs` | scripts/codex/generate_fixtures.py:33-37 | A list of types gives null if it is among them and otherwise what its first type gives |
| `SampleKeywords.VisitedAre` | scripts/codex/generate_fixtures.py:49-53 | The alternatives visited are the first of `oneOf`, the first of `anyOf` and all of `allOf`, in this order |
| `SampleKeywords.PlainIsTaken` | scripts/codex/generate_fixtures.py:57-59 | With nothing sampled before, a first alternative that is no dict is the result |
| `SampleKeywords.BareIsDict` | scripts/codex/generate_fixtures.py:60-60 | Without alternatives and required names the result is an empty dict if the type is "object" or properties are declared, and null otherwise |
| `SampleFragment.OwnMembersAre` | scripts/codex/generate_fixtures.py:46-47 | The comprehension holds exactly the required names that are declared, each once, with its own sample |
| `SampleFragment.MergeKeeps` | scripts/codex/generate_fixtures.py:48-59 | What the combinator loops leave in the result for a name, which no other choice has |
| `SampleFragment.SampleIsWellShaped` | scripts/codex/generate_fixtures.py:22-60 | A dict sample of a listed schema has each of its names once, and exactly the names that are certain |
| `SampleValidity.SampleIsValid` | scripts/codex/generate_fixtures.py:22-60 | At any depth, every object that agrees with the sample on the schema's own names validates: merging other choices in cannot break it |
| `SampleValidity.SampleValidates` | scripts/codex/generate_fixtures.py:22-60 | Whenever `sample` returns for a schema of the supported fragment, the value validates against it, through references, `required`, `minLength`, `minItems`, `minimum` and merged or chosen combinators; required names may come from merged alternatives alone |
| `SampleValidity.SampleValidatesExactly` | scripts/codex/generate_fixtures.py:43-60 | For an object schema of the fragment, with or without `properties`, the sample validates if and only if every required name is declared or certain to come from a merged alternative, the schemas below it meeting that condition |
| `SampleValidity.UncertainIsInvalid` | scripts/codex/generate_fixtures.py:43-60 | Without that condition the sample does not validate, whatever the schemas below it are like |
| `SampleExample.ExampleIsSupported` | scripts/codex/generate_fixtures.py:22-60 | The conditions of the fragment can be met together: a document with a required reference, a length bound and a required name that only a merged alternative gives |
| `SampleValidity.UndeclaredIsOmitted` | scripts/codex/generate_fixtures.py:46-47 | For an object schema without combinators, in the fragment or not, a required name that is not declared is left out and the value does not validate |
| `SupplementClosure.Supplement.EnsureReference` | scripts/codex/generate_supplement.py:131-142 | Ends on cyclic definitions; on success the name is defined, only names still on the call stack may lack references, and only names reachable from it were added; a failure means that a reachable name is missing, ambiguous or has a nonlocal reference |
| `SupplementClosure.Supplement.EnsureAll` | scripts/codex/generate_supplement.py:141-146 | The same for all references of one definition in turn |
| `SupplementClosure.Supplement.CloseStart` | scripts/codex/generate_supplement.py:144-146 | The loop over the starting types leaves a closed set of needed definitions, or meets a broken name that is needed |
| `SupplementClosure.Supplement.Close` | scripts/codex/generate_supplement.py:144-153 | The closing loop succeeds exactly when no name needed by the starting types or `RequestId` is missing, ambiguous or has a reference that is not local at any node; then exactly the needed names are defined, each as resolved, and every `$ref` at any node of any definition leads to a definition |
| `SupplementClosure.ReferencesExactly` | scripts/codex/generate_supplement.py:181-192 | `references` raises exactly when some node below a schema, through members and list items, is a dict whose `$ref` is no local text, and otherwise yields exactly the names that nodes below it refer to |
| `SupplementClosure.OfficialExactly` | scripts/codex/generate_supplement.py:131-139 | A name has an official definition exactly when a document that is no bundle defines it and all that do encode it alike, and it is the first document's |
| `SupplementClosure.Inserted` | scripts/codex/generate_supplement.py:140-142 | Inserting a name before following its references leaves only that name open besides those already open |
| `SupplementClosure.NeededIsDefined` | scripts/codex/generate_supplement.py:144-153 | A closed set of definitions that holds the starting names holds every reachable name |
| `TypeText.SplitUnion` | scripts/codex/generate_supplement.py:36-48 | The loop raises exactly on texts whose braces do not balance, and otherwise returns the stripped pieces of the next row |
| `TypeText.SplitIsExact` | scripts/codex/generate_supplement.py:36-48 | The pieces are the one list that joins with bars to the text and is cut exactly at the bars of brace depth zero |
| `TypeText.ChoicesAreShorter` | scripts/codex/generate_supplement.py:51-55 | Each choice of a union is shorter than the text, so `parse_type` ends on every text |
| `TypeRoundTrip.RoundTrip` | scripts/codex/generate_supplement.py:51-67 | `parse_type` undoes a printer for scalars, references, flat objects with distinct names and unions of two or more |
| `TypeRoundTrip.OnlySupportedIsAccepted` | scripts/codex/generate_supplement.py:51-67 | Every text it accepts has the schema of one of those types |
| `SchemaContracts.Inventory.AppendFields` | scripts/codex/inventory.py:197-209 | One contract for each property, by name order, with its escaped pointer and its schema; the columns derived from the schema and its stable counterpart are left out |
| `SchemaContracts.Inventory.AppendVariants` | scripts/codex/inventory.py:211-218 | One contract for each alternative of a keyword, with its index and its schema; the comparison with the stable schema is left out |
| `SchemaContracts.Inventory.Walk` | scripts/codex/inventory.py:194-234 | On a visited node whose `properties` is no dict or whose alternatives keyword cannot be enumerated the walk raises, and otherwise it appends the rows of the node and of everything below it; raises over an unusable `required`, a field's own alternatives and the stable counterpart are left out |
| `SchemaContracts.Inventory.WalkMembers` | scripts/codex/inventory.py:219-234 | The descent over the members of a node |
| `SchemaContracts.Inventory.WalkSteps` | scripts/codex/inventory.py:223-234 | The descent over one container or list |
| `SchemaContracts.RowsDistinct` | scripts/codex/inventory.py:194-234 | No two rows of a walk stand at the same keys |
| `ContractCoverage.CoverageIsExact` | scripts/codex/inventory.py:194-234 | A contract is written exactly for each property and each alternative of each dict that stands in the document, at its keys and with its schema; a dict stands below another through any member but the four ignored ones, by name in the four maps of schemas, as itself elsewhere, or as an item of a list |
| `ContractCoverage.ReadableIsExact` | scripts/codex/inventory.py:194-218 | The walk raises exactly when some dict that stands in the document has `properties` that are no dict or alternatives that cannot be enumerated |
| `ContractCoverage.FieldsAscend` | scripts/codex/inventory.py:197-218 | A dict's fields are written in the order of their names, before its alternatives |
| `ContractPointers.RowIsOfVisited` | scripts/codex/inventory.py:194-234 | Every contract is a field or an alternative of a node that the walk visits |
| `ContractPointers.VisitedHasRow` | scripts/codex/inventory.py:194-234 | Every row of a visited node is among the contracts, at that node's place |
| `ContractPointers.OwnRowsHold` | scripts/codex/inventory.py:197-218 | Every property and every alternative of a node has its row |
| `ContractPointers.OwnRowIs` | scripts/codex/inventory.py:197-218 | A node has no other rows: each is one of its properties, or one of its alternatives at its index |
| `ContractPointers.ContractResolves` | scripts/codex/inventory.py:187-236 | Every contract's pointer, read by `pointer`, leads back to that field or alternative, for every field name, as long as the keyword keys need no escaping and alternatives are lists |
| `ContractPointers.ContractPointersDistinct` | scripts/codex/inventory.py:187-236 | No two contracts have the same pointer |
| `OutputCorrections.Correct` | scripts/codex/generate_output_semantics.py:77-85 | The loop fails exactly when a branch has no usable tag or no `required`, and otherwise corrects every branch by the renames of its tag, none for a tag that is no text, and keeps their order |
| `OutputCorrections.CorrectedIs` | scripts/codex/generate_output_semantics.py:81-84 | In a branch with a tag each property stands, with its schema, under the name that the renames of that tag give it, unless a later one gets the same; no other name is there, and `required` is renamed in place |
| `OutputCorrections.MeaningIsKeptExactly` | scripts/codex/generate_output_semantics.py:77-85 | For any branch, renames and set of names that holds the branch's: correction keeps which objects over the names satisfy the branch, for every meaning of the property schemas, if and only if no name of the branch becomes the same as another of the names |
| `OutputCorrections.CorrectedPreservesMeaning` | scripts/codex/generate_output_semantics.py:77-85 | An object satisfies a branch exactly when its key-renamed form satisfies the corrected branch, when no name of the branch becomes the same as another name of object or branch; names that only the object has may collide |
| `OutputCorrections.FreshSeparates` | scripts/codex/generate_output_semantics.py:63-63 | Injective renames to names that are not in use meet that condition |
| `OutputCorrections.CorrectedUnionPreservesMeaning` | scripts/codex/generate_output_semantics.py:77-85 | A tagged object satisfies the same branches of the whole union before and after correction |
| `OutputCorrections.CollisionChangesMeaning` | scripts/codex/generate_output_semantics.py:83-83 | For every branch and every name of it that becomes the same as another name, some object that the branch rejects has a renamed form that the corrected branch accepts |
| `RepeatedCorrections.CorrectedTwiceExactly` | scripts/codex/generate_output_semantics.py:77-85 | For every document, correcting it again, by the tags that the first pass leaves, succeeds and changes nothing (the order of members included) if and only if every branch still has a tag whose renames rename none of its new names |
| `RepeatedCorrections.CorrectedTwice` | scripts/codex/generate_output_semantics.py:77-85 | That holds on every document when, for each tag, no new name is renamed again and `type` is neither renamed nor a new name |
| `RepeatedCorrections.RealtimeIsSteady` | scripts/codex/generate_output_semantics.py:130-130 | The renames of the realtime descriptor meet that condition |
| `RepeatedCorrections.RetaggedDocumentChanges` | scripts/codex/generate_output_semantics.py:82-83 | A document on which no new name is renamed again, but the first pass turns the tag into another, and the second pass differs |
| `RustScan.BodyEnd` | scripts/codex/generate_gates.py:29-47 | The loop over depth, quoting and escapes stops where the scan of the next row does |
| `RustScan.BodyEndIsExact` | scripts/codex/generate_gates.py:29-47 | The scan stops after `n` characters if and only if they are a body of nested braces, other text and string literals with escapes, followed by a closing brace; so it fails only when no body is closed |
| `RustScan.FieldType` | scripts/codex/generate_gates.py:18-26 | Returns the stripped text before the first comma at bracket depth zero, and fails only when there is none |
| `RustScan.FieldEndsAfterType` | scripts/codex/generate_gates.py:18-26 | A type with nested brackets, commas only inside them and arrows anywhere ends exactly at the comma that follows it, whatever comes after, if and only if it has no arrow at any depth |
| `RustScan.ArrowsUnbalance` | scripts/codex/generate_gates.py:22-23 | Each arrow at any depth takes one off the bracket depth after the type |
| `RustScan.ArrowHidesTheComma` | scripts/codex/generate_gates.py:22-24 | After any type with an arrow, nested or repeated, the comma that follows does not stand at depth zero |
| `WebSocketFrames.ReadFrame` | scripts/codex/auth_interaction_fixture.py:37-57 | Reads one frame off the stream, tells the end of the stream from a broken frame, and leaves what follows the frame |
| `WebSocketFrames.FrameIsWire` | scripts/codex/auth_interaction_fixture.py:28-34 | What `frame` writes is the unmasked encoding of sections 5.2 and 5.3 of RFC 6455 |
| `WebSocketFrames.ReadWire` | scripts/codex/auth_interaction_fixture.py:37-57 | Reading an encoded frame, masked with any key or not, gives its opcode and payload and leaves the rest |
| `WebSocketFrames.ReadAllWire` | scripts/codex/auth_interaction_fixture.py:37-57 | Reading the concatenation of any list of frames gives exactly that list and then the end of the stream |
| `WebSocketFrames.FrameReadsBack` | scripts/codex/auth_interaction_fixture.py:28-57 | A frame is read back if and only if its opcode is below sixteen and its payload at most 4194304 bytes |
| `WireFormats.ReadIsDecoding` | scripts/codex/auth_interaction_fixture.py:37-57 | `read_frame` finds a frame exactly when the stream starts with a final frame whose length, key and payload are as sections 5.2 and 5.3 of RFC 6455 lay them out, no frame exactly at the end of the stream, and breaks on everything else |
| `WireFormats.FrameIs` | scripts/codex/auth_interaction_fixture.py:28-34 | `frame` writes the opcode with the final bit, the shortest length, big-endian, and the payload, for opcodes below 128 and sizes within 64 bits |
| `WireFormats.StandardExample` | scripts/codex/auth_interaction_fixture.py:28-34 | It writes the unmasked text frame of section 5.7 of RFC 6455 |
| `WireFormats.MaskedBitwise` | scripts/codex/auth_interaction_fixture.py:55-56 | Each bit of a payload byte is added to that of the key byte at its index modulo four |
| `Bytes.MaskedTwice` | scripts/codex/auth_interaction_fixture.py:55-56 | Masking is its own inverse |
| `Bytes.UnpackPack` | scripts/codex/auth_interaction_fixture.py:33-34 | A big-endian length is read back |
| `FrameRelay.ReadRelayFrame` | scripts/codex/isolated_environment_skills_fixture.py:260-271 | Reads one frame that passes the FIN, reserved-bit, mask, opcode, size and control-frame checks (sections 5.2 and 5.5 of RFC 6455), or fails |
| `FrameRelay.FirstIsExact` | scripts/codex/isolated_environment_skills_fixture.py:260-271 | A stream starts with at most one frame that passes, and this reading finds exactly it |
| `WireFormats.PassesExactly` | scripts/codex/isolated_environment_skills_fixture.py:260-270 | What passes, in bits: final bit set, reserved bits clear, mask bit as the side demands, opcode 1, 2, 8, 9 or 10, at most 65536 bytes, and 125 for control frames |
| `FrameRelay.Frames` | scripts/codex/isolated_environment_skills_fixture.py:257-284 | What is forwarded is a byte-identical prefix of the input made of whole frames that passed every check, at most 96, none after a close frame, and the relay stops only for the reason it gives |
| `FrameRelay.RunIsDetermined` | scripts/codex/isolated_environment_skills_fixture.py:257-284 | The forwarded frames and the reason to stop follow from the input alone |
| `WireFormats.ForwardsOnly` | scripts/codex/isolated_environment_skills_fixture.py:257-284 | In every run at most 96 frames are forwarded, each with acceptable bits and size before the other side closed, texts and binaries admitted by the inspection of the unmasked payload, and only the last a close frame |
| `WireFormats.ForwardsAll` | scripts/codex/isolated_environment_skills_fixture.py:257-284 | The relay stops before a frame that it may forward only after a close frame or after 96 frames |
| `PngChunks.ParseIsExact` | scripts/codex/isolated_queue_image_fixture.py:36-45 | The loop ends and accepts exactly the encodings of lists of known chunks with correct checksums, with no byte left over |
| `PngChunks.AssertPng` | scripts/codex/isolated_queue_image_fixture.py:32-53 | Data is accepted if and only if it is the signature and the encoding of the three chunks of an image of these dimensions that decompresses to the expected pixels |
| `PngChunks.PixelsSize` | scripts/codex/isolated_queue_image_fixture.py:52-52 | The pixel buffer has (1 + 3 width) height bytes |
| `PngChunks.PixelAt` | scripts/codex/isolated_queue_image_fixture.py:52-52 | Each row starts with filter byte zero and each pixel has the samples 17, 34 and 51 |
| `PngChunks.EncodedParts` | scripts/codex/isolated_queue_image_fixture.py:38-45 | An encoded chunk is its length, kind, payload and the checksum of kind and payload; the last chunk of an image starts with the eight bytes of IEND |
| `PngChunks.ImageStarts` | scripts/codex/isolated_queue_image_fixture.py:32-53 | Accepted data is at most 4096 bytes and starts with the PNG signature, an IHDR chunk of 13 bytes with these dimensions, eight bits of RGB without interlacing, and an IDAT chunk |
| `ShellQuoting.CommandLineSplits` | scripts/codex/background_terminal_fixture.py:30-36 | For every list of arguments the shell splits the command line into `exec` and exactly that list |
| `InterruptedProvider.Provider.Admit` | scripts/codex/collaboration_interrupted_fixture.py:112-147 | `respond` up to its first unlock, with what is already written when a check or a save fails; the counts and signals stay consistent |
| `InterruptedProvider.Provider.Proceed` | scripts/codex/collaboration_interrupted_fixture.py:149-193 | The later sections of `respond`, and the error path of its caller; the counts and signals stay consistent |
| `InterruptedProvider.Provider.ContinueAfterInterrupt` | scripts/codex/collaboration_interrupted_fixture.py:195-201 | The control is recorded once, after child and root are ready and before closing, and the release comes last |
| `InterruptedRuns.StepKeeps` | scripts/codex/collaboration_interrupted_fixture.py:112-206 | Every step of every thread keeps the invariant on counts, signals and phases |
| `InterruptedRuns.RequestsAreBounded` | scripts/codex/collaboration_interrupted_fixture.py:119-131 | In every run root and child requests together never exceed the accepted requests, and those never exceed four |
| `InterruptedRuns.ChildIsNeverAnswered` | scripts/codex/collaboration_interrupted_fixture.py:149-154 | In every run the child gets no success response |
| `InterruptedRuns.ChecksAfterReleaseHold` | scripts/codex/collaboration_interrupted_fixture.py:163-169 | In every run the checks on `child_ready` and `controls` after the release wait cannot fail |
| `InterruptedRuns.NobodyStaysBlocked` | scripts/codex/collaboration_interrupted_fixture.py:203-206 | After `close`, whatever else runs, a handler that gets nine turns has ended |
| `InterruptedRuns.ResponsesArePrefix` | scripts/codex/collaboration_interrupted_fixture.py:179-183 | If no readable root request is admitted with the output of a call that was not answered, the recorded responses are always a prefix of spawn, close, final |
| `InterruptedAnswers.AnswersAreEntitled` | scripts/codex/collaboration_interrupted_fixture.py:129-170 | In every run an answer goes only to the first root thread and turn, with exactly the outputs of the calls before it, and the closing call only to a root whose spawned agent is the held child, of another thread and turn |
| `InterruptedRuns.EarlyOutputsBreakOrder` | scripts/codex/collaboration_interrupted_fixture.py:136-140 | A client that invents outputs can have the final answer recorded first |
| `InterruptedProgress.ReleasedRootIsAnswered` | scripts/codex/collaboration_interrupted_fixture.py:155-193 | In every run: once the control is recorded and has released, a held root that names the held child is answered with the closing call after eight turns in which its sections work, it does not time out and nobody closes, whatever else runs |
| `InterruptedProgress.NobodyFallsSilent` | scripts/codex/collaboration_interrupted_fixture.py:149-162 | In every run a handler ends without response and error only when the fixture is closing |
| `InterruptedProgress.ConversationCompletes` | scripts/codex/collaboration_interrupted_fixture.py:112-206 | For every root and every child of another thread and turn, the owned conversation has the answers spawn, close and final in order, one control, no error, and a child that ends silently |
| `InterruptedProgress.AdmissionWrites` | scripts/codex/collaboration_interrupted_fixture.py:112-147 | A request leaves a record exactly when it has the model, the effort, a marker, an identity and outputs and is one of the first four, also when a later check refuses it: the request, the counts, the held marks, and the child's and root's identity from the first of each alone; nothing else changes |
| `InterruptedProgress.RootFitsIs` | scripts/codex/collaboration_interrupted_fixture.py:136-144 | A root request passes exactly with the first root's identity and the outputs of the calls before its step, with an agent id and the interrupted status |
| `InterruptedProgress.MarkerIs` | scripts/codex/collaboration_interrupted_fixture.py:115-116 | The marker is the last of the texts that is one |
| `InterruptedProgress.ErrorsAreRefusals` | scripts/codex/collaboration_interrupted_fixture.py:82-85 | In every run as many errors are recorded as handlers ended refused |
| `McpStreams.ControlFixture.Open` | scripts/codex/isolated_mcp_control_fixture.py:446-455 | A number is used up, and a stream is registered and recorded under it unless the message has no id; the journal stays numbered |
| `McpStreams.ControlFixture.Proceed` | scripts/codex/isolated_mcp_control_fixture.py:456-502 | The sections of a stream's thread: the flags, the peer check, the queue, the write, the record, the close |
| `McpStreams.ControlFixture.Cancel` | scripts/codex/isolated_mcp_control_fixture.py:331-338 | Exactly the streams of the request are cancelled, every other stream is as before, and the journal grows by one row for each of them, in the order of opening |
| `McpStreams.ControlFixture.LastStale` | scripts/codex/isolated_mcp_control_fixture.py:805-808 | The last cancelled stream with a smaller number |
| `McpStreams.ControlFixture.Emit` | scripts/codex/isolated_mcp_control_fixture.py:783-814 | Without interference: the output with the id its kind asks for goes to the end of the queue of an open stream that holds fewer than sixteen; a late sentinel for a closed or cancelled stream is a row; anything else changes nothing |
| `McpStreamRuns.StepKeeps` | scripts/codex/isolated_mcp_control_fixture.py:446-502 | Every step of every thread keeps the invariant on journal, queues and phases |
| `McpStreamRuns.JournalIsNumbered` | scripts/codex/isolated_mcp_control_fixture.py:511-514 | In every run the journal is numbered 0 to n-1 across all threads |
| `McpStreamRuns.OpenedAtMostOnce` | scripts/codex/isolated_mcp_control_fixture.py:447-455 | In every run each stream number is opened at most once, in ascending order |
| `McpStreamRuns.SentIsPrefixOfQueued` | scripts/codex/isolated_mcp_control_fixture.py:483-494 | In every run the outputs recorded as sent are a prefix, in order, of the outputs queued for that stream |
| `McpStreamRuns.NothingSentAfterEnd` | scripts/codex/isolated_mcp_control_fixture.py:464-502 | In every run nothing is sent on a stream after its completion, its peer's loss, its closing or the fixture's closing is recorded |
| `McpStreamEffects.AtMostOneAfterCancel` | scripts/codex/isolated_mcp_control_fixture.py:464-495 | Once a stream is cancelled or the fixture is closing, at most one more output is sent on it, in any continuation |
| `McpStreamEffects.QueuedIsAddressed` | scripts/codex/isolated_mcp_control_fixture.py:791-814 | In every run a queued notification carries its stream's request id, but for the wrong, missing and late ones; a late one carries the id of a stream opened before and cancelled |
| `McpStreamProgress.QueuedIsSent` | scripts/codex/isolated_mcp_control_fixture.py:464-496 | In every run the outputs queued for a stream whose thread lives, up to a completion, are sent after enough turns of its thread in which its sections work and neither its request is cancelled nor the fixture closed, whatever else runs |
| `McpStreamProgress.RequestIsServed` | scripts/codex/isolated_mcp_control_fixture.py:446-496 | From every state of a run that takes requests: a request opens a stream, and the first emission to it, but a late one, is the first that it sends, with the request's id or the one its kind asks for, after ten such turns |
| `McpStreamProgress.OpenStaysOpen` | scripts/codex/isolated_mcp_control_fixture.py:464-486 | In every run a thread whose sections work goes on, also with nothing queued, until a completion is queued, its request is cancelled or the fixture is closed |
| `McpStreamProgress.StoppedStreamEnds` | scripts/codex/isolated_mcp_control_fixture.py:464-502 | In every run a thread whose stream is cancelled or whose fixture is closing ends in seven turns, with the stream marked closed and that recorded |
| `McpStreamProgress.CancelledStreamEnds` | scripts/codex/isolated_mcp_control_fixture.py:331-338 | From every state of a run: once the request is cancelled or the fixture closed, a thread in the loop of one of its streams ends in seven turns |
| `TrackedServer.Server.ProcessRequest` | scripts/codex/isolated_network_amendment_fixture.py:155-162 | A closing server registers nothing; otherwise connection and worker are registered together, and new ones keep the two counts equal |
| `TrackedServer.Server.Unregister` | scripts/codex/isolated_network_amendment_fixture.py:148-153 | A worker's `finally` takes both out, and registered ones keep the two counts equal |
| `TrackedServer.Server.BeginStop` | scripts/codex/isolated_network_amendment_fixture.py:168-170 | Closing is set and every registered connection is listed once |
| `TrackedServer.RegistriesCorrespond` | scripts/codex/isolated_network_amendment_fixture.py:145-162 | In every run the registered connections are exactly those of the registered workers, one each |
| `TrackedServer.ClosingEmpties` | scripts/codex/isolated_network_amendment_fixture.py:167-183 | After closing is set both registries only shrink, and both are empty once every worker registered then is gone |
| `TrackedServer.RegisteredAreShut` | scripts/codex/isolated_network_amendment_fixture.py:171-179 | When `stop` waits for the workers, every connection still registered has been shut |
| `TrackedServer.ReportIsExact` | scripts/codex/isolated_network_amendment_fixture.py:181-183 | The report counts as many workers as connections, and none exactly when every worker is gone and none failed to start |
| `TrackedServer.ConnectRegisters` | scripts/codex/isolated_network_amendment_fixture.py:155-162 | A new connection gets a registered serving worker, or is shut when the server is closing |
| `TrackedServer.WorkerLeaves` | scripts/codex/isolated_network_amendment_fixture.py:148-153 | A worker that ends its request takes itself and its connection out and nothing else |
| `TrackedServer.StopReports` | scripts/codex/isolated_network_amendment_fixture.py:167-183 | From any running state in which every worker started, `stop` shuts exactly the registered connections and reports how many workers and connections are left |
| `Release.VersionChanges` | scripts/release.py:46-82 | The new checkout is returned exactly when every declaration, asset and sibling requirement is consistent and the version does not go back; declarations are tokens here and text in `ReleaseText` |
| `Release.AcceptableExactly` | scripts/release.py:46-81 | Accepted are exactly the texts of versions that do not precede the one which the root declares twice, every application and asset once, and every sibling requirement in exactly one place |
| `Release.OnlyVersionsChange` | scripts/release.py:56-82 | An accepted request keeps names, inputs, other text, metadata and every requirement but the versions of local siblings |
| `Release.PrecedesIsOrder` | scripts/release.py:54-55 | Versions are totally ordered by major, minor and patch number |
| `Release.Workspace.Prepare` | scripts/release.py:85-110 | A request is accepted exactly when it is acceptable, no package lacks an input and the output is new; a rejected one changes nothing; an accepted one stages exactly the published packages, each once, with its inputs and its new manifest without the local sibling path, and then changes the checkout; writes do not fail |
| `Release.AcceptedCoordinates` | scripts/release.py:74-81 | An accepted request leaves manifests, assets and sibling requirements on one version if and only if every local sibling requirement was on the old or the new one |
| `Release.RunKeepsVersion` | scripts/release.py:85-110 | Over every sequence of requests, accepted or rejected, a coordinated checkout stays on one version, which never goes back |
| `Release.RepeatIsIdentity` | scripts/release.py:85-110 | Repeating an accepted version is the identity on the checkout, declaration by declaration |
| `Release.RepeatIsAcceptable` | scripts/release.py:46-82 | On a coordinated checkout an accepted version can be requested again |
| `VersionPattern.MatchIsExact` | scripts/release.py:28-28 | The pattern matches after a line start exactly where spaces, the key, a version without quotes, its end and a line end follow, and what it finds is the only such declaration |
| `VersionPattern.ScanIsExact` | scripts/release.py:58-62 | `finditer` finds matches one after the other from the left, such that every place where the pattern matches is in one of them, and `sub` puts the version into exactly these and keeps every other character |
| `VersionPattern.SubstitutedVersions` | scripts/release.py:58-62 | A second scan of the substituted text finds as many declarations as the first and only the new version, and substituting again falls on the same places |
| `ReleaseText.VersionsReplaced` | scripts/release.py:78-81 | Replacing the sibling's requirement anywhere in a text keeps what the version pattern finds, when no version found holds a brace |
| `ReleaseText.CountReplaced` | scripts/release.py:77-81 | After the replacement the new requirement stands as often as both stood before |
| `ReleaseText.OccurrencesAreReplaced` | scripts/release.py:77-81 | The count is how often the replacement puts the other text there |
| `ReleaseText.EditIsExact` | scripts/release.py:56-81 | A manifest is accepted exactly when the pattern stands at as many places as expected, all on the canonical version, and then the sibling's requirement stands at exactly one place; the result has the new version at these places, the new requirement at that one, and every other character |
| `ReleaseText.AssetIsEdited` | scripts/release.py:67-73 | A package.json on the canonical version gets the new one and keeps every other member in its place, one without a version keeps its text, any other is rejected, when what is written is read back |
| `ReleaseText.EditedVersions` | scripts/release.py:56-81 | After an accepted edit the text has the expected number of declarations, all on the new version |
| `ReleaseText.RepeatOnText` | scripts/release.py:56-81 | Asked for the prepared version again, a manifest keeps its text to the last character if its requirement at that version was not there beside the replaced one, and is rejected if it was |
| `ReleaseText.SameVersionKeepsText` | scripts/release.py:56-81 | Asked for the version that it is on, an accepted manifest keeps its text to the last character |
| `ReleaseText.RepeatKeepsAsset` | scripts/release.py:67-73 | A package.json that was rewritten for a version is accepted for it again and rewritten to the same text, when what was written is read back |
| `Release.VersionIsText` | scripts/release.py:36-39 | A text is read as a version exactly when it is that version's text: three numbers without leading zeros between dots |
| `Release.SamgitaAccepts` | scripts/release.py:17-27 | With the repository's packages, siblings and inputs, a coordinated checkout exists on every version, and it accepts every version that does not precede that one |
| `Release.StagedIsPublishable` | scripts/release.py:103-107 | A staged manifest keeps versions and requirements and has no local sibling path |

## Left out

- Values: a JSON number is a real, so 5 and 5.0 are equal, and True is not 1; a lone surrogate and other text details of JSON are not modelled.
- Exceptions: their kind and message are not kept.
- Characters: whitespace and word characters are the ASCII ones; the regular expressions of `parse_type` are modelled by what they match there.
- `input_paths` as three nested copies: one function with the target and whether it looks for `items` as parameters.
- `encode` of candidates in `ensure_reference`: an arbitrary function of the definition; candidates are ambiguous when it differs on them.
- The notifications stage of `generate` (scripts/codex/generate_supplement.py:164-177), the declaration reader and the document frame around the definitions.
- SchemaContracts.Inventory.AppendFields: of a row, its place, name and schema; `required`, `nullable`, the default, the stable comparison and the hash are not modelled, because no later stage of the walk reads them.
- SchemaContracts.Inventory.AppendVariants: the same; `matching_variant` and with it the experimental mark are not modelled.
- SchemaContracts.Inventory.Walk: does not raise over a `required` in which no name can be looked up, a field's own `oneOf` or `anyOf` that cannot be enumerated, or a stable counterpart of another shape, because those columns are not modelled.
- SampleSchema.Sample: a keyword value of the wrong type always raises, also where Python's duck typing would go on (a text as `required`, a dict as `enum`), and 9.0 counts as the integer 9.
- SampleValidity.SampleValidates: upper bounds, patterns and `additionalProperties` are outside the validated fragment, and `oneOf` is read as "at least one".
- OutputCorrections.Correct: a branch's `required`, when there, is a list of texts, and `properties` is a dict; for other shapes the source raises or goes on by duck typing.
- OutputCorrections.CorrectedPreservesMeaning: the property schemas are an arbitrary predicate on values, which correction does not look into.
- RepeatedCorrections.CorrectedTwiceExactly: two dicts count as equal when their members also have the same order, which Python's equality of dicts does not ask for.
- `native_contract`'s choice of descriptors, `applies` and the derivations of the renames from Rust and TypeScript.
- `frames`: the token search, JSON parsing and request validation are one yes-or-no answer for each frame; a deadline is an input that ends early.
- `assert_png`: the data URL, base64 and the digest; CRC-32 and zlib are arbitrary functions.
- `command`: the fixed arguments; only quoting and joining are modelled, and of the shell only its splitting of words.
- InterruptedProvider.Provider.Proceed: HTTP headers, event bodies and the size limits of a response are one write that may fail.
- McpStreams.ControlFixture.Emit: the constant parts of the notifications are left out, and the scan for a stale stream is one step; the other operations of `control` are rows that other threads record.
- McpStreams.ControlFixture.Cancel: under the lock, setting a flag and recording it is one step for all streams, because no other row can come between.
- TrackedServer.Server.BeginStop: joining with a deadline is a step that may give up; the serving thread itself only stops accepting.
- Release.VersionChanges: a manifest is its version declarations, its requirements and its other text, so what the version pattern matches and how often a requirement's text occurs are inputs; the same edits of one manifest on text are `ReleaseText.EditedManifest`.
- Release.RepeatIsIdentity: speaks of those declarations; `ReleaseText` has the law for the texts of a manifest and of a package.json, with the JSON codec as an input.
- Release.Workspace.Prepare: a copy or write that fails after the output directory is made, and with it a partly written output or checkout, is not modelled; a path exists when it is among an app's inputs.
- Configuration texts, credentials, hashes of pinned sources, subprocesses, namespaces, sockets, TLS and the native binary.
- `token_generation`, `release_channel`, `camel`, `unit_object_branches`, `StderrCapture` and the extraction of Rust declarations by regular expressions: short expressions or a model of the regular expression engine.
