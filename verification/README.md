# Verified model of the release and telemetry tooling

The repository's `scripts/` directory holds the tools that release DefenseClaw and generate its telemetry
code. Several of them rest on algorithms whose correctness cannot be read off one function. This project
models those algorithms in Dafny and proves what they promise, for every input, every run and every point
at which a process may be killed.

| module | models |
|---|---|
| `Digits`, `ExactDecimal`, `CanonicalNumber` | decimal arithmetic on digit strings, the JSON number grammar (section 6 of RFC 8259) and the shortest exact spelling |
| `JsonText`, `CanonicalRecord`, `RecordLaws`, `RecordTexts` | the deterministic record encoder, a reader for the texts it emits, its laws, and where each leaf stands in a text |
| `Balance`, `TestShards` | longest-first greedy sharding of Python and Go test files |
| `FixtureData`, `FixturePrograms`, `FixtureCompiler`, `FixtureReadBack` | the compiler from typed fixture data to expressions and an ordered prelude |
| `InstallHome` | the crash-recoverable install home |
| `TopologyOrder`, `AgentTree`, `AgentSpans` | graph, tree and interval checks on telemetry |
| `ReleaseReconcile`, `ReleaseListing` | bounded observation of a release that is being published |
| `ScalarRanges`, `ScalarRepertoire` | compaction, encoding and search of Unicode scalar ranges |
| `ReceiptRace` | the receipt check that runs while the gateway moves receipts |
| `Versions`, `Baselines`, `BaselineResolution` | the upgrade baseline pipeline |
| `VersionRadar` | semantic version precedence and test scheduling |
| `Outcomes`, `Sorting` | result types; Python's `sorted` and the facts about it |

Loops and stateful objects of the sources are methods and classes proved against functions or predicates;
the promises are lemmas about those. Whatever a script learns from outside (what a request answers, what a
file holds, when a process is killed, how long a gateway takes) is an arbitrary parameter: a function of the
request's number, a function of time, or a step budget. A number is a sign, a natural number and a power of
ten, never a rounded value.

Where the code does not meet an expectation, the code is modelled as it is, a lemma gives an input that
fails, and a further lemma says exactly when the expectation is met:

- `FixtureData.WrapperDoesNotRoundTrip` and `FixtureData.RoundTrip`: `_plain_expected` undoes `_value` exactly
  when no mapping has just the keys `$type` and `fields` with a mapping under `fields`.
- `VersionRadar.LeadingZeroClashes` and `VersionRadar.AntisymmetricIff`: comparing two versions both ways gives
  opposite signs exactly when their first difference is not one of leading zeros.
- `RecordLaws.FloatDoesNotSettle` and `RecordLaws.ReencodingSettles`: encoding an emitted record again reproduces
  it exactly when every number of the record is settled, a condition on its kind, its spelling and its place;
  `RecordLaws.NativeFixedPoint` shows that records of native numbers meet it.
- `Baselines.SelectorsDisagree`, `Baselines.SelectorsDisagreeOnNewer` and `Baselines.SelectorsAgree`: the lane
  check accepts what the baseline selector makes of a policy exactly when all versions of the policy are older
  than the target and three config versions are as they should be; otherwise it rejects every list. The bridge
  is the release that the selector names, 0.8.4.

## Model

| member | source | states |
|---|---|---|
| Digits.CompareIsOrder | scripts/telemetry_canonical_record.py:37-40 | comparing canonical digit strings by length and characters is comparing the numbers, at any length |
| Digits.UnsignedAdd | scripts/telemetry_canonical_record.py:43-58 | the carry loop adds exactly at any length and keeps canonical inputs canonical |
| Digits.UnsignedSubtract | scripts/telemetry_canonical_record.py:61-78 | the borrow loop and the stripping give the canonical text of the difference, for canonical inputs with left >= right as the docstring demands |
| CanonicalNumber.SignedAddSmall | scripts/telemetry_canonical_record.py:91-106 | the sign and magnitude addition is integer addition |
| CanonicalNumber.SignedBoundedIntIsInt | scripts/telemetry_canonical_record.py:114-120 | the bounded conversion gives the integer exactly when its magnitude is within the bound |
| ExactDecimal.SameValueIffReduced | scripts/telemetry_canonical_record.py:129-178 | two exact decimals are the same number exactly when mantissa and exponent without trailing zeros agree; the reference for equality of values |
| ExactDecimal.ScanDecides | scripts/telemetry_canonical_record.py:33 | the scanner accepts exactly the texts of the JSON number grammar |
| ExactDecimal.ScanComplete | scripts/telemetry_canonical_record.py:33 | every token is recovered from its text, so a text has one reading |
| CanonicalNumber.NormalizeExactDecimal | scripts/telemetry_canonical_record.py:129-178 | the step by step computation on digit strings gives the spelling that is specified from the exact value alone |
| CanonicalNumber.AcceptsExactly | scripts/telemetry_canonical_record.py:132-135 | accepted are exactly the JSON numbers within the size bound |
| CanonicalNumber.OutputForm | scripts/telemetry_canonical_record.py:157-178 | an output is `0`, or an optional minus, digits with at most one inner point and no idle zeros, and at most one exponent `e` without a plus sign |
| CanonicalNumber.PreservesValue | scripts/telemetry_canonical_record.py:129-178 | the output is a JSON number and denotes exactly the number of the input |
| CanonicalNumber.SameTextIffSameValue | scripts/telemetry_canonical_record.py:129-178 | two accepted inputs get the same text exactly when they are numerically equal, however they are spelled |
| CanonicalNumber.NormalizedTwice | scripts/telemetry_canonical_record.py:129-178 | normalising an output changes nothing, or fails exactly because the output exceeds the size bound |
| CanonicalNumber.ShortestSpelling | scripts/telemetry_canonical_record.py:157-177 | the output is no longer than any in-bound plain spelling of the number and any spelling with one nonzero digit before the point; ties go to plain |
| CanonicalNumber.ShortStaysShort | scripts/telemetry_canonical_record.py:157-178 | an output is at most twice as long as its input plus six characters |
| JsonText.PrintThenRead | scripts/telemetry_canonical_record.py:197-222 | reading a printed JSON structure gives the structure back, so the emitted text determines it |
| JsonText.EscapedIsShortest | scripts/telemetry_canonical_record.py:203 | what is emitted for a string is the one shortest text between quotation marks that reads as that string, so no character is spelled longer than it must be |
| JsonText.PlainStandsForItself | scripts/telemetry_canonical_record.py:203 | a character from space on that is neither a quotation mark nor a backslash, non-ASCII ones included, is emitted as itself |
| JsonText.NamedEscapes | scripts/telemetry_canonical_record.py:203 | which code point each of the two-character escapes stands for |
| CanonicalRecord.Utf8KeepsOrder | scripts/telemetry_canonical_record.py:212 | sorting keys by their UTF-8 bytes sorts them by code points |
| RecordLaws.EncodeAccepts | scripts/telemetry_canonical_record.py:197-222 | a value is accepted exactly when all its strings, keys and numbers are, with the number rule chosen by the value roots above each number |
| RecordLaws.EncodeIsPrint | scripts/telemetry_canonical_record.py:197-222 | the encoder emits the printed form of a structure with sorted keys and decided number texts; its strings are the shortest spellings of `JsonText.EscapedIsShortest` and its leaves stand where `RecordTexts.EveryLeafShows` says |
| RecordTexts.EveryLeafShows | scripts/telemetry_canonical_record.py:197-222 | every leaf of a record stands in the structure under the keys and indices that lead to it, a number with the text decided by whether a key `body` or `instrument_data` is on its way |
| RecordTexts.MembersInOrder | scripts/telemetry_canonical_record.py:208-222 | a mapping is emitted with one member for each key, in the order of the keys |
| RecordTexts.NumberAccepted | scripts/telemetry_canonical_record.py:181-206 | which numbers are accepted at a place: outside the value roots any integer and any finite float or decimal that is a JSON number; below them those within the size bound |
| RecordTexts.Punctuation | scripts/telemetry_canonical_record.py:207-222 | an empty list, an empty mapping and one of each with a member are emitted with brackets, braces, comma and colon and no space |
| RecordLaws.NumberTextDecides | scripts/telemetry_canonical_record.py:181-206 | two accepted numbers get the same text exactly when they are equal: in value below the value roots, in value and spelling elsewhere |
| RecordLaws.TreeDecides | scripts/telemetry_canonical_record.py:197-222 | two accepted values get the same structure exactly when they are the same value, members in any order, at every depth |
| RecordLaws.EncodingDistinguishes | scripts/telemetry_canonical_record.py:225-230 | two accepted records get the same text exactly when they are the same record: insertion order never shows and no two different records collide |
| RecordLaws.ReencodingSettles | scripts/telemetry_canonical_record.py:233-247 | parsing an emitted record and encoding it again gives the same text exactly when every number of the record is settled: outside the value roots an integer, or a float or decimal already spelled canonically; with a canonical spelling within the size bound, or that of an integer where integers are left alone |
| RecordLaws.SettledNumberText | scripts/telemetry_canonical_record.py:197-206 | that condition on a number of the record decides whether the text emitted for it survives |
| RecordLaws.FloatDoesNotSettle | scripts/telemetry_canonical_record.py:204-206 | the record `{"x":1.0}` with a float outside the value roots is emitted as it is and re-encoded as `{"x":1}` |
| RecordLaws.NativeFixedPoint | scripts/telemetry_canonical_record.py:225-247 | records of native numbers with integers outside the value roots are fixed points of parse then print |
| Balance.LoadsAddUp | scripts/python_test_shards.py:72-78 | the shard weights together are the total size |
| Balance.GreedyBalanced | scripts/python_test_shards.py:75-78 | two weights never differ by more than the largest file placed so far |
| Balance.AverageBound | scripts/python_test_shards.py:72-78 | m times a weight is at most the total plus (m - 1) times the largest file |
| Balance.GrahamBound | scripts/python_test_shards.py:72-78 | longest first: 3m times a weight is at most (4m - 1) times the heaviest weight of any other placement |
| TestShards.PartitionTestFiles | scripts/python_test_shards.py:64-83 | the loop over buckets and weights gives the shards of the greedy placement, which `TestShards.ShardsAreDealt` describes, or the two errors |
| TestShards.ShardsAreDealt | scripts/python_test_shards.py:72-83 | the files are put in the order largest first and equal sizes by path, and each in turn goes to the shard that is lightest so far, of several the first |
| TestShards.EveryFileOnce | scripts/python_test_shards.py:72-83 | every file is in exactly one shard, exactly as often as it was given |
| TestShards.WeightsAreSizes | scripts/python_test_shards.py:78-83 | each weight is the total size of its shard, whose files are in path order |
| TestShards.BalancedAllAlong | scripts/python_test_shards.py:75-78 | after every placement any two weights differ by at most the largest file |
| TestShards.NoShardEmpty | scripts/python_test_shards.py:69-78 | with at least m files, no shard is empty exactly when at least m - 1 files have positive size |
| TestShards.OrderDoesNotShow | scripts/python_test_shards.py:74 | the shards do not depend on the order in which the files were found |
| TestShards.PartitionIsPlacement | scripts/python_test_shards.py:72-78 | any partition of the files is a placement with the same weights, so the bounds speak about all partitions |
| TestShards.ShardsNearOptimal | scripts/python_test_shards.py:72-83 | 3m times a shard weight is at most (4m - 1) times the heaviest part of any partition of the files into m parts |
| TestShards.ShardsNearAverage | scripts/python_test_shards.py:72-83 | m times a shard weight is at most the total size plus (m - 1) times the largest file |
| TestShards.PartitionGoTestFiles | scripts/go_test_shards.py:27-46 | the Go loop gives the sorted test names of the greedy placement, which `TestShards.GoShardsAreDealt` describes, or the two errors |
| TestShards.GoShardsAreDealt | scripts/go_test_shards.py:34-46 | the Go files are ordered and dealt likewise, and each shard lists the test names of its files in ascending order |
| Sorting.TextLeqMeans | scripts/python_test_shards.py:74 | the order of texts: the first differing character decides, and a beginning comes before what it begins |
| TestShards.EveryTestOnce | scripts/go_test_shards.py:34-46 | every declared test name is in exactly one shard, as often as it is declared |
| TestShards.NoGoShardEmpty | scripts/go_test_shards.py:18-46 | with at least m files that all declare tests, no Go shard is empty exactly when at least m - 1 files have positive size |
| TestShards.GoOrderDoesNotShow | scripts/go_test_shards.py:36 | the Go shards do not depend on the order in which the files were found, as long as no file is given with two lists of tests |
| TestShards.SamePlacement | scripts/go_test_shards.py:36-43 | both scripts place the same files alike, so the weights and bounds carry over to the Go shards |
| FixtureData.ValueTree | scripts/telemetry_go_fixture_plan.py:392-424 | a data tree is built exactly when every visited leaf is supported and depth and node bounds hold; it is the tree of the value and the shared counter drops by its number of nodes |
| FixtureData.WholeValue | scripts/telemetry_go_fixture_plan.py:392-424 | a whole value may have 64 levels and 131072 nodes, and a leaf is taken exactly when it is null or a finite scalar |
| FixtureData.FieldsInOrder | scripts/telemetry_go_fixture_plan.py:404-412 | the tree of a mapping has one field for each member, with the tree of that member, in the order of the names |
| FixtureData.ReadBack | scripts/telemetry_go_fixture_plan.py:443-461 | what is read back from a tree is the value with every typed-data wrapper replaced by its fields |
| FixtureData.UnwrappedSmaller | scripts/telemetry_go_fixture_plan.py:342-347 | replacing wrappers never adds nodes, and loses nodes exactly when there is a wrapper |
| FixtureData.RoundTrip | scripts/telemetry_go_fixture_plan.py:392-461 | reading the tree of a value gives the value back exactly when no mapping in it looks like a wrapper |
| FixtureData.WrapperDoesNotRoundTrip | scripts/telemetry_go_fixture_plan.py:343-344 | a mapping with the keys $type and fields comes back without its type |
| FixtureCompiler.InputCompiler.BindConstructor | scripts/telemetry_go_fixture_plan.py:596-616 | a valid constructor adds one statement with two fresh numbered names and yields a symbol for its value, which is one more value made by the prelude; an invalid one adds nothing |
| FixtureCompiler.InputCompiler.Typed | scripts/telemetry_go_fixture_plan.py:618-666 | compiling succeeds exactly when the value has a meaning at the type; run after the grown prelude the expression evaluates to that meaning without a call of its own, and the prelude has grown by just the constructor calls of the meaning, in order, under numbered member names |
| FixtureCompiler.InputCompiler.StructuredValue | scripts/telemetry_go_fixture_plan.py:668-749 | the same for arrays and objects, whose declared fields come in order and then the remaining members as entries, as `FixtureReadBack.ObjectInOrder` states |
| FixtureCompiler.InputCompiler.Entry | scripts/telemetry_go_fixture_plan.py:735-745 | a dynamic member compiles its name and its value and binds one constructor call on both |
| FixtureCompiler.InputCompiler.ComponentInput | scripts/telemetry_go_fixture_plan.py:891-936 | a component input is the composite of its fields, each from a condition fact, a common key or an attribute |
| FixtureCompiler.InputCompiler.Components | scripts/telemetry_go_fixture_plan.py:938-1007 | events and links compile to the slice of their constructor calls, or fail as a whole; the prelude grows by the calls made, each component under its own prefix |
| FixturePrograms.NamesDiffer | scripts/telemetry_go_fixture_plan.py:610-613 | names of different statements differ and so do the two names of one statement |
| FixturePrograms.FreshNames | scripts/telemetry_go_fixture_plan.py:610-615 | the next numbered names are never bound already |
| FixturePrograms.StaysCompiled | scripts/telemetry_go_fixture_plan.py:615-616 | later statements never change what an expression evaluates to |
| FixturePrograms.EveryNameBoundOnce | scripts/telemetry_go_fixture_plan.py:596-616 | every name that a statement of the prelude uses is bound exactly once, by an earlier statement |
| FixturePrograms.ResultNameBoundOnce | scripts/telemetry_go_fixture_plan.py:596-749 | every name that a finished expression uses is bound exactly once, by a statement of its prelude |
| FixtureReadBack.MeaningKeepsData | scripts/telemetry_go_fixture_plan.py:618-749 | through any nesting, reading a meaning back by its type gives the source: the same scalars except widened integers, the same items, the same members except nulls of optional fields; a typed-data wrapper comes back as its fields |
| FixtureReadBack.MembersOnce | scripts/telemetry_go_fixture_plan.py:694-747 | each source member is compiled by exactly one declared field or as exactly one entry |
| FixtureReadBack.ObjectInOrder | scripts/telemetry_go_fixture_plan.py:690-749 | a compiled object has its declared fields in their order and then the entries of exactly the members no field declares, in ascending order of their names, each made by the one member constructor from name and value |
| FixtureReadBack.ObjectIff | scripts/telemetry_go_fixture_plan.py:690-749 | which mappings have a meaning as an object: every declared member has one or is missing and optional, and members that no field declares can be made into entries |
| FixtureReadBack.MeaningIff | scripts/telemetry_go_fixture_plan.py:618-666 | which values have a meaning at a builtin type, a named scalar, an optional or a list type |
| FixtureReadBack.MeaningHasType | scripts/telemetry_go_fixture_plan.py:618-666 | what a value means at a type is a Go value of that type |
| FixtureReadBack.FixtureKeepsData | scripts/telemetry_go_fixture_plan.py:618-749 | what is compiled, evaluated after its prelude and read back by its type, is the source data in that sense, a typed-data wrapper being its fields |
| FixtureReadBack.ComponentKeepsData | scripts/telemetry_go_fixture_plan.py:891-1007 | an event or link is its registered constructor applied to an input whose every field gives back its source |
| FixtureReadBack.ComponentsInOrder | scripts/telemetry_go_fixture_plan.py:938-1007 | compiled components come in the order of the items |
| FixtureReadBack.EventSources | scripts/telemetry_go_fixture_plan.py:891-936 | which condition fact, member or attribute each field of an event input is taken from, and when it is null or missing |
| FixtureReadBack.LinkSources | scripts/telemetry_go_fixture_plan.py:891-936 | the same for a link input |
| FixtureReadBack.EventRegistered | scripts/telemetry_go_fixture_plan.py:953-964 | an event is compiled with the input and the constructor of the source registered under its name, and fails exactly without one |
| FixtureReadBack.LinkRegistered | scripts/telemetry_go_fixture_plan.py:984-1005 | a link is found by its relation, or else by its relation attribute |
| InstallHome.Workspace.RemoveOwnedTree | scripts/e2e-source-install.py:128-154 | contents go first, then the still marked tree leaves its name; a success removes just the path and leaves no private name behind; it fails exactly at undeletable contents, wherever it is killed the name is gone or still marked and at most one private name is left, and a removal takes one step for each child, one for each piece of it, and three more |
| InstallHome.Workspace.BuildStaging | scripts/e2e-source-install.py:157-170 | the staging name appears in one step with nothing but the marker, the rest as before, or not at all |
| InstallHome.ChildStepsSplit | scripts/e2e-source-install.py:128-154 | the steps that empty a tree do not depend on the order in which its children go |
| InstallHome.Workspace.Retire | scripts/e2e-source-install.py:173-180 | the home is either still intact or gone with its tree under the tombstone, never under both names; a success removes just the home |
| InstallHome.Workspace.Prepare | scripts/e2e-source-install.py:183-208 | refused exactly on an unmarked or inconsistent state or a tombstone, changing nothing; consistent at every crash point; the home is always the old tree intact, absent once its replacement is staged, or the fresh tree; a success is the old state without staging and with the fresh home, and only a killed run leaves a private name |
| InstallHome.Workspace.Cleanup | scripts/e2e-source-install.py:211-231 | refused likewise, changing nothing; consistent at every crash point; the home is intact or absent, and absent only with staging gone; a success is the old state without home and staging |
| InstallHome.Workspace.AuthorizeCleanup | scripts/e2e-source-install.py:240-258 | refused exactly on an inconsistent state, changing nothing; otherwise the tombstone, if any, is the home again in one step |
| InstallHome.Workspace.Session | scripts/e2e-source-install.py:183-258 | any sequence of commands killed after any number of steps, with jobs in between, keeps the state consistent, touches no other path and leaves nothing but empty directories under private names |
| InstallHome.Workspace.RecoverAndPrepare | scripts/e2e-source-install.py:183-258 | from every consistent state, authorizing and preparing with enough steps ends with a marker-only home and nothing else, exactly when nothing is undeletable; the steps that are enough are counted |
| InstallHome.Workspace.RecoverAndCleanUp | scripts/e2e-source-install.py:211-258 | from every consistent state, authorizing and cleaning up with enough steps ends with none of the three names, exactly when nothing is undeletable; the steps that are enough are counted |
| TopologyOrder.BuildGraph | scripts/check_grafana_dashboards.py:2635-2641 | the adjacency is the graph induced on the named nodes, duplicate edges counted once, and each indegree is the number of predecessors |
| TopologyOrder.Settle | scripts/check_grafana_dashboards.py:2647-2650 | after a visit each indegree is the number of unvisited predecessors and the ready list holds exactly the unvisited nodes without any |
| TopologyOrder.VisitAll | scripts/check_grafana_dashboards.py:2642-2650 | nodes are visited once each, after all their predecessors, until every unvisited node has an unvisited predecessor |
| TopologyOrder.FindsCycle | scripts/check_grafana_dashboards.py:2632-2652 | the error is reported exactly when observed edges lead from a named node over named nodes back to it, a self-loop included |
| TopologyOrder.SelfLoopIsCycle | scripts/check_grafana_dashboards.py:2635-2641 | an observed edge from a named node to itself is a cycle |
| TopologyOrder.CycleIffLeftOver | scripts/check_grafana_dashboards.py:2651 | the visited count falls short exactly when there is a cycle: a left-over set contains one, and a cycle cannot be visited in order |
| TopologyOrder.EdgesAsSet | scripts/check_grafana_dashboards.py:2637-2641 | neither the order of the observed edges nor repetitions matter |
| AgentTree.AgentIdentities | scripts/check_grafana_dashboards.py:1462-1530 | errors are empty exactly when the records tell one tree: complete, never contradicting each other, one root, and every other record one level below its parent; each error reported is there for its own reason and no reason goes unreported |
| AgentTree.ToldIff | scripts/check_grafana_dashboards.py:1462-1530 | the records tell one tree exactly when they agree with the agents registered and these satisfy the local tree conditions |
| AgentTree.LocalTreeIff | scripts/check_grafana_dashboards.py:1503-1529 | the checks as they are made amount to the local conditions: one root, and every other agent one level below a known parent |
| AgentTree.OneRootedTree | scripts/check_grafana_dashboards.py:1503-1526 | the local conditions make one rooted tree: every parent chain reaches the root in as many steps as the stored depth says and never returns to an agent |
| AgentTree.CleanReport | scripts/check_grafana_dashboards.py:1462-1530 | a report without errors means one tree, at least three levels deep, described alike by every record |
| AgentSpans.Topology | scripts/check_grafana_dashboards.py:2080-2176 | the first trace in which one span per agent, model call, tool call, turn and approval hang together is chosen; none is chosen exactly when no trace fits |
| AgentSpans.ChosenIff | scripts/check_grafana_dashboards.py:2098-2176 | what is chosen in a trace is exactly: the one invocation of every agent, hanging together as the agents do, the one model, tool and turn-end span of every agent that is asked for, and the one golden approval below the approved tool |
| AgentSpans.TracesInOrder | scripts/check_grafana_dashboards.py:2096-2099 | every trace is tried once, in the order in which the traces begin |
| AgentSpans.ChosenIsConnected | scripts/check_grafana_dashboards.py:2113-2167 | in a chosen trace each invocation is a child of its parent agent's invocation, each model and tool span of its agent's, and the approval of its tool span |
| AgentSpans.ListedAre | scripts/check_grafana_dashboards.py:2168-2176 | the spans checked are all the chosen ones, each as often as it is chosen |
| AgentSpans.SpanErrors | scripts/check_grafana_dashboards.py:2215-2237 | errors are empty exactly when ids are present and unique, bounds are valid and every span lies inside its listed parent; each of the three errors is reported for exactly the spans that have it |
| AgentSpans.AllWithinRoot | scripts/check_grafana_dashboards.py:2113-2237 | with clean identities and a clean trace, every invocation, model, tool and approval span lies inside the root invocation's interval |
| AgentSpans.TraceErrors | scripts/check_grafana_dashboards.py:2179-2237 | a report is about the first fitting trace, whose spans hang together; with clean identities and no error all its invocations, model calls, tool calls and the approval lie inside the root invocation |
| ReleaseReconcile.GetJsonValue | scripts/release_api_retry.py:161-191 | at most the allowed requests, all but the last transient failures; the last decides, and it is retried exactly while it is transient and attempts remain |
| ReleaseReconcile.ConclusionIff | scripts/release_api_retry.py:161-191 | what a response is taken for by exit status, HTTP status and body, and which statuses are asked for again |
| ReleaseReconcile.ResolveTagCommit | scripts/release_api_retry.py:291-312 | the loop finds a commit exactly when a chain of at most five objects leads to it |
| ReleaseReconcile.ChaseIsChain | scripts/release_api_retry.py:291-312 | a commit is found exactly when a chain of at most five objects leads to it |
| ReleaseReconcile.ReconcileCreate | scripts/release_api_retry.py:482-587 | exact exactly when a probe after an open start, or the confirming one, saw the expected tag and the verified release; absent exactly when all probes saw nothing or the last two saw only the expected tag; each other outcome is blamed on the last probe; at most one probe more than attempts |
| ReleaseReconcile.EndsInError | scripts/release_api_retry.py:504-513 | after an open start, a failed request, a wrong tag, or a namespace that vanished after being seen proves nothing, whatever later probes would see |
| ReleaseListing.ReleaseRows | scripts/release_api_retry.py:251-289 | succeeds exactly when a short page ends the first ten and rows sharing an id or a tag are identical; there is only one such page count, and the result is each row of those pages once, in order |
| ReleaseListing.NothingMissed | scripts/release_api_retry.py:251-289 | releases published while pages are read never hide a release that was listed at the start |
| ReleaseListing.UnchangedListing | scripts/release_api_retry.py:251-289 | a listing that does not change while its pages of a hundred are read is read completely, in order |
| ReleaseListing.AdditionsAreConsistent | scripts/release_api_retry.py:275-283 | nor do they make the listing fail while ids and tags stay unique and the pages suffice |
| ReleaseListing.RequireLatestImmutable | scripts/release_api_retry.py:374-422 | passes exactly when the tag is canonical, the stable rows are orderly, no stable row has a newer version and the tag resolves to the expected commit on main |
| ReleaseListing.LatestIff | scripts/release_api_retry.py:389-414 | the latest tag is that of a row which is neither draft nor prerelease, is immutable and carries a version above that of any such row with another tag |
| ReleaseListing.OrderlyIff | scripts/release_api_retry.py:389-406 | orderly means that all such rows have assets and no two different ones share a tag |
| ReleaseListing.OnlyLatest | scripts/release_api_retry.py:410-414 | only one tag is the latest |
| ScalarRanges.ParseRanges | scripts/generate_unicode13_repertoire.py:24-62 | succeeds exactly when the admitted pieces are valid and disjoint; the result is sorted, disjoint and non-adjacent and holds exactly their scalars |
| ScalarRanges.ParseIff | scripts/generate_unicode13_repertoire.py:24-62 | that is, exactly when no line admitted at an age of at most 13.0 is reversed or out of bounds where it holds scalars, and no scalar is in two of them |
| ScalarRanges.AdmittedDenote | scripts/generate_unicode13_repertoire.py:35-49 | the pieces hold exactly the admitted code points that are not surrogates; a reversed line admits none |
| ScalarRepertoire.ParsedDenotes | scripts/generate_unicode13_repertoire.py:24-62 | every parse denotes the union of the admitted ranges minus the surrogates |
| ScalarRepertoire.ParsedScalars | scripts/generate_unicode13_repertoire.py:24-62 | a scalar is in the result exactly when a line of an age of at most 13.0 holds it and it is not a surrogate |
| ScalarRepertoire.CompactUnique | scripts/generate_unicode13_repertoire.py:51-62 | sorted, disjoint, non-adjacent lists with the same scalars are the same list |
| ScalarRepertoire.CountIsSize | scripts/generate_unicode13_repertoire.py:113 | the recorded scalar count is the number of scalars in the set |
| ScalarRepertoire.EncodeThenDecode | scripts/generate_unicode13_repertoire.py:65-66 | an encoded range decodes to itself |
| ScalarRepertoire.EncodedLooks | scripts/generate_unicode13_repertoire.py:65-66 | an encoded range is two numbers of six upper-case hexadecimal digits with a hyphen between |
| ScalarRepertoire.ParsedIsPublishable | scripts/generate_unicode13_repertoire.py:43-95 | every non-empty list that a parse can give may stand in a manifest, so the reader gives it back |
| ScalarRepertoire.PublishableIff | scripts/generate_unicode13_repertoire.py:76-95 | a list may stand in a manifest exactly when it is not empty, its ranges hold scalars only, and each begins at least two after the one before ends |
| ScalarRepertoire.RangesFromManifest | scripts/generate_unicode13_repertoire.py:69-95 | the reader accepts exactly the encodings of non-empty compact surrogate-free lists and returns the list they encode |
| ScalarRepertoire.IsRepertoirePython | scripts/generate_unicode13_repertoire.py:180-193 | the emitted Python bisection decides membership of every character of every string |
| ScalarRepertoire.SortSearch | scripts/generate_unicode13_repertoire.py:151-153 | the search finds the first index at which a monotone predicate holds |
| ScalarRepertoire.IsRepertoireGo | scripts/generate_unicode13_repertoire.py:149-159 | the emitted Go function decides membership of every scalar of every string |
| ReceiptRace.QueuedReceipts | scripts/check_upgrade_receipt.py:44-76 | whatever the gateway does between the listing, looking and reading: every receipt read was queued meanwhile, every one still queued at the end was read, and it fails only on too long a listing or an unreadable entry |
| ReceiptRace.NothingFollows | scripts/check_upgrade_receipt.py:178-218 | once no receipt for the target is queued, the rows of the upgrade never change |
| ReceiptRace.CheckUpgradeReceipt | scripts/check_upgrade_receipt.py:165-225 | for every interleaving: a success means, from the database read on, that no target receipt is queued and the database holds exactly one successful receipt for source and target, all its attempts valid; an upgrade that is over at the start passes; a timeout means it was not over at any of the first looks; any other error has a cause in what was read |
| ReceiptRace.AdmittedIff | scripts/check_upgrade_receipt.py:121-206 | the upgrade is admitted once exactly when one row of it succeeded and every row of it agrees in identity, origin, facts and outcome |
| ReceiptRace.LookIff | scripts/check_upgrade_receipt.py:178-218 | what one look at receipts and rows comes to: it is rejected exactly when something unfinished, invalid, duplicate or contradictory is there, and settled exactly when nothing is, one row succeeded and no receipt for the target is queued |
| ReceiptRace.DoneStays | scripts/check_upgrade_receipt.py:178-218 | once an upgrade is over, whatever else the gateway commits or unlinks leaves it over |
| Versions.TextThenParse | scripts/resolve_upgrade_baselines.py:56-59 | reading the text of a version gives the version |
| Versions.ParseThenText | scripts/resolve_upgrade_baselines.py:56-59 | a version has only one canonical text |
| Versions.TextOfOne | scripts/resolve_upgrade_baselines.py:56-59 | what a version text looks like |
| Versions.BelowAtFirst | scripts/resolve_upgrade_baselines.py:56-59 | versions are compared at the first part in which they differ |
| BaselineResolution.CandidatesAre | scripts/resolve_upgrade_baselines.py:399-415 | the candidates are exactly the stable releases between floor and target, each once and immutable |
| BaselineResolution.ResolveEffectivePolicy | scripts/resolve_upgrade_baselines.py:371-446 | succeeds exactly when floor, inventory and manifests are in order; the result is well-formed, strictly descending, below the target, with each config from its source and the Windows versions in order |
| BaselineResolution.ResolvableIff | scripts/resolve_upgrade_baselines.py:371-446 | when a policy can be resolved, by what the inventory says of the stable releases above the newest floor version that is older than the target |
| BaselineResolution.ResolutionLists | scripts/resolve_upgrade_baselines.py:399-440 | a resolved policy lists, newest first, exactly the floor versions older than the target and the tags of those releases |
| BaselineResolution.ResolvedIsAccepted | scripts/release-preflight.py:193-225 | a resolved policy is never refused as malformed, empty or too new by the selectors |
| Baselines.GuardIff | scripts/release-preflight.py:197-221 | the guard admits exactly the policies with strictly descending versions, an exact config map and an ordered Windows subset |
| Baselines.WellFormedIff | scripts/release-preflight.py:197-221 | a policy is well formed exactly when versions and Windows versions fall, the latter are among the former, and each version and nothing else has a config of at least 1 |
| Baselines.SelectUpgradeBaselines | scripts/release-preflight.py:179-250 | the loops give the newest baseline, the anchors older than the target and the newest of three families, each once, or the first error; the policy is written back without Windows baselines |
| Baselines.SelectionIff | scripts/release-preflight.py:222-250 | a matrix is selected exactly when the policy is well formed, 0.8.4, 0.8.5, 0.8.6 and 0.7, 0.6 and 0.5 are among the versions older than the target, and one is newer than 0.8.6 unless the target is 0.8.7; it is the newest, the three anchors and the newest of each family |
| Baselines.SelectionFails | scripts/release-preflight.py:193-249 | a selection that fails names the first thing missing |
| Baselines.SameMatrix | scripts/select-release-validation-lane.py:92-138 | with the expected configs, the list selected and the matrix recomputed are the same or both missing |
| Baselines.SelectorsAgree | scripts/select-release-validation-lane.py:47-159 | for every policy, target, list and baseline: the lane check accepts exactly the selected list and its members, when the policy is well formed, lists only versions older than the target and meets the config condition; otherwise it rejects every list; 0.8.4 and 0.8.6 get lanes of their own |
| Baselines.SelectorsDisagree | scripts/select-release-validation-lane.py:87-159 | for a policy without a config change the selector gives a matrix and the lane check rejects every matrix |
| Baselines.SelectorsDisagreeOnNewer | scripts/select-release-validation-lane.py:92-159 | for a policy that lists a version newer than the target the selector gives a matrix and the lane check rejects every matrix |
| Baselines.PersistedPolicyAgrees | scripts/release-preflight.py:250-251 | the same holds, for every policy, of the policy as the selector leaves it on disk |
| VersionRadar.CompareVersions | scripts/connector-version-radar.py:127-150 | the loop gives the sign of the comparison defined by recursion on identifiers |
| VersionRadar.CompareIsPrecedence | scripts/connector-version-radar.py:127-150 | for versions without leading zeros in numeric identifiers the sign is the precedence of section 11 of Semantic Versioning 2.0.0 |
| VersionRadar.ZeroIffEqual | scripts/connector-version-radar.py:127-150 | only equal versions compare equal |
| VersionRadar.AntisymmetricIff | scripts/connector-version-radar.py:138-147 | swapping the versions flips the sign exactly when they do not first differ in spellings of one number |
| VersionRadar.LeadingZeroClashes | scripts/connector-version-radar.py:143-144 | 1.0.0-01 and 1.0.0-1 are each older than the other |
| VersionRadar.CompareIsOrder | scripts/connector-version-radar.py:127-150 | without leading zeros the comparison is antisymmetric and transitive |
| VersionRadar.ScheduledIff | scripts/connector-version-radar.py:521-557 | a test is due exactly for a known version not older than the installed one and newer than the last one tried |
| VersionRadar.Radar.CheckRadar | scripts/connector-version-radar.py:421-599 | the candidates are the ones of `VersionRadar.DueAre` by the state before the check, each checked connector has an entry with what was seen of it, and nothing else changes |
| VersionRadar.DueAre | scripts/connector-version-radar.py:504-557 | there is one candidate for each connector that is due, in the order of the connectors, from the last version that passed or else from the installed one |
| VersionRadar.CheckKeepsAttempts | scripts/connector-version-radar.py:471-475 | a check leaves what was attempted and passed alone, for every connector |
| VersionRadar.Radar.MarkState | scripts/connector-version-radar.py:602-636 | the attempt is recorded, a pass too, what was seen of the connector stays and no other connector changes |
| VersionRadar.Radar.Rounds | scripts/connector-version-radar.py:504-557 | from empty state, with each candidate marked before the next check, scheduled are exactly the versions not older than the installed one and newer than every record before them |
| VersionRadar.RecordsRise | scripts/connector-version-radar.py:533-548 | each record is newer than all records before it, leading zeros or not |
| VersionRadar.LastDecides | scripts/connector-version-radar.py:533-548 | comparing with the last attempted version alone tells whether a version is newer than every one before |
| VersionRadar.ScheduledAscend | scripts/connector-version-radar.py:504-557 | versions that are each newer than the one before are each newer than all before, leading zeros or not |
| VersionRadar.NewerTransitive | scripts/connector-version-radar.py:127-150 | being newer is transitive for all versions, leading zeros or not |

## Left out

- File descriptors, permissions, `stat` and `ctime` comparisons, `fsync`, locks and symbolic links: a path holds an abstract entry, and each listed change is one atomic step.
- HTTP, `gh`, `cosign`, `git` and SQLite drivers, delays and clocks: requests, reads and times are arbitrary parameters.
- Regular expressions, `json.loads` of foreign texts, encodings and the shape checks of parsed documents and plan facts: the models start from typed data; a policy carries one flag for a document of the wrong shape.
- SHA-256, signatures and archive formats: what authenticates is a parameter.
- `JsonText.PrintThenRead`: the reader covers the texts the encoder emits, not white space, other escapes or repeated keys.
- `CanonicalRecord.CanonicalizeRecordJsonText`: Python's respelling of a parsed decimal by `str` and its limits on exponents and digits are not modelled; a parsed decimal keeps its text.
- `FixtureCompiler.InputCompiler.Typed`: error messages are one failure, doubles are exact reals or not finite, widening an integer is a parameter that may fail, and the sign of a zero is not kept.
- `FixtureData.ValueTree`: the value is already parsed, mappings have text keys and are unordered, and every other Python type is one unsupported value.
- `InstallHome.Workspace.Session`: no other process writes to the three names, and random names never repeat.
- `AgentSpans.TraceErrors`: the comparison of attributes in the second half of `_golden_trace_errors` is not modelled.
- `AgentSpans.Topology`: the summary of a failed search is not modelled.
- `ReleaseReconcile.ReconcileCreate`: the text of the last mismatch and the delays are not modelled; verifying a release is one answer of the probe.
- `ReceiptRace.CheckUpgradeReceipt`: time is the number of looks before the deadline, one more is made after it, and nothing is enqueued during the check.
- `ScalarRanges.ParseRanges`: lines are already split into an age and a range, and which of several errors comes first is not stated.
- `VersionRadar.Radar.CheckRadar`: versions are already parsed, and the report document is reduced to the candidates and whether a probe failed.
- `Baselines.SelectUpgradeBaselines`: versions are already parsed triples, so the one text per version of `Versions` stands for the text comparisons; writing the file safely is not modelled.
- `discover_test_files`, `exclude_test_files`, `_curated_case`, the coverage part of `compile_go_fixture_plan`, envelopes, statuses and resources of fixtures, `release_by_tag` and `require_absent_namespace`: they would only add easy members.
- Dashboard inventories, query linting, live audits, schema drift checks, `scripts/merge_go_coverage.py`, `scripts/telemetry_go_output_coordinator.py`, `scripts/release_certification.py`, `scripts/source_release_identity.py`, `plugins/registry.go` and `schemas/embed.go`: table lookups and field comparisons without a deep property.
- Command lines, printing and GitHub output files.
