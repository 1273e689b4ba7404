# Verified models of OpenContracts

Dafny models of the parts of OpenContracts where the reasoning is hard, with proofs of what those
parts are for. `dafny verify dfyconfig.toml` checks everything.

| files | what they model |
|---|---|
| `GraphQL`, `Fragments`, `Inlining`, `CollectionCost`, `CheckCost`, `CheckGrowth`, `Automation`, `Footprint`, `Invariance`, `Respelling`, `Executor`, `OperationSafety`, `AutomationExtension`, `DeployedPolicy`, `DeployedSchema`, `LeastPrivilege`, `ClosedOperations`, `OneFieldOperations`, `ServerSteps` | The automation operation policy, against field collection and serial execution as in sections 6.2.2, 6.3.2 and 6.4.3 of the GraphQL specification (October 2021) |
| `FlatTree`, `FlatTreeEntries` | Flattening parent links into child lists |
| `Changelog`, `ChangelogLayout`, `ChangelogTheorems`, `ChangelogSplit`, `ChangelogEnd`, `ChangelogFragments`, `FragmentNames` | Folding changelog fragments into the Unreleased section |
| `Payloads`, `Norms`, `Trials`, `Percentiles`, `Dataset`, `Batching`, `BucketSpecs` | The embedding benchmark |
| `EscapeHtml`, `PercentDecoding`, `Utf8`, `Routes`, `RouteSegments` | The Open Graph worker |
| `Headers`, `PermissionsPolicy` | The security headers |
| `Threads`, `ThreadSafety`, `ThreadEffects` | Discussion mutations as a state machine |
| `Relationships`, `RelationshipEffects` | Relationship mutations as a state machine |
| `Text`, `Words`, `Numbers`, `Decimals`, `Integers`, `Sorting`, `Sequences`, `Wrappers` | Texts, numerals and shared facts |

The central result is `OperationSafety.PolicyIsExact`. The policy collects each named fragment once
and looks at one field of each merged group; the executor resolves fields depth first, whatever its
resolvers return. The two are connected by a third, naive count of the calls an operation can make
(`Footprint.Calls`), which inlines every fragment and looks at every occurrence. Acyclic fragments
(section 5.5.2.2), mergeable groups (5.3.2) and sub-selections on exactly the composite fields
(5.3.3) are preconditions, as validation guarantees them. The tables of the policy and the schema are
parameters; `DeployedPolicy` has the tables of the source and `DeployedSchema` the types of the
fields they list. That only the values of arguments count, not how they are given, is
`ClosedOperations.OperationClosed`; what operations with one field take is in `OneFieldOperations`.

State machines (`AutomationExtension`, `ThreadSafety`, `ThreadEffects`, `Relationships`,
`RelationshipEffects`) are proved over runs: an arbitrary sequence of requests, with permission
services that may answer differently every time.

## What a reader might not expect

- The changelog fold keeps every other byte of the file, as documented
  (`scripts/collate_changelog.py:136-141`, `Changelog.File.Apply`, `Changelog.FoldIsLossless`). What
  it does not keep is that the file splits in the same way: when the Unreleased section ends with
  the header of a category that has entries, and another section follows, the last entry runs into
  that section's header. `ChangelogSplit.SplitAgain` says exactly when the split is kept,
  `ChangelogEnd.GluedExample` shows a file where it is not.
- The comment on the text comparison in `UpdateRelationship` calls it unambiguous
  (`config/graphql/annotation_mutations.py:1737-1741`). It also refuses a visible annotation whose
  key is not written canonically, which `AddRelationship` accepts:
  `Relationships.TextTestIsExact` and `Relationships.PaddedIdTellsMutationsApart`.
- An `UpdateRelationship` that answers `ok=False` can have changed the relationship:
  `Relationships.UpdateKeepsExactly` and `Relationships.RefusedUpdateCanWrite`.
- A route's canonical URL does not lead back to it when a slug contains a percent sign, as a slug
  read from a doubly encoded path does: `Routes.PrintedParses` and
  `Routes.DoublyEncodedIsUnstable`.
- Collecting each fragment once (`config/graphql/automation.py:154-156`) makes one collection linear
  (`CollectionCost.CollectionIsLinear`), but the walk collects anew below every group. What keeps the
  walk as a whole from expanding exponentially is that the fields its tables list form no cycle
  (`CheckGrowth.PolynomialExactly`). With the tables and types of the source it is polynomial: no
  chain of listed fields is longer than a root field and two edges
  (`DeployedSchema.DeployedWalkIsPolynomial`).
- Deleting a message works in a locked thread; what a lock freezes is who may post and what is
  written (`ThreadSafety.LockedThreadIsFrozen`).

## Model

| member | source | states |
|---|---|---|
| OperationSafety.PolicyIsExact | config/graphql/automation.py:151-235 | An operation is accepted if and only if every field that its execution can reach, at any depth and whatever the resolvers return, is permitted: `__typename`, a listed root field whose scope, role and install conditions hold for its actual arguments, or a nested field on the allowlist and on a listed edge. |
| OperationSafety.AcceptedIsSafe | config/graphql/automation.py:1-8 | Soundness for every resolver and every store: the calls an accepted operation adds to the log are among the calls counted naively, and all of those are permitted. |
| OperationSafety.DeniedIsUnsafe | config/graphql/automation.py:151-206 | Completeness: for every denied operation there is a call that is not permitted, and one path of objects to it; execution makes the call with resolvers that answer along that path and with null everywhere else. |
| OperationSafety.AbstractEdgeLeaks | config/graphql/automation.py:195-206 | Why listed edges must lead to object types: the walk uses the declared type, execution the runtime type, so a permitted root field returning an interface of `CorpusType` would let an unlisted corpus field be resolved. |
| OperationSafety.SelectionsReach | config/graphql/automation.py:192-206 | Execution with the resolvers of a path makes the call the path leads to. |
| OperationSafety.PathTo | config/graphql/automation.py:192-206 | There is a path, one object at each step, to every naively counted call. |
| ClosedOperations.ArgumentsExactly | config/graphql/automation.py:171 | A declared parameter gets the literal or the variable's value that it is given, else its default, else nothing. |
| ClosedOperations.LeftOutExactly | config/graphql/automation.py:154-156 | A selection is left out if and only if `@skip` is true or `@include` is not, as a constant or by its variable. |
| ClosedOperations.OperationClosed | config/graphql/automation.py:209-235 | Writing the value of every variable in its place, and a hole for everything that directives leave out, anywhere in the operation and its fragments, changes neither the decision nor the naive calls, whatever the variables are then. |
| OneFieldOperations.InstallOperationNeeds | config/graphql/automation.py:163-189 | An operation that installs an authority pack is accepted if and only if the user is a superuser and the credential, if there is one, is unbound and has three scopes, and a fourth where `publish` is on, by a literal, a variable or its default. |
| OneFieldOperations.OneRootFieldNeeds | config/graphql/automation.py:163-183 | An operation with any other one root field: the scope, a corpus of the credential named by the argument, the role, and what is selected below. |
| OneFieldOperations.NestedFieldNeeds | config/graphql/automation.py:190-206 | One field below the root: it must exist, be listed for a corpus, and be a listed edge if anything is selected below it. |
| OneFieldOperations.IntrospectionIsDenied | config/graphql/automation.py:160-163 | `__schema` and `__type` are denied whatever the credential, although execution would resolve them. |
| OneFieldOperations.CorpusIsNamed | opencontractserver/users/services/automation_credentials.py:54-64 | An argument names a corpus if and only if it is the number of it in digits, or else a Relay id of it. |
| Executor.SelectionsStayInside | config/graphql/automation.py:154-157 | Execution of a selection set, for any resolvers, adds only calls of the naive count. |
| Executor.CallsByGroup | config/graphql/automation.py:157-160 | The calls of a selection set are those of its merged groups, so looking at one group at a time misses nothing. |
| Footprint.CheckDecides | config/graphql/automation.py:151-206 | The merged walk that visits each named fragment once and looks at the first field of each group decides exactly as looking at every occurrence of the full inlining. |
| Footprint.CheckGroupDecides | config/graphql/automation.py:157-206 | One group: inspecting `details[0]` and the merged selections is the same as inspecting each of its fields. |
| Footprint.CallsOfFields | config/graphql/automation.py:154-157 | Collected fields and fully inlined fields make the same calls. |
| Inlining.CollectEqualsInlining | config/graphql/automation.py:154-156 | Collecting each fragment once finds exactly the fields of the full inlining. |
| Inlining.CollectCovers | config/graphql/automation.py:154-156 | What a field skipped by the visited set is covered by: a field collected now or one of a fragment visited before. |
| Fragments.GroupIsLower | config/graphql/automation.py:192-206 | Termination: the merged selections of a group are strictly lower, by the height over fragment rank and nesting, than the selection set they came from. |
| CollectionCost.CollectionIsLinear | config/graphql/automation.py:154-156 | One collection looks at no more selections than the operation and its fragments contain. |
| CollectionCost.InliningIsExponential | config/graphql/automation.py:154-156 | On a chain of fragments the full inlining has 2^n fields where one collection looks at 2n + 2 selections at most. |
| CheckCost.WalkIsPolynomial | config/graphql/automation.py:151-206 | Cost of the whole walk, up to its first denial: if no chain of more than d listed fields starts at the type, all collections together look at no more selections than the size of the document times the d-th power of the size of its fragments (and two). |
| CheckGrowth.WalkIsExponential | config/graphql/automation.py:192-206 | Along a chain of n listed fields, whoever asks, a document of 4n + 2 selections is accepted after looking at 5 * 2^n - 3 selections: the walk collects anew below every group. |
| CheckGrowth.PolynomialExactly | config/graphql/automation.py:192-206 | The walk below a type is polynomial in the document if and only if the listed fields do not lead from that type into a cycle. |
| DeployedSchema.DeployedWalkIsPolynomial | config/graphql/automation.py:154-156 | With the tables of the source, on a schema with the types of the source, a root field and two edges are the longest chain, so checking an operation costs at most its size times the third power of the size of its fragments (and two). |
| DeployedSchema.EdgesAreConcrete | config/graphql/automation.py:106-148 | Every field that the tables of the source list has an object type or a leaf in the schema of the source, so the walk by declared types misses nothing. |
| DeployedSchema.DeployedPolicyIsExact | config/graphql/automation.py:209-235 | With tables and types of the source: an operation is accepted if and only if every field its execution can reach is permitted. |
| Invariance.DecisionIgnoresSpelling | config/graphql/automation.py:151-206 | Inlining fragments, re-aliasing fields and reordering or repeating selections, anywhere in the operation, leaves the decision unchanged if the result is valid. |
| Respelling.RespellingKeepsValidity | config/graphql/automation.py:157-159 | Where aliases stay, the result is valid if and only if the operation was: validity is about which fields are collected under which keys, at every depth. |
| Respelling.RespellingKeepsDecision | config/graphql/automation.py:151-206 | So inlining fragments and reordering or repeating selections leaves the decision on every valid operation unchanged. |
| Invariance.DecisionIsMonotone | config/graphql/automation.py:174-192 | More scopes, more corpuses or a higher role never turn an acceptance into a denial. |
| AutomationExtension.ExecutionContext.OnExecute | config/graphql/automation.py:239-267 | Sets the result to the verdict where there is one and leaves it otherwise; the verdict is a denial, the variable errors, or none. |
| ServerSteps.VerdictExactly | config/graphql/automation.py:238-268 | There is no verdict if and only if there is no credential, or an operation is selected whose variables are well formed and which the policy admits; ill-formed variables are reported, anything else is denied. |
| ServerSteps.SelectExactly | config/graphql/automation.py:247-252 | The operation selected is the only one, or the first with the name asked for. |
| ServerSteps.ServeExactly | config/graphql/automation.py:238-268 | A request is executed if and only if there is no verdict on it; then its calls go to the end of the history, in order, and the store is what they leave. |
| AutomationExtension.OneBadCallStopsAll | config/graphql/automation.py:1-8 | One call that is not permitted, anywhere in the operation, even behind permitted mutations: the store and the history stay as they were. |
| AutomationExtension.RunIsJustified | config/graphql/automation.py:238-267 | Over every run of requests, each call in the history made for a credential belongs to an operation all of whose calls are permitted. |
| AutomationExtension.RunConfinesBoundCallers | config/graphql/automation.py:171-174 | Over every run, a credential bound to some corpuses reaches only root fields that name one of its corpuses. |
| FlatTree.BuildFlatTree | config/graphql/base_types.py:262-286 | The two passes yield one entry for each node, in order, with the global ids of exactly the nodes that name it as parent, in input order. |
| FlatTreeEntries.EntryExactly | config/graphql/base_types.py:262-286 | Entry i has the global id and the text of node i, and as children the global ids of exactly the nodes whose parent link is its id and not 0, in input order. |
| FlatTree.ChildrenAre | config/graphql/base_types.py:263-268 | A child list holds exactly the ids of the nodes whose parent link is that id. |
| FlatTree.SiblingsKeepOrder | config/graphql/base_types.py:264-268 | Siblings stand in input order. |
| FlatTree.ParentsAreRecovered | config/graphql/base_types.py:275-284 | For unique ids and an injective id map, parent links inside the list can be read off the output. |
| FlatTree.ForestIsPreserved | config/graphql/base_types.py:262-286 | Following `children` from the entries that are nobody's child visits every entry exactly once, for parent links that form a forest. |
| FlatTree.ForestExactly | config/graphql/base_types.py:262-286 | It does so, for some depth, if and only if the parent links inside the list go round nowhere. |
| FlatTree.WalkStaysInside | config/graphql/base_types.py:262-286 | The walk meets nothing but entries of the list. |
| Changelog.File.Apply | scripts/collate_changelog.py:133-167 | Text before and after the section is kept byte for byte around the folded body; the count is the number of entries; without the header nothing is written. |
| Changelog.FoldIsLossless | scripts/collate_changelog.py:133-167 | Deleting the inserted blocks, in reverse order, restores the old body exactly. |
| Changelog.EditsAreUndone | scripts/collate_changelog.py:147-161 | The interleaved search and insertion is a list of edits that can be undone, one for each category with entries that has a header. |
| ChangelogLayout.FindHeaderByLine | scripts/collate_changelog.py:153-156 | The multi-line pattern for a category header finds, in characters, the first line that is the header, up to the last blank line under it. |
| ChangelogLayout.FoldByLine | scripts/collate_changelog.py:147-161 | The character edits refine insertions of lines. |
| ChangelogTheorems.EntriesAreBeneathTheirHeader | scripts/collate_changelog.py:136-141 | If no line of an entry is the header line of another category: the entries of each category stand, in order, right beneath the first header of that category, wherever they went. |
| ChangelogSplit.SplitAgain | scripts/collate_changelog.py:117-130 | Splitting the folded file gives the same outer parts around the folded body if and only if no entry has a line that opens a section, and no section follows or no entries were put at the very end of the section as it then was. |
| ChangelogEnd.EndIsKnownBefore | scripts/collate_changelog.py:153-161 | If no line of an entry is the header line of another category, whether entries are put at the end can be read off the body before the fold. |
| ChangelogEnd.LastHeaderIsGlued | scripts/collate_changelog.py:157-159 | A section that ends with the header of a category with entries: the fold runs its last entry into the header of the next section, and the file no longer splits the same way. |
| ChangelogEnd.GluedExample | scripts/collate_changelog.py:136-141 | A concrete changelog for which splitting again fails. |
| ChangelogSplit.SplitShape | scripts/collate_changelog.py:117-130 | What the split yields: the three parts are the text, the body starts with a line end and opens no section. |
| ChangelogFragments.Collect | scripts/collate_changelog.py:90-103 | Succeeds if and only if every fragment parses, and then files every body under its category in file order; otherwise it gives the errors of all that do not, in file order. |
| FragmentNames.ParsesExactly | scripts/collate_changelog.py:50-87 | A fragment gives a category and a body if and only if its name is a one-line slug, a dot, the category in upper or lower case and `.md`, and the body is what is left of its content without the white space at its ends, and not empty. |
| FragmentNames.FailsExactly | scripts/collate_changelog.py:72-86 | It gives an error otherwise: a bad name, letters that are no category, or a blank content. |
| FragmentNames.FiledByName | scripts/collate_changelog.py:90-103 | The entries of a category are the bodies of exactly the files whose names have it, in file order. |
| ChangelogFragments.ParsedIsStripped | scripts/collate_changelog.py:66-87 | A parsed fragment has a known category and a body without white space at its ends. |
| ChangelogFragments.EveryFragmentIsFiled | scripts/collate_changelog.py:90-103 | Every fragment is one entry of exactly one category. |
| ChangelogFragments.CollectionFolds | scripts/collate_changelog.py:142-167 | Folding a collection counts every file once; its groups meet what splitting again asks, and what the layout theorems ask unless a line of an entry is the header line of another category. |
| Percentiles.PercentileIgnoresOrder | compose/accelerated/bench_embed.py:556-568 | The percentile depends on the multiset of values only. |
| Percentiles.PercentileIsMonotone | compose/accelerated/bench_embed.py:698-699 | A higher percentile is never smaller, so p50 <= p95. |
| Percentiles.PercentileIsBetween | compose/accelerated/bench_embed.py:562-568 | It lies between order statistics floor((n-1)p) and ceil((n-1)p). |
| Percentiles.PercentileIsWeightedMean | compose/accelerated/bench_embed.py:562-568 | Below the top it is the mean of the order statistics around (n-1)p, weighted by the fraction. |
| Percentiles.PercentileStaysInside | compose/accelerated/bench_embed.py:559-568 | It stays within the sample and reaches its ends at 0 and 1. |
| Percentiles.PercentileOfHalfIsMedian | compose/accelerated/bench_embed.py:692-698 | At 0.5 it is the median. |
| Payloads.ValidatePayload | compose/accelerated/bench_embed.py:456-518 | Refuses with the error of the first bad value of the first bad row, and otherwise summarises count, norm bounds and wrapped rows. |
| Payloads.PayloadExactly | compose/accelerated/bench_embed.py:464-508 | A payload is accepted if and only if it is a non-empty list of as many rows as texts were sent, all valid; otherwise the error is that of the list, or of the first row that is not valid. |
| Payloads.RowExactly | compose/accelerated/bench_embed.py:477-504 | A row is valid if and only if its items, or those of its one list, have the dimension, are all finite, and have a permitted dot product with themselves, which is reported; otherwise the error is that of its shape, of its first bad value, or of its norm. |
| Norms.DotIgnoresOrder | compose/accelerated/bench_embed.py:499 | That product does not depend on the order of the values. |
| Norms.DotOfScaled | compose/accelerated/bench_embed.py:499 | Values k times as large have a product k * k times as large. |
| Payloads.SummaryIsOfRows | compose/accelerated/bench_embed.py:508-517 | A summary counts every row, and every row that is a list of one list; its norm bounds are the least and the greatest norm of the rows, attained, and permitted. |
| Trials.SortingRestoresBatchOrder | compose/accelerated/bench_embed.py:623-641 | In whatever order responses arrive, sorting puts the response of batch k at position k. |
| Trials.AsCompleted | compose/accelerated/bench_embed.py:616-632 | Collects the responses in completion order, and fails if and only if some request fails, with the first failure in that order. |
| Trials.ExecuteTrial | compose/accelerated/bench_embed.py:598-667 | For every completion order the result is that of the sequential branch on the same responses; a failed request fails the trial. |
| Trials.TrialSucceedsExactly | compose/accelerated/bench_embed.py:640-647 | With all requests answered, a trial succeeds if and only if every payload is acceptable; otherwise it fails with the error of the first that is not. |
| Trials.TrialReportsWhatWasSent | compose/accelerated/bench_embed.py:637-667 | A successful trial reports as many texts as were sent, their words, one latency for each batch in batch order, how many rows were lists of one list, and the least and the greatest norm of all rows of all batches. |
| Dataset.Generate | compose/accelerated/bench_embed.py:272-304 | Succeeds if and only if there is something to generate and every bucket has a positive length, and then yields the samples bucket by bucket. |
| Dataset.SampleHasItsLength | compose/accelerated/bench_embed.py:287-295 | Splitting a text at white space gives back exactly the requested number of words. |
| Dataset.WalkHasFullPeriod | compose/accelerated/bench_embed.py:288-294 | For every offset and odd stride, any 64 consecutive positions hit each word of the vocabulary exactly once. |
| Dataset.SamplesAreDistinct | compose/accelerated/bench_embed.py:283-303 | For distinct bucket names no two samples of the data set share an id or a text. |
| Decimals.PadIsInjective | compose/accelerated/bench_embed.py:283 | Zero-padded numerals of different numbers differ, also beyond the padding width. |
| Batching.TargetIsLeast | compose/accelerated/bench_embed.py:578-580 | The expanded size is the least multiple of the batch size that covers the samples and the worker minimum. |
| Batching.RepetitionIsEven | compose/accelerated/bench_embed.py:581 | Samples are repeated equally often, up to one, and none is left out. |
| Batching.TakenIs | compose/accelerated/bench_embed.py:581 | How often a sample is taken: the quotient, and once more below the remainder. |
| Batching.BatchesAreFair | compose/accelerated/bench_embed.py:584-595 | Every rotation has equally many batches, all full, that flatten to the cyclic shift and hold the same texts. |
| Batching.BenchmarkPair | compose/accelerated/bench_embed.py:718-781 | Succeeds if and only if there are measured runs and every run of both endpoints does; each run of either endpoint is the trial on the batches of that run's rotation, and orders alternate. |
| Batching.RunsAreComparable | compose/accelerated/bench_embed.py:787-800 | Every successful run of either endpoint reports the same number of texts, words and requests. |
| Batching.RunSucceedsExactly | compose/accelerated/bench_embed.py:742-785 | A run succeeds if and only if the endpoint answers each request with an acceptable payload, where request i sends the batch of texts that the run's rotation puts there. |
| Batching.BatchesAre | compose/accelerated/bench_embed.py:581-596 | Batch i of a run is the texts at positions run + i * size and after, round the list. |
| Batching.ExpansionIsEven | compose/accelerated/bench_embed.py:569-578 | The expanded list holds distinct samples equally often, up to one. |
| Batching.StartsAreFair | compose/accelerated/bench_embed.py:764-769 | Each endpoint goes first equally often, up to one. |
| BucketSpecs.ParseBucketSpecs | compose/accelerated/bench_embed.py:228-253 | The loop with its set of seen names computes the parse: the first bad or repeated bucket is the error. |
| BucketSpecs.PrintedParses | compose/accelerated/bench_embed.py:895 | Buckets print to a text that parses to them if and only if there is one, sizes are positive, and names are distinct, not empty, stripped and free of comma and colon. |
| BucketSpecs.AcceptedRoundTrips | compose/accelerated/bench_embed.py:228-253 | Whatever is accepted prints to a text that parses to the same buckets, which have distinct names and positive sizes. |
| Integers.ShownParses | compose/accelerated/bench_embed.py:238 | Reading a printed number gives it back. |
| Words.SplitJoined | compose/accelerated/bench_embed.py:295-296 | Splitting joined tokens at white space gives them back. |
| EscapeHtml.EscapeIsOnePass | cloudflare-og-worker/src/html.ts:14-21 | The five chained global replacements are one map over the characters. |
| EscapeHtml.EscapeReadsBack | cloudflare-og-worker/src/html.ts:14-21 | Unescaping in one pass restores the input. |
| EscapeHtml.EscapeIsEscaped | cloudflare-og-worker/src/html.ts:11-21 | The result has no `<`, `>`, `"` or `'`, and every `&` begins one of the five entities. |
| EscapeHtml.EscapedIsEscape | cloudflare-og-worker/src/html.ts:14-21 | That describes the results exactly: a text is one if and only if it is the escape of what it reads back to. |
| EscapeHtml.DescriptionReadsBack | cloudflare-og-worker/src/html.ts:62 | A description in an attribute ends at the attribute's own quote and reads back as the description, or as its first 197 characters and an ellipsis. |
| Routes.MatchIsExact | cloudflare-og-worker/src/parser.ts:14-70 | A pattern matches a path if and only if the path is the pattern with non-empty, slash-free slugs put in, and these are the captures. |
| Routes.PatternsAreDisjoint | cloudflare-og-worker/src/parser.ts:11-18 | At most one of the five patterns matches a path. |
| Routes.AnyMatchIsFirst | cloudflare-og-worker/src/parser.ts:97-108 | So the first match is any match, and the order of the table does not matter. |
| Routes.ParseInvertsPrint | cloudflare-og-worker/src/parser.ts:86-109 | A path parses to a route if and only if its decoded, slash-trimmed form is the route's canonical URL and the slugs are non-empty and free of slashes. |
| RouteSegments.ParsesBySegments | cloudflare-og-worker/src/parser.ts:86-109 | A path leads to a route if and only if, but for a slash at its end, it writes the route's segments joined by slashes, in UTF-8 with any characters in percent escapes, and no segment is empty or has a slash. |
| RouteSegments.UrlIsJoined | cloudflare-og-worker/src/parser.ts:128-150 | A canonical URL is the base, without a slash at its end, and the segments joined by slashes. |
| Routes.NoRoute | cloudflare-og-worker/src/parser.ts:91-95 | Nothing is parsed if and only if decoding fails or no route prints as the decoded path. |
| Routes.PrintedParses | cloudflare-og-worker/src/parser.ts:128-150 | A printed route parses back, with or without a trailing slash, if and only if its slugs are non-empty and have neither a slash nor a percent sign. |
| Routes.EncodedSlugIsDecoded | cloudflare-og-worker/src/parser.ts:86-109 | An encoded corpus slug reads as what it decodes to, if and only if that is non-empty and has no slash. |
| PercentDecoding.DecodingShortens | cloudflare-og-worker/src/parser.ts:90 | Decoding leaves a text alone if and only if it has no percent sign: every escape gets shorter. |
| Utf8.DecodeInvertsEncoding | cloudflare-og-worker/src/parser.ts:90 | Decoding gives a text for exactly its encodings: every character as itself or as the percent escapes, in digits of either case, of its bytes by section 3 of RFC 3629. |
| Routes.DoublyEncodedIsUnstable | cloudflare-og-worker/src/parser.ts:90 | A doubly encoded slug reads as one that is still encoded, and the canonical URL of its route leads to another route. |
| Headers.BuildCsp | config/middleware.py:85-111 | Writes the directives with the nonce source appended to exactly the script directives. |
| Headers.CspRoundTrip | config/middleware.py:85-111 | Parsing the header by section 2.2.1 of Content Security Policy Level 3 gives those directives back if and only if they are well formed. |
| Headers.NonceMustBePlain | config/middleware.py:105-109 | A nonce keeps well-formed directives well formed if and only if it is plain or not used. |
| Headers.HeaderIsOnePolicy | config/middleware.py:70-73 | A browser reads the header as that one policy if and only if it has directives, and they are well formed and without commas. |
| Headers.ParsedAreDirectives | config/middleware.py:107-111 | Whatever is parsed from a header is well formed. |
| Headers.BuildPermissionsPolicy | config/middleware.py:114-138 | Writes each feature with its allowlist in parentheses. |
| PermissionsPolicy.PolicyRoundTrip | config/middleware.py:114-138 | Reading the policy as a dictionary of inner lists (RFC 8941) gives the configured features back if and only if their keys are distinct and well formed and the allowlists hold tokens and strings. |
| Headers.SecurityHeadersMiddleware.constructor | config/middleware.py:51-57 | Keeps the directives and writes the permissions policy once. |
| Headers.SecurityHeadersMiddleware.Call | config/middleware.py:59-78 | Request and policy header get the same nonce; without directives the request is untouched; other headers stay. |
| Threads.Store.CreateThread | config/graphql/conversation_mutations.py:202-305 | Needs a corpus or a document, readable if given; adds an unlocked thread and its first message. |
| Threads.Store.CreateThreadMessage | config/graphql/conversation_mutations.py:384-450 | Adds a message to a visible thread that is not locked, and links what it mentions. |
| Threads.Store.ReplyToMessage | config/graphql/conversation_mutations.py:497-583 | Adds a reply in its parent's thread if that may be read and is not locked. |
| Threads.Store.UpdateMessage | config/graphql/conversation_mutations.py:625-771 | Replaces content and links of a message the user may edit, in a thread that is not locked, if it is not deleted. |
| Threads.Store.DeleteConversation | config/graphql/conversation_mutations.py:814-850 | Marks a visible thread deleted for those who may delete or moderate it. |
| Threads.Store.DeleteMessage | config/graphql/conversation_mutations.py:893-929 | Marks a visible message deleted for those who may delete it or moderate its thread, also while the thread is locked. |
| Threads.Store.LinkMessage | opencontractserver/utils/mention_parser.py:192-267 | Sets the links of a message to what was found of what it mentions. |
| ThreadSafety.EditSucceedsExactly | config/graphql/conversation_mutations.py:626-706 | An edit succeeds if and only if its content is not blank, the user may edit the message, its thread is not locked and it is not deleted. |
| ThreadEffects.CreateThreadExactly | config/graphql/conversation_mutations.py:202-305 | What creating a thread answers in every case, and what the new thread and its first message hold. |
| ThreadEffects.PostExactly | config/graphql/conversation_mutations.py:384-450 | The same for posting: the thread must be there, not deleted, visible and not locked. |
| ThreadEffects.ReplyExactly | config/graphql/conversation_mutations.py:497-583 | The same for replying: the message must be there, not deleted and visible, its thread readable and not locked. |
| ThreadEffects.UpdateExactly | config/graphql/conversation_mutations.py:625-771 | The same for editing: exactly one message gets the content and the links of that content. |
| ThreadEffects.LinksAreExact | opencontractserver/utils/mention_parser.py:192-267 | The links are the first document found for the slugs mentioned, every visible annotation with a mentioned id unless one id is no key, and every agent at hand with a mentioned slug; no others. |
| ThreadEffects.DeleteMessageExactly | config/graphql/conversation_mutations.py:893-929 | Deleting succeeds if and only if the message is there, not deleted and visible, and the user may delete it or moderates its thread; exactly its deletion time changes, and locks play no part. |
| ThreadEffects.DeleteConversationExactly | config/graphql/conversation_mutations.py:814-850 | The same for a thread; its messages stay. |
| ThreadEffects.DeletionsWereAllowed | config/graphql/conversation_mutations.py:905-925 | Over every run, a message that became deleted was deleted by a step that named it, for a user who saw it then and might delete it or moderated its thread. |
| ThreadEffects.ThreadDeletionsWereAllowed | config/graphql/conversation_mutations.py:826-847 | The same for threads. |
| ThreadEffects.MessagesWerePlaced | config/graphql/conversation_mutations.py:384-583 | Over every run, each new message was put where it is by a step of its author, who reached the place, and the message replied to, while the thread was not locked. |
| ThreadSafety.StepKeepsValid | config/graphql/conversation_mutations.py:541-547 | Every step keeps replies in their parent's thread and behind it. |
| ThreadSafety.RowsStay | config/graphql/conversation_mutations.py:845-847 | Over every run no row disappears, and a message keeps thread, parent and author. |
| ThreadSafety.LockedThreadIsFrozen | config/graphql/conversation_mutations.py:404-418 | Over every run without an unlocking, a locked thread gets no message and none of its messages changes content or links. |
| ThreadSafety.DeletedMessageIsFrozen | config/graphql/conversation_mutations.py:700-706 | Over every run without its restoration, a deleted message stays deleted and keeps content and links. |
| ThreadSafety.ChangesAreEdits | config/graphql/conversation_mutations.py:678-730 | Over every run, a changed message was edited by a step that was allowed at that moment. |
| ThreadSafety.LinksFollowContent | config/graphql/conversation_mutations.py:708-735 | Over every run, each message links only what its present content mentions, and nothing if that cannot be read. |
| ThreadSafety.ForestGrows | config/graphql/conversation_mutations.py:541-547 | Replies form a forest that only grows new leaves: roots and depths stay over every run. |
| Relationships.CountTestIsExact | config/graphql/annotation_mutations.py:1473-1482 | Comparing the number of rows found with the number of keys asked for holds if and only if every one is visible. |
| Relationships.TextTestIsExact | config/graphql/annotation_mutations.py:1726-1755 | Comparing printed keys with the texts asked for holds if and only if every one is visible and every text is written as its key prints. |
| Relationships.PaddedIdTellsMutationsApart | config/graphql/annotation_mutations.py:1726-1755 | So the mutations differ: the key `07` of a visible annotation is accepted when adding a relationship and refused when updating one. |
| Relationships.Store.AddRelationship | config/graphql/annotation_mutations.py:1453-1529 | Succeeds if and only if every id is good, every annotation visible and the place allowed; then both sides are exactly the annotations asked for. |
| Relationships.Store.UpdateRelationship | config/graphql/annotation_mutations.py:1707-1793 | Follows the specification of updating, partial writes included. |
| Relationships.UpdateIsExact | config/graphql/annotation_mutations.py:1713-1785 | An update succeeds if and only if the relationship may be updated, additions are visible and canonical, and removals are numbers; then each side is (old plus added) minus removed, and nothing else changes. |
| Relationships.UpdateKeepsExactly | config/graphql/annotation_mutations.py:1742-1793 | An update leaves the store as it was if and only if it is refused at once or with its first additions, or every list it handles before its end or its failure moves nothing: what it adds is there or removed, and nothing there is removed. |
| Relationships.RefusedUpdateCanWrite | config/graphql/annotation_mutations.py:1742-1760 | Whenever a visible annotation that is not yet a source comes with a target that is not visible, the update is refused and the source is attached. |
| Relationships.Store.RemoveRelationship | config/graphql/annotation_mutations.py:1606-1636 | Deletes a relationship that is seen and may be deleted. |
| Relationships.Store.RemoveRelationships | config/graphql/annotation_mutations.py:1662-1675 | The loop deletes up to the first id that cannot be deleted. |
| RelationshipEffects.AddIsExact | config/graphql/annotation_mutations.py:1453-1529 | Adding succeeds if and only if all five kinds of ids can be read, every source and target is visible, and corpus, document and label are allowed; then the key is new, an annotation is a source or a target if and only if an id of that list reads as it, creator, label, corpus and document are as given, and every other row stays. A refusal leaves the store as it was. |
| RelationshipEffects.UpdateExactly | config/graphql/annotation_mutations.py:1707-1793 | What an update leaves on each side and answers in every case, list by list up to the first that is not as it should be. |
| RelationshipEffects.RemoveIsExact | config/graphql/annotation_mutations.py:1606-1636 | Removing succeeds if and only if the relationship is there, seen and deletable; exactly it goes. |
| RelationshipEffects.RemoveManyIsExact | config/graphql/annotation_mutations.py:1662-1675 | Exactly the relationships named before the first id that cannot go are removed, and the answer says why it stopped. |
| Relationships.RemovesLongestPrefix | config/graphql/annotation_mutations.py:1663-1675 | Exactly the longest prefix of ids that are still there and deletable is deleted, one row for each, and success means the whole list. |
| Relationships.KeysAreNotReused | config/graphql/annotation_mutations.py:1515-1520 | Over every run, a key once removed does not come back, and a relationship keeps its creator, label, corpus and document while it exists. |
| RelationshipEffects.AttachedWasVisible | config/graphql/annotation_mutations.py:1463-1482 | Over every run, whatever is attached to a relationship was attached by a step that named it among the additions to that side, for a user who might change that relationship and saw the annotation, and has stayed attached since. |
| RelationshipEffects.GoneWasRemoved | config/graphql/annotation_mutations.py:1606-1675 | Over every run, a relationship that is gone was removed by a step that named it, for a user who saw it and might delete it. |
| LeastPrivilege.PrivilegeIsExact | config/graphql/automation.py:166-189 | A root field is permitted if and only if it is listed, the credential, if there is one, holds every scope its arguments call for, a bound credential is used on a corpus it is bound to and installs no pack, and the user has the role. |
| LeastPrivilege.InstallNeeds | config/graphql/automation.py:185-189 | With the tables of the source: installing a pack takes an unbound credential of a superuser with three scopes, and a fourth if and only if it publishes. |
| LeastPrivilege.BoundCredentialsReach | config/graphql/automation.py:40-83 | With the tables of the source: a credential bound to some corpuses reaches six root fields only. |
| DeployedPolicy.ReadersNeverMutate | config/graphql/automation.py:40-83 | With the tables of the source, a credential with read scopes only is permitted no mutation. |
| DeployedPolicy.CorpusHasNoEdges | config/graphql/automation.py:112-148 | With the tables of the source, nothing object-valued can be read below a corpus. |
| ThreadSafety.RefusalChangesNothing | config/graphql/conversation_mutations.py:625-771 | A refused mutation changes nothing. |
| Routes.BaseGoesInFront | cloudflare-og-worker/src/parser.ts:129 | A base URL goes in front, with one trailing slash dropped. |
| Invariance.BoundCallerIsConfined | opencontractserver/users/services/automation_credentials.py:340-348 | A credential bound to some corpuses is permitted only root fields whose corpus argument names one of them, and never `installAuthorityPack`. |

## Left out

- OperationSafety.PolicyIsExact: listed root fields and edges must lead to object types, as those of the source do (`DeployedSchema.EdgesAreConcrete`); `OperationSafety.AbstractEdgeLeaks` shows why this is needed.
- OperationSafety.PolicyIsExact: holds where the document has no fragment variables and the schema has the root type; otherwise the policy denies, without any field being reached.
- Executor.SelectionsStayInside: `@defer`, assembling the response and propagating nulls are not modelled; they resolve no further fields. Neither are failures of coercing arguments, which raise before the resolver.
- AutomationExtension.ExecutionContext.OnExecute: coercing the variables of a request is a parameter, and a variable in `@skip` or `@include` is taken to have been coerced to a boolean.
- DeployedSchema.DeployedPolicyIsExact: of the schema of the source only the types of the listed fields are written down; the schema is any one that agrees with them.
- CheckCost.WalkIsPolynomial: the cost is the number of selections looked at; evaluating directives, coercing arguments and validation before the walk are not counted.
- Invariance.BoundCallerIsConfined: keys of corpuses are written in ASCII digits; `str.isdigit` accepts other digits as well, which the model does not take for a key.
- FlatTree.ForestIsPreserved: global ids are an injective function; ids are integers, and a parent link of 0 counts as none, as in the source.
- Changelog.File.Apply: reading and writing the file and its line ends, finding and deleting fragment files, and `render` (a preview of the same blocks) are not part of this model.
- Payloads.ValidatePayload: norms are compared by their squares, for bounds that are not negative; vectors, mean norm and numbers as floating point are not modelled.
- Trials.ExecuteTrial: wall time, throughput and cancelling the other requests after a failure are not modelled.
- Percentiles.PercentileIsMonotone: reals in place of floating point; the percentile is in [0, 1], as at both calls.
- Dataset.Generate: the vocabulary is any 64 words and the random draws are a parameter.
- Batching.TargetIsLeast: exact division in place of floating point division and `math.ceil`.
- Batching.RunSucceedsExactly: an endpoint answers each request of a run by itself; that answers depend on what else is under way is not modelled.
- Batching.BenchmarkPair: there is at least one sample; with none the source divides by zero.
- Integers.ShownParses: decimal digits outside ASCII and the limit on the length of numerals are not modelled.
- EscapeHtml.DescriptionReadsBack: characters are whole; cutting a surrogate pair in half is not modelled.
- PercentDecoding.DecodingShortens: a decoded character outside the basic plane counts as one character, not as two code units.
- Headers.SecurityHeadersMiddleware.Call: drawing the token and the rest of the application are parameters; header names are compared as written.
- PermissionsPolicy.PolicyRoundTrip: the reader knows inner lists of tokens and strings; members that are no lists, other items and parameters are read as failures.
- Threads.Store.UpdateMessage: an error in reading mentions that the source does not expect, agent responses, rate limits, and failures of the database are not modelled.
- ThreadSafety.LinksFollowContent: slugs of documents and agents keep their meaning during a run; which of them exist and are visible may change.
- ThreadSafety.RowsStay: deleting a user or a corpus, which deletes rows with it, is not a step.
- Relationships.Store.UpdateRelationship: failures of the database and the rollback of a request that raises are not modelled.
- RelationshipEffects.AttachedWasVisible: of runs of adding, updating and removing relationships; the bulk mutation `UpdateRelations`, which sets both sides without a visibility test (`config/graphql/annotation_mutations.py:1860-1892`), is not a step.
- Saving a message to the workspace, badges, the telemetry client and the comparison of endpoints (`cosine_similarity`, backend metadata) are left out.
