# Armory: a verified model of its stores, compilers and editors

A Dafny model of the parts of Armory whose behaviour is hardest to see from one function: the
artifact store with its per-user quota, the pipeline language with its graph ranker and its
decompiler, the step form with its tokenizer and its nested requests, the role editor, the run
diagram, and three smaller algorithms (registry retention, column layout, step conversion). Each
module follows one component of the repository; imperative code is an imperative method or a class
with fields, proved against a specification function or predicate, and the lemmas beside it state
what the component promises.

`dafny verify dfyconfig.toml` checks everything.

## How the modules fit

| component | modules |
|---|---|
| artifact service | `BlobStore`, `ArtifactService`, `ArtifactHistory`, `QuotaBound`, `QuotaAttained`, `QuotaArithmetic` |
| pipeline text | `PipelineDsl`, `PipelineParser`, `PipelineRegions`, `PipelineCompiler`, `PipelinePrinter`, `PipelineEditing`, `PipelineLosses` |
| routes and stages | `Graph`, `Ranks`, `StageOrder`, `RunStages`, `RunDiagram` |
| step form | `CommandLine`, `EnvTokens`, `EnvTrim`, `EnvAssignments`, `StepFields`, `StepForm`, `StepRoundTrip`, `StepContents`, `Substitution` |
| editors and commands | `RoleEditor`, `StepConversion` |
| housekeeping and layout | `Retention`, `ColumnLayout` |
| shared | `Options`, `Totals`, `Int64`, `Numerals`, `Text`, `JsonValues`, `FreshIds`, `Network` |

## What turned out not to hold

Where a documented or expected property fails, the code is modelled as it is, the property is proved
exactly where it holds, and a lemma gives an input on which it fails.

- **Quota under concurrency.** An upload reads the user's total and the size it replaces in two
  separate queries. With at most k uploads in flight, at most m of them of one name, the stored total
  stays within k caps whatever the interleaving exactly when k <= 1, m <= 1 or the cap is nothing
  (`QuotaBound.QuotaHoldsExactly`). Two uploads of one name are enough to pass any multiple of the cap
  (`QuotaBound.NoBoundForOneName`), unless none grows the row of a name that another stands between its
  two reads for (`QuotaBound.QuotaHoldsUnderConcurrency`). A run of different names attains k caps
  (`QuotaAttained.BoundIsAttained`).
- **Every row has a blob.** It fails exactly after a save that takes its blob away while the name has a
  row: a replace whose lookup and record step failed, or a first save whose row was recorded and the reply
  lost (`ArtifactHistory.RowsHaveBlobsExactly`); one or two saves under a small cap get there
  (`ArtifactHistory.MisreadIsPossible`, `ArtifactHistory.LostReplyStrands`). A delete whose reply is lost
  leaves a blob without a row (`ArtifactHistory.LostReplyOrphans`).
- **A write limit of 2^63 - 1** makes the copy limit negative: a body of any size is accepted and an
  empty blob is stored (`BlobStore.ContractDecides`); the largest cap of 64 bits gets there
  (`ArtifactService.LargestCapStoresNothing`).
- **A quota of 2^43 megabytes** or more wraps, and a cap that wrapped to a negative number can admit
  uploads instead of refusing them (`QuotaArithmetic.NegativeCapAdmits`).
- **Equal rank precisely when concurrent.** It holds exactly for graphs in which every node leads
  straight to every node of the next rank (`Graph.RankIsConcurrencyExactly`,
  `Ranks.StagesAreConcurrencyExactly`), and fails on a graph with one edge and a loose node
  (`Graph.UnequalRanksUnreachable`). Compiled pipelines are such graphs (`StageOrder.StageIsConcurrency`).
- **Decompiling ranked steps** loses map regions, and takes a lone parallel group apart, and nothing else
  of a compiled pipeline (`PipelinePrinter.DecompileRecompile`, `PipelineLosses.MapRegionIsLost`,
  `PipelineLosses.LoneGroupComesApart`). This is about the printer with ranks, which the edit form does not
  give it.
- **The pipeline edit form** prints steps without ranks, so that a compiled pipeline opens and saves as the
  same references and routes exactly when it has no map region and every stage has one step
  (`PipelineEditing.OpenAndSave`, `PipelineLosses.ForkComesApart`). Any stored pipeline that it accepts is
  saved as the same pipeline exactly when its routes are those of a sequence, it declares no inputs,
  outputs, map regions or loops, and every step survives (`PipelineEditing.EditPipelineExactly`): it can be
  written, its shown name is its own step's, its override holds nothing beside the secret references that
  the stored step does not hold, and it uses no map region, loop, scatter, permissions or leave to pass
  unresolved references on (`PipelineEditing.StepSurvivesExactly`, `PipelineLosses.AllowUnresolvedIsLost`,
  `PipelineLosses.OccurrenceBecomesAnother`, `PipelineLosses.EnvironmentIsLost`).
- **Environment tokens** do not survive control characters in quoted values, nor backslashes in
  unquoted ones, except at the very end (`EnvTokens.EnvRoundTripsExactly`, `EnvTokens.BackslashIsLost`).
  In the form, white space that starts the first key or ends an unquoted last value is trimmed off as
  well (`EnvTrim.TrimmedRoundTripsExactly`, `EnvTrim.LineBreakIsLost`).
- **A required list of separators only** is accepted, and its own edit form is refused
  (`StepRoundTrip.SeparatorsAreLost`, `StepRoundTrip.SeparatorsAreAccepted`).
- **A test value** can take part in a reference that was not there, or break one. It is harmless in every
  text exactly when it is not empty, does not end in "$", and every "{" that starts it or follows a "$"
  in it is closed around nothing but blanks (`Substitution.HarmlessExactly`); an empty one can create a
  reference (`Substitution.EmptyValueMakesRef`).
- **convert-step and localize-step** drop what the command line's reference type has no field for
  (loop membership, allowed unresolved references, declared permissions, a shared scatter base, leave for
  a matrix to be empty) from every step of the pipeline, and a scatter from the step they touch
  (`StepConversion.ConvertPreservesExactly`, `StepConversion.LocalizePreservesExactly`,
  `StepConversion.RewriteDropsPermissions`, `StepConversion.RewriteDropsAllowEmpty`). A timeout on a
  stored reference is never in force at the server, so losing it changes nothing.

## Model

| member | source | states |
|---|---|---|
| `QuotaBound.QuotaHoldsUnderConcurrency` | src/systems/artifacts/api_artifacts.go:135-187 | over every interleaving of uploads, replaces, deletes, quota changes and failures with at most k uploads in flight and no cap above M, the stored total never exceeds k·M, as long as no upload grows the row of a name that another one stands between its two reads for |
| `QuotaBound.QuotaHoldsExactly` | src/systems/artifacts/api_artifacts.go:135-187 | for all k, m and M, with no assumption on the reads: every run with at most k uploads in flight, at most m of one name, stores at most k·M exactly when k <= 1, m <= 1 or M = 0 |
| `QuotaAttained.BoundIsAttained` | src/systems/artifacts/api_artifacts.go:135-187 | for every k and M a run with k uploads of different names in flight stores exactly k·M |
| `QuotaBound.QuotaHoldsSequentially` | src/systems/artifacts/api_artifacts.go:140-158 | with one upload in flight at a time the stored total never exceeds the largest cap, with no further assumption |
| `QuotaBound.NoBoundForOneName` | src/systems/artifacts/api_artifacts.go:140-154 | two uploads of one name in flight admit a run whose total is any multiple of the cap |
| `QuotaBound.StepKeepsCovered` | src/systems/artifacts/api_artifacts.go:135-187 | every step that keeps rows steady keeps the invariant that any set of measured uploads could finish with all they may store within k caps |
| `QuotaBound.UninterruptedUpload` | src/systems/artifacts/api_artifacts.go:135-187 | any size up to the headroom can be recorded by an upload that runs alone, leaving every other row as it was |
| `BlobStore.ContractDecides` | src/systems/artifacts/store.go:79-96 | under the write contract the outcome depends on size and limit alone, and the whole body is stored exactly when the limit is below 2^63 - 1 or the body is empty |
| `BlobStore.ScratchDir.StageBlob` | src/systems/artifacts/store.go:97-124 | at most limit + 1 bytes are read; success leaves one new file with the whole accepted body, its size and digest; over quota and errors leave no file |
| `BlobStore.FsStore.Write` | src/systems/artifacts/store.go:135-152 | the file backend meets the write contract: a full success, a refusal or an error that leaves the old blob, and no temporary file in any case |
| `BlobStore.FsStore.Remove` | src/systems/artifacts/store.go:158-164 | removes the one blob or leaves the store as it was |
| `BlobStore.S3Store.Write` | src/systems/artifacts/store_s3.go:68-94 | the object backend meets the same write contract |
| `BlobStore.S3Store.Remove` | src/systems/artifacts/store_s3.go:113-121 | removes the one object or leaves the store as it was |
| `ArtifactService.Service.Usage` | src/systems/artifacts/db.go:124-133 | the sum of the sizes of exactly the user's rows |
| `ArtifactService.Service.Measure` | src/systems/artifacts/api_artifacts.go:140-154 | the headroom is the cap less all rows but the one being replaced, and a failed lookup reads as a first save |
| `ArtifactService.HeadroomMeaning` | src/systems/artifacts/api_artifacts.go:140-154 | with a cap that did not wrap and usage within 64 bits the headroom is exact and at most the cap |
| `ArtifactService.Service.WriteAndRecord` | src/systems/artifacts/api_artifacts.go:167-213 | rows and blobs change as the outcome of each step says, a lost reply included; a save that did not see itself as a replace takes its blob away when its row is not answered for |
| `ArtifactService.Service.RecordRow` | src/systems/artifacts/db.go:91-118 | the row is replaced unless the call is refused, and only an answered call reports success |
| `ArtifactService.Service.HandleUpload` | src/systems/artifacts/api_artifacts.go:101-221 | the blob is written exactly when name, cap and headroom allow it, limited to the headroom, whatever the cap; a recorded save leaves the user within the override, or within the default cap without one; a save without faults is created exactly when its body fits beside the user's other rows under that number; each status says which step ended the request |
| `ArtifactService.RecordedWithin` | src/systems/artifacts/api_artifacts.go:135-187 | whatever the lookup answered, a recorded save leaves the user's rows within the bytes it was measured against |
| `ArtifactService.NamesAccepted` | src/systems/artifacts/store.go:44-67 | accepted names are one to two hundred letters, digits, dots, underscores and dashes, begin with a letter or digit, and have no two dots in a row |
| `ArtifactService.Service.HandleDelete` | src/systems/artifacts/api_artifacts.go:224-258 | the row goes first, a failed blob removal still succeeds, a delete of the row that is not answered ends the request, and each status says whether there was a row and whether its going was answered |
| `ArtifactService.Service.DeleteRow` | src/systems/artifacts/db.go:119-122 | the row goes unless the call is refused, and only an answered call reports success |
| `ArtifactService.PrevWithinUsage` | src/systems/artifacts/api_artifacts.go:145-154 | the size being replaced is part of the usage |
| `ArtifactService.LargestCapStoresNothing` | src/systems/artifacts/api_artifacts.go:154-187 | under a cap of 2^63 - 1 a first save of any body is accepted and stores an empty blob |
| `ArtifactHistory.RowKeepsBlobUnlessStranded` | src/systems/artifacts/api_artifacts.go:148-213 | a request keeps "every row has a blob" exactly when it is no save that takes its blob away while its name has a row |
| `ArtifactHistory.RowsHaveBlobsExactly` | src/systems/artifacts/api_artifacts.go:148-213 | over any run of requests, with any failures and lost replies of the database, every row has a blob throughout exactly when no save strands a row: no misread replace, and no first save recorded with the reply lost, has its blob removed |
| `ArtifactHistory.MisreadIsPossible` | src/systems/artifacts/api_artifacts.go:148-213 | two saves the handler can receive under a cap of ten bytes leave a row without a blob |
| `ArtifactHistory.LostReplyStrands` | src/systems/artifacts/api_artifacts.go:187-213 | one first save under a cap of ten bytes, recorded with the reply lost, leaves a row without a blob |
| `ArtifactHistory.RowAndBlobOrigins` | src/systems/artifacts/api_artifacts.go:182-213 | over any run a row describes the last recorded save of its name, its blob, if it has one, is the last stored content, and the two differ only after a save whose row was refused |
| `ArtifactHistory.RowMatchesBlobUnlessStale` | src/systems/artifacts/api_artifacts.go:187-213 | size and digest of a row match its blob once every refused record step is followed by a recorded save or delete of that name |
| `ArtifactHistory.OrphansExactly` | src/systems/artifacts/api_artifacts.go:187-257 | over any run a blob has no row exactly when some request left it behind (a refused first save or a delete whose removal failed, or a delete whose reply was lost) and no later save recorded or removed it |
| `ArtifactHistory.LostReplyOrphans` | src/systems/artifacts/api_artifacts.go:240-257 | a delete whose row goes with the reply lost leaves a blob without a row, though no removal failed |
| `ArtifactHistory.SaveIsARun` | src/systems/artifacts/api_artifacts.go:135-187 | a recorded save of the handler is an uninterrupted run of the concurrent machine, under the user's override or the default cap, ending in the handler's rows |
| `QuotaArithmetic.MegabytesExactly` | src/systems/artifacts/api_quotas.go:182-186 | megabytes times 2^20 is the 64-bit wrap of the product, exact exactly below 2^43, and then not negative |
| `QuotaArithmetic.ResolveMaxExactly` | src/systems/artifacts/api_quotas.go:173-190 | a request is accepted exactly when it names one unit with a non-negative amount; a megabyte request means its exact byte count exactly below 2^43 |
| `QuotaArithmetic.DefaultQuotaBytes` | src/systems/artifacts/main.go:84-94 | the default cap is the configured or built-in megabytes in bytes, the built-in one for every invalid setting, exact below 2^43 megabytes and wrapped to 64 bits from there on |
| `QuotaArithmetic.HeadroomExact` | src/systems/artifacts/api_artifacts.go:154 | with the replaced size inside the usage the headroom neither overflows nor exceeds the cap |
| `QuotaArithmetic.HeadroomAcrossReads` | src/systems/artifacts/api_artifacts.go:140-154 | with a replaced size above the usage read before, the headroom exceeds the cap exactly until it passes 2^63 - 1 |
| `QuotaArithmetic.NegativeCapAdmits` | src/systems/artifacts/api_artifacts.go:154 | a cap that wrapped to a negative number admits an upload exactly when the subtraction passes below the 64-bit range |
| `QuotaArithmetic.WrappedCapAdmitsAll` | src/systems/artifacts/api_quotas.go:182-186 | a request for 2^43 megabytes is such a cap, and beside one stored byte it admits anything up to 2^63 - 1 |
| `Graph.RankingIsLongest` | src/cli/cmd/ci_tui.go:184-195 | a ranking is the longest-path length of every node, exists only without cycles, and rises along every path |
| `Graph.RankIsConcurrencyExactly` | src/cli/cmd/ci_tui.go:184-195 | for every ranked graph, sharing a rank means running concurrently, for all nodes, exactly when every node leads straight to every node of the next rank |
| `Graph.WaitingIsCyclic` | src/cli/cmd/ci_tui.go:196-244 | nodes that all wait for one another contain a cycle |
| `Graph.UnequalRanksUnreachable` | src/cli/cmd/ci_tui.go:184-188 | a graph that is not layered: two of its nodes cannot reach each other and differ in rank |
| `Ranks.TuiRanks` | src/cli/cmd/ci_tui.go:196-244 | terminates; no routes mean a sequence; otherwise no ranks exactly when the resolvable routes contain a cycle, and each rank is the longest path ending there |
| `Ranks.StagesAreConcurrencyExactly` | src/cli/cmd/ci_tui.go:184-244 | the same of the ranker's own answer on a pipeline with routes |
| `Ranks.Kahn` | src/cli/cmd/ci_tui.go:219-243 | the queue empties with every node finished exactly on acyclic graphs, and then ranks support each other edge by edge |
| `Ranks.BuildGraph` | src/cli/cmd/ci_tui.go:204-218 | edges are exactly the routes both of whose ends are steps, and in-degrees count them |
| `Ranks.LastOfName` | src/cli/cmd/ci_tui.go:204-212 | a name that several steps have stands for the last of them |
| `PipelineDsl.SplitTopLevel` | src/cli/cmd/ci.go:192-216 | computes the specified split, errors included |
| `PipelineDsl.SplitExactly` | src/cli/cmd/ci.go:189-216 | splitting succeeds exactly on balanced text, and the pieces are the only list of balanced texts without an outer arrow that arrows join to the input |
| `PipelineDsl.SplitOfJoin` | src/cli/cmd/ci.go:192-216 | every list of such pieces is what its joined text splits into |
| `PipelineDsl.CleanMeaning` | src/cli/cmd/ci.go:192-216 | the one-pass check of a piece is the same as balance and the absence of outer arrows |
| `PipelineParser.ParsePipeline` | src/cli/cmd/ci.go:260-330 | computes the specified parse, the first error winning |
| `PipelineParser.ParsePiece` | src/cli/cmd/ci.go:266-325 | one segment: a bare step, a group, or a bracketed body with its map region |
| `PipelineParser.ParsedIsPrintable` | src/cli/cmd/ci.go:222-330 | every step of accepted text can be written back as text the parser reads the same |
| `PipelineParser.RereadStage` | src/cli/cmd/ci.go:228-239 | a printed stage is one clean segment that parses to exactly that stage |
| `PipelineParser.RereadPipeline` | src/cli/cmd/ci.go:260-330 | printed stages joined by arrows parse back to those stages |
| `PipelineRegions.RereadRegion` | src/cli/cmd/ci.go:289-322 | for every body of printable steps and every name of letters, digits, dots, underscores and dashes, the bracket with that suffix is one map region of that body and that name |
| `PipelineRegions.BracketExactly` | src/cli/cmd/ci.go:280-322 | a bracketed body is accepted alone exactly when it has two steps, and with a suffix exactly when that is an asterisk and a name; it is then read as its stages |
| `PipelineRegions.RereadNodes` | src/cli/cmd/ci.go:260-330 | every sequence of steps, groups, bracketed sequences and map regions is what its text is read as |
| `PipelineRegions.RegionResolved` | src/cli/cmd/ci.go:354-371 | every reference compiled from a map region is in the region of that name |
| `PipelineRegions.BareParallelRefused` | src/cli/cmd/ci.go:270-279 | parallel steps without a bracket are refused |
| `PipelineCompiler.RepoRoundTrip` | src/cli/cmd/ci.go:105-131 | wrapping a repository and reading it back gives the repository |
| `PipelineCompiler.RepoReadExactly` | src/cli/cmd/ci.go:95-131 | a configuration names a repository exactly when its secret references are that repository's clone URL and nothing else |
| `PipelineCompiler.DslToRefs` | src/cli/cmd/ci.go:354-391 | references in order with the first unknown name as error, and the routes between stages |
| `PipelineCompiler.RoutesCrossStages` | src/cli/cmd/ci.go:374-389 | whatever the segments, a route exists exactly from each step of a flattened stage to each step of the next |
| `PipelineCompiler.CompiledIsStaged` | src/cli/cmd/ci.go:354-391 | accepted text with distinct names compiles to routes staged by its flattened brackets |
| `StageOrder.ReachabilityIsStageOrder` | src/cli/cmd/ci.go:354-391 | one step reaches another through the routes exactly when its stage is earlier, and no routes form a cycle |
| `StageOrder.StageIsConcurrency` | src/cli/cmd/ci.go:354-391 | steps of a compiled pipeline are in one stage precisely when neither reaches the other, as its graph is layered |
| `StageOrder.RanksAreStages` | src/cli/cmd/ci_tui.go:196-244 | with two or more stages, or one step, the ranker returns each step's stage index |
| `StageOrder.LoneStageReadsAsSequence` | src/cli/cmd/ci_tui.go:198-203 | a lone group has no routes, so its steps are ranked as a sequence |
| `PipelinePrinter.StepsToDsl` | src/cli/cmd/ci_tui.go:1162-1183 | computes the printed text, one segment per run of equal stages |
| `PipelinePrinter.CompiledIsExpressible` | src/cli/cmd/ci_tui.go:1133-1154 | every compiled step passes the edit form's check, in a map region too, and prints as its own token |
| `PipelinePrinter.ExpressibleWithExactly` | src/cli/cmd/ci_tui.go:1133-1147 | a configuration the check accepts is what the language can write exactly when it holds nothing beside the secret references |
| `PipelinePrinter.PrintedStages` | src/cli/cmd/ci_tui.go:1149-1183 | steps ranked by stage print as their stages |
| `PipelinePrinter.DecompileRecompile` | src/cli/cmd/ci_tui.go:1149-1183 | for all accepted text with distinct known names the text printed for the ranked steps compiles again, to the same references and set of routes exactly when there is no map region and the pipeline is not one lone group |
| `PipelineEditing.OpenAndSave` | src/cli/cmd/ci_tui.go:1052-1125 | for all accepted text with distinct known names the form's text compiles again, to the same references and set of routes exactly when there is no map region and every stage has one step |
| `PipelineEditing.EditPipelineExactly` | src/cli/cmd/ci_tui.go:1052-1125 | for every stored pipeline that the form accepts, saving it untouched stores the same pipeline exactly when its routes are those of a sequence, it declares nothing beside its steps, and every step can be written and survives |
| `PipelineEditing.StepSurvivesExactly` | src/cli/cmd/ci_tui.go:1133-1155 | a stored reference that the form accepts, read back as the token it was printed as, is the same step with the same effect exactly when its shown name is its own step's, its override adds nothing beside the secret references, and it uses nothing that the text has no place for |
| `PipelineEditing.StoredRuns` | src/systems/workflows/db.go:463-497 | a stored reference is shown with its own name or its step's, and with its step's configuration overridden by its own, as the server runs it |
| `PipelineEditing.OpenedExactly` | src/cli/cmd/ci_tui.go:1114-1147 | the form opens exactly the pipelines without gates, inline steps and matrices in which every configuration is empty or names a repository |
| `PipelineLosses.EnvironmentIsLost` | src/cli/cmd/ci_tui.go:1133-1155 | an accepted reference with a repository and an environment is saved without the environment |
| `PipelineLosses.AllowUnresolvedIsLost` | src/cli/cmd/ci_tui.go:159-174 | an accepted reference that may pass unresolved references on is saved without that leave |
| `PipelineLosses.OccurrenceBecomesAnother` | src/cli/cmd/ci.go:354-370 | an occurrence of one step under the name of another is saved as the other |
| `PipelineLosses.ForkComesApart` | src/cli/cmd/ci_tui.go:1097-1125 | "a->[b,c]" is saved with the same references and other routes |
| `PipelineLosses.LoneGroupComesApart` | src/cli/cmd/ci_tui.go:1149-1183 | "[a,b]" prints as "a->b", which has a route the group had not |
| `PipelineLosses.MapRegionIsLost` | src/cli/cmd/ci_tui.go:1149-1183 | "[a]*m" prints as "a", which is in no map region |
| `CommandLine.ParseCommandLine` | src/cli/cmd/forge_tui.go:642-688 | computes the tokenizer automaton, with the unterminated quote as error |
| `CommandLine.WrittenLineReads` | src/cli/cmd/forge_tui.go:639-688 | any arguments, each written bare, in single quotes, in double quotes or with backslashes, with any blanks and tabs between them, are what the line is read as |
| `CommandLine.SingleQuotes` | src/cli/cmd/forge_tui.go:639-663 | between single quotes every character stands for itself, a backslash included |
| `CommandLine.DoubleQuotes` | src/cli/cmd/forge_tui.go:652-663 | between double quotes a backslash hands on the next character, and every text can be written so |
| `CommandLine.Slashes` | src/cli/cmd/forge_tui.go:667-670 | outside quotes a backslash hands on the next character, whatever it is |
| `CommandLine.UnclosedIsError` | src/cli/cmd/forge_tui.go:681-683 | a quotation that is not closed is the error |
| `EnvTokens.ParseEnvTokens` | src/cli/cmd/steps_schema.go:466-480 | computes the specified environment, a later assignment of a key winning, the first token without "=" as error |
| `EnvTokens.FormatEnvTokens` | src/cli/cmd/steps_tui.go:862-881 | computes the specified text, quoting exactly the values with blanks or quotes |
| `EnvTokens.ShownExactly` | src/cli/cmd/steps_tui.go:872-878 | a value is quoted exactly when it has a blank, a tab or a quote |
| `EnvTokens.EscapeExactly` | src/cli/cmd/steps_tui.go:875 | inside quotes, quotes and backslashes stand behind a backslash, printable characters as they are, control characters by their letter |
| `EnvTokens.HexEscapes` | src/cli/cmd/steps_tui.go:875 | other characters are written in hexadecimal, in two, four or eight digits |
| `EnvTokens.EnvRoundTripsExactly` | src/cli/cmd/steps_tui.go:858-881 | for keys without "=", blanks, quotes and backslashes, in any order, printing and parsing gives the same environment exactly when every value survives |
| `EnvTokens.BackslashIsLost` | src/cli/cmd/steps_tui.go:862-881 | an environment whose value comes back without its backslash |
| `EnvTrim.TrimmedRoundTripsExactly` | src/cli/cmd/steps_schema.go:233-270 | for the same keys, as the text of a field, which is trimmed, the environment comes back exactly when every value survives and trimming takes nothing off the first key or the last value |
| `EnvTrim.LineBreakIsLost` | src/cli/cmd/steps_schema.go:233-270 | a value that survives in the text and is trimmed in the field |
| `EnvTokens.LexFormat` | src/cli/cmd/forge_tui.go:642-688 | whatever the values, printed text reads as tokens that begin with the printed keys |
| `EnvAssignments.ParseEnvAssignments` | src/cli/cmd/forge_tui.go:692-709 | computes the specified environment, none for a blank text, the first token without a named key as error |
| `EnvAssignments.AssignmentsExactly` | src/cli/cmd/forge_tui.go:692-709 | the command form accepts exactly the blank texts and those the step form accepts without an empty key, and both read the same environment |
| `StepFields.SplitList` | src/cli/cmd/gatekeeper_role_editor.go:52-63 | the trimmed, non-empty words between separators, in order |
| `StepContents.ListReads` | src/cli/cmd/gatekeeper_role_editor.go:52-63 | items set apart by any commas, blanks, tabs and line ends are what is read |
| `StepFields.FormatList` | src/cli/cmd/steps_schema.go:377-392 | the strings of a stored list in order, joined by a comma and a blank, anything else dropped |
| `StepFields.VolumeRoundTrip` | src/cli/cmd/steps_schema.go:423-462 | showing an attachment and reading it back attaches the same volume in the same place |
| `StepFields.ListRoundTrip` | src/cli/cmd/steps_schema.go:375-392 | a list is read back as itself exactly when it has an item |
| `StepFields.FieldRoundTripsExactly` | src/cli/cmd/steps_tui.go:806-817 | a value of any kind, shown and read again, is the same exactly when nothing is lost: list items, characters of environment values, white space at the edges of the environment's text |
| `StepFields.SomeOrderly` | src/cli/cmd/steps_tui.go:862-881 | some way of printing lists every key once and takes no white space beyond ASCII for printable, as the lemmas about printing ask |
| `StepForm.BuildStepWith` | src/cli/cmd/steps_schema.go:231-301 | computes the specified object: typed fields, then the advanced ones that they do not set, then the action's default and nesting, the first error winning |
| `StepContents.BuiltFromTexts` | src/cli/cmd/steps_schema.go:109-280 | of the keys an action takes, exactly those that are filled in are typed, each with the value its text stands for |
| `StepContents.BuildSucceedsExactly` | src/cli/cmd/steps_schema.go:231-301 | a step can be built exactly when every needed key is filled in, every text has a value, and the advanced object is none or one |
| `StepContents.VolumeText` | src/cli/cmd/steps_schema.go:421-446 | the attachment of a volume text, with its defaults |
| `StepContents.BuildStepLayout` | src/cli/cmd/steps_schema.go:394-419 | where a finished build step has its keys |
| `StepContents.CloneStepLayout` | src/cli/cmd/steps_schema.go:307-323 | where a finished clone step has its keys |
| `StepContents.VolumeStepScope` | src/cli/cmd/steps_schema.go:287-294 | a volume is created for the run unless the advanced object says otherwise |
| `StepContents.UnknownNeedsObject` | src/cli/cmd/steps_schema.go:218-246 | without a schema a step is built exactly from an advanced object, which it is |
| `StepContents.DefaultScopeHidden` | src/cli/cmd/steps_tui.go:818-832 | the default scope of a volume is not shown, any other is |
| `StepContents.ShownExactly` | src/cli/cmd/steps_tui.go:784-881 | how values of every kind are shown, those that no field produces included |
| `StepForm.NestForgeBuild` | src/cli/cmd/steps_schema.go:397-419 | moves the build fields under one key and the registry secret among the references |
| `StepForm.NestForgeCheckout` | src/cli/cmd/steps_schema.go:311-323 | moves the checkout fields under one key and supplies a command that does nothing |
| `StepForm.FlattenStepWith` | src/cli/cmd/steps_schema.go:333-373 | computes the specified flat object for each action |
| `StepForm.StepEditValues` | src/cli/cmd/steps_tui.go:784-837 | computes the specified form: a text per typed field that is set, the rest in the advanced field |
| `StepRoundTrip.TypedFieldsWin` | src/cli/cmd/steps_schema.go:280-285 | for every known action the object that is finished has the typed entries and, under other keys only, the advanced ones |
| `StepRoundTrip.TypedFieldsPlaced` | src/cli/cmd/steps_schema.go:280-301 | for every known action, whatever the advanced object holds, every filled field's value is in the step, in its place |
| `StepRoundTrip.BuildRequestShape` | src/cli/cmd/steps_schema.go:394-419 | build fields are under `build` and nowhere else, the registry secret is one more secret reference, everything else stays |
| `StepRoundTrip.CheckoutRequestShape` | src/cli/cmd/steps_schema.go:307-323 | checkout fields are under `checkout` and nowhere else, and there is a command |
| `StepRoundTrip.FlattenBuild` | src/cli/cmd/steps_schema.go:333-419 | flattening a nested build request gives back exactly the flat fields |
| `StepRoundTrip.FlattenCheckout` | src/cli/cmd/steps_schema.go:311-348 | flattening a nested clone request gives back the flat fields with the default command, and nesting again the same request |
| `StepRoundTrip.TypedAgainExactly` | src/cli/cmd/steps_schema.go:231-280 | reading the shown fields gives the same entries exactly when every field keeps its value |
| `StepRoundTrip.EditThenSaveExactly` | src/cli/cmd/steps_tui.go:784-837 | for every known action, saving an unedited step gives the same object exactly when every list has an item, every environment value survives and trimming an environment's text takes nothing off it; advanced entries under the key of a field left empty count as its value |
| `StepRoundTrip.EditThenSave` | src/cli/cmd/steps_tui.go:784-837 | printable environment values and non-empty lists are enough for that |
| `StepRoundTrip.SeparatorsAreLost` | src/cli/cmd/steps_schema.go:256-276 | every build step whose destinations were read as an empty list is refused when it is opened and saved, as its destinations are then missing |
| `StepRoundTrip.SeparatorsAreAccepted` | src/cli/cmd/steps_schema.go:231-280 | a comma for the destinations makes such a step |
| `StepRoundTrip.UnknownActionExactly` | src/cli/cmd/steps_schema.go:218-225 | without a schema, saving an unedited step gives the same object exactly when it is not empty |
| `Substitution.StepWithRefs` | src/cli/cmd/steps_testrun.go:32-59 | reports exactly the references used anywhere in the object, each once, sorted |
| `Substitution.WalkValue` | src/cli/cmd/steps_testrun.go:36-53 | adds exactly the references used in a value of any depth |
| `Substitution.ResolvesByRefsOnly` | src/cli/cmd/steps_testrun.go:61-97 | the result depends only on the values of reported references and of the blank one |
| `Substitution.ResolveNothing` | src/cli/cmd/steps_testrun.go:64-97 | without values the object comes back unchanged |
| `Substitution.ResolvesExactly` | src/cli/cmd/steps_testrun.go:72-97 | with harmless values, at any depth, exactly the references without a value are left |
| `Substitution.RefsOfBaked` | src/cli/cmd/steps_testrun.go:72-85 | with harmless values the references left in a text are those without a value, in their order |
| `Substitution.SubstitutionIsComplete` | src/cli/cmd/steps_testrun.go:64-97 | when every reported reference has a harmless value none is left, at any depth |
| `Substitution.HarmlessExactly` | src/cli/cmd/steps_testrun.go:61-97 | a value fills in its own reference and changes no other, in every text, exactly when it is harmless: not empty, no "$" at its end, and every "{" that starts it or follows a "$" in it closed around nothing but blanks |
| `Substitution.BlankBracesAreHarmless` | src/cli/cmd/steps_testrun.go:27 | values with a closing brace or with braces around blanks are harmless, one that starts with an open brace is not |
| `Substitution.EmptyValueMakesRef` | src/cli/cmd/steps_testrun.go:72-85 | in a concrete text an empty value joins what is around it into a reference that was not there |
| `Numerals.IntRoundTrip` | src/cli/cmd/steps_tui.go:842-857 | a 64-bit integer printed and parsed is the same integer |
| `Numerals.ParseIntExactly` | src/cli/cmd/steps_schema.go:258-262 | digits, with or without a sign, are read as their decimal value exactly within 64 bits |
| `Numerals.DigitsValueExactly` | src/cli/cmd/steps_schema.go:258-262 | exactly runs of digits have a value: each digit weighs ten times the next, and leading zeros nothing |
| `Numerals.OnlyNumerals` | src/cli/cmd/steps_schema.go:258-262 | nothing else is read as an integer |
| `RoleEditor.Resolve` | src/cli/cmd/gatekeeper_role_editor.go:138-166 | one entry per id in order, a read-only stub for each permission that cannot be read |
| `RoleEditor.OpenedExactly` | src/cli/cmd/gatekeeper_role_editor.go:138-166 | a permission is opened with its record and editable exactly when it could be read |
| `RoleEditor.SavePermission` | src/cli/cmd/gatekeeper_role_editor.go:182-215 | creates, updates or skips one permission; a failure leaves the store as it was or with that one request carried out |
| `RoleEditor.SavePermissions` | src/cli/cmd/gatekeeper_role_editor.go:172-218 | on success every kept entry is stored under its id; on any outcome only changed entries of the list were touched, each only to what was asked, and every new record is what an added entry asked for |
| `RoleEditor.SavedContents` | src/cli/cmd/gatekeeper_role_editor.go:182-215 | every editable permission is stored under an id of the role, field by field as it was edited |
| `RoleEditor.Save` | src/cli/cmd/gatekeeper_role_editor.go:172-228 | on success the role is exactly the name and the ids; a failure reported before the role request leaves all roles as they were |
| `RoleEditor.SaveIsFaithful` | src/cli/cmd/gatekeeper_role_editor.go:138-228 | opening the saved role shows every edited permission in order, read-only ones under their id, unchanged ones untouched |
| `RoleEditor.UneditedSaveWritesNothing` | src/cli/cmd/gatekeeper_role_editor.go:175-216 | saving without an edit changes no permission and keeps the ids |
| `RoleEditor.UnreadableIsKept` | src/cli/cmd/gatekeeper_role_editor.go:138-216 | a permission that could not be read keeps its record and its place through every save |
| `RoleEditor.OpenedSavesUnchanged` | src/cli/cmd/gatekeeper_role_editor.go:138-228 | a role opened, readable or not, and saved as it is changes no record and keeps its ids in order |
| `Retention.Prunable` | infra/ci/prune-registry.go:201-230 | the plan of each image is the doomed part of a newest-first order of its unprotected versions, and images with nothing to delete are absent |
| `Retention.PlanIsTail` | infra/ci/prune-registry.go:180-230 | what stays and what goes make up the versions, newest first; between min(n, floor) and the limit stay; past the floor what stays is young enough and what goes is too old or past the limit |
| `Retention.PlanDecides` | infra/ci/prune-registry.go:201-230 | the plan is the end of a newest-first order of exactly the image's unprotected versions: a version goes exactly when it is past the limit, or past the floor under an age limit that it is older than |
| `Retention.NoAgeLimit` | infra/ci/prune-registry.go:171-220 | without an age limit exactly the versions past the limit go |
| `Retention.DefaultsKeepTen` | infra/ci/prune-registry.go:317-319 | with the tool's defaults an image of up to ten versions loses none |
| `Retention.PlanIgnoresOrder` | infra/ci/prune-registry.go:198-215 | without ties of time and version string, the listing order does not matter |
| `Retention.PlannedAreCandidates` | infra/ci/prune-registry.go:202-208 | protected versions are never planned |
| `Retention.ReplanDeletesNothing` | infra/ci/prune-registry.go:201-230 | planning again over what is left deletes nothing, however it is listed and however ties fall |
| `Retention.OrderedUnique` | infra/ci/prune-registry.go:211-216 | a newest-first order is determined by its keys |
| `ColumnLayout.FitColumns` | src/cli/cmd/tui_layout.go:34-85 | titles in order; wide: the widths fill the room exactly, each flexible column with the whole cells of its share, the last with the remainder; narrow: the room is filled exactly or every column is at its floor |
| `ColumnLayout.FittedInCells` | src/cli/cmd/tui_layout.go:29-85 | in cells of the terminal, padding and border counted: a table with room and a flexible column fills it, one too wide fills it or has every column at four, any other keeps its least widths |
| `ColumnLayout.Widen` | src/cli/cmd/tui_layout.go:48-64 | the surplus is given away exactly, and the last flexible column gets less than one cell per flexible column beyond its share |
| `ColumnLayout.Shrink` | src/cli/cmd/tui_layout.go:65-81 | no column leaves the range from floor to least width, and a shrunk column ends within one cell of every other |
| `ColumnLayout.ShrunkUnique` | src/cli/cmd/tui_layout.go:68-81 | two narrow layouts of equal total width are the same |
| `ColumnLayout.FittedUnique` | src/cli/cmd/tui_layout.go:29-85 | the layout is determined by the columns and the width |
| `RunStages.RunFull.FillPendingSteps` | src/cli/cmd/ci_tui.go:664-695 | nothing changes without a definition or for a run that is not running, pending or awaiting approval; otherwise the list is in step order, with each step's recorded runs in their order or one pending entry |
| `RunStages.RunFull.AnnotateStages` | src/cli/cmd/ci_tui.go:640-655 | runs whose step the definition still names get its rank, then the list is filled |
| `RunStages.AnnotatedExactly` | src/cli/cmd/ci_tui.go:640-655 | a run takes the rank of the definition's step at its index exactly when that has its name or none, and nothing else of it changes |
| `RunStages.FilledUnique` | src/cli/cmd/ci_tui.go:664-695 | one list meets that description |
| `RunStages.FilledCovers` | src/cli/cmd/ci_tui.go:656-695 | every step of the definition and every recorded run is shown, and all else is the pending entry of a step without a run |
| `RunStages.FilledKeepsRuns` | src/cli/cmd/ci_tui.go:664-695 | no recorded run is lost or doubled |
| `RunStages.FillTwice` | src/cli/cmd/ci_tui.go:664-695 | filling again changes nothing |
| `RunStages.StageExtent` | src/cli/cmd/ci_tui.go:1684-1690 | the longest run of entries in the stage of the first |
| `RunStages.RunBatches` | src/cli/cmd/ci_tui.go:1921-1929 | non-empty batches that concatenate to the list, each within one stage, each as long as it can be |
| `RunStages.BatchedUnique` | src/cli/cmd/ci_tui.go:1921-1929 | there is one way to cut the list so |
| `RunStages.BoxesAreRanks` | src/cli/cmd/ci_tui.go:1674-1690 | in ranked runs one box holds one rank and later boxes hold higher ones |
| `RunStages.NeighboursInBoxes` | src/cli/cmd/ci_tui.go:1665-1690 | a box holds runs of one step or one rank, and ends where the next run is of another step and not of the same rank |
| `RunStages.StepRunRows` | src/cli/cmd/ci_tui.go:1714-1767 | the rows of the batches, numbered by stage |
| `RunStages.RowsMatchRuns` | src/cli/cmd/ci_tui.go:1707-1767 | rows match runs one to one and in order, and a row is numbered exactly when its run begins a stage |
| `RunStages.BoxIsDrawn` | src/cli/cmd/ci_tui.go:1714-1767 | a lone run is its name; several are bracketed, the first marked as a matrix exactly when all are of one step |
| `RunDiagram.BoxesAreStages` | src/cli/cmd/ci_tui.go:602-695 | for a run of an unchanged compiled pipeline of two or more stages, two runs are in one box exactly when their steps are in one stage of the text |
| `StepConversion.ConvertStep` | src/cli/cmd/ci.go:1074-1116 | the first inline step of the given name becomes a stored step of that name and a reference to it, and there is none exactly when no reference is inline under that name; every refusal leaves all pipelines as they were |
| `StepConversion.LocalizeStep` | src/cli/cmd/ci.go:1126-1166 | the first stored reference shown under the given name becomes an inline copy under it, and there is none exactly when no reference is; no stored step changes |
| `StepConversion.RewriteExactly` | src/systems/workflows/db.go:424-483 | reading and writing a reference keeps what it does exactly when it uses nothing the command line has no field for |
| `StepConversion.RewriteDropsPermissions` | src/cli/cmd/ci.go:73-85 | a concrete reference that loses its declared permissions |
| `StepConversion.RewriteDropsAllowEmpty` | src/systems/workflows/types.go:174-179 | a concrete reference that loses the leave for its matrix to be empty |
| `StepConversion.ConvertPreservesExactly` | src/cli/cmd/ci.go:1108-1113 | converting keeps every step of the pipeline exactly when the step has no scatter and no step uses what would be lost |
| `StepConversion.LocalizePreservesExactly` | src/cli/cmd/ci.go:1152-1164 | localizing keeps every step exactly under the same condition, whatever the reference's own timeout |
| `StepConversion.OtherPipelinesUnchanged` | src/cli/cmd/ci.go:1099-1113 | pipelines that do not refer to the new step do what they did |
| `StepConversion.LocalizeUndoesConvert` | src/cli/cmd/ci.go:1108-1164 | localizing what was just converted gives the inline step back, less its scatter, with a default timeout written out |
| `StepConversion.SecondsGiven` | src/systems/workflows/worker.go:826-833 | a step is given the seconds it asks for, thirty when it asks for none and an hour when it asks for more |
| `StepConversion.StoredRefRuns` | src/systems/workflows/db.go:463-497 | a stored reference runs its step under its own name or the step's, its own settings over the step's |
| `StepConversion.GateRuns` | src/systems/workflows/db.go:441-448 | a gate waits under its name, or as "approval" |

## Left out

- Project authorization, permission checks, HTTP framing, content types and object metadata of the artifact service: a caller is an authorized user id and a request has a name and a body.
- SHA-256: a digest stands for its content; two users whose hashed ids collide in the blob key are not modelled.
- Interleaved upload and delete of the same name: rows and blobs are related over sequential runs; only the quota is proved under interleaving.
- ArtifactService.Service.HandleUpload: its requests run one at a time, as the interleaving that matters is in `QuotaBound`.
- Quota overrides are read and changed as single map entries; the admin handlers around them are not modelled.
- ArtifactHistory.SaveIsARun: its cap did not wrap to a negative number, and the user's total fits 64 bits.
- The row upsert, a query followed by an insert or an update, is assumed to take effect as one.
- ArtifactService.Service.WriteAndRecord: a blob write that reports an error left the old blob, as a failed rename does; an object put that takes effect and loses its reply is not modelled.
- Crash recovery: temporary files left by a process that dies are not modelled, and rename, put and file removal take effect whole or not at all.
- Text is Unicode characters, not bytes: invalid UTF-8 is not modelled, and whether a character beyond ASCII is printable is a parameter.
- EnvTokens.FormatEnvTokens: the order of the keys is a parameter; the lemmas hold for every order, the sorted one included.
- JSON text: objects are values, so parsing, key order and escaping are not modelled, and a malformed advanced field is one case. Numbers are whole; the rounding of whole numbers beyond 2^53 when they are decoded again is not modelled.
- StepFields.FieldRoundTripsExactly: environment names with blanks, quotes or backslashes are outside it, as the printed text then reads as other names or not at all.
- StepRoundTrip.EditThenSaveExactly: advanced entries that name a nested object of the action, or give a field left empty a value that its field could not read, are outside it.
- The step-level fields of the form (name, action, description, timeout) and its pickers, text widgets and key handling.
- Resolving step names over the network is a map from names to ids; an ambiguous name is not modelled.
- PipelineEditing.EditPipelineExactly: a step comes back when it also names the repository that was shown, so a blank repository that a stored step holds by itself counts as lost; a pipeline's name, description, ticket and timeout, which the form keeps, are not modelled.
- RoleEditor.Save: there is no other writer during a save, and a reply that cannot be decoded counts as one that never came.
- PUT requests of unchanged content: the role editor's store records contents, not requests, so a write of what is already stored is not told apart from none.
- StepConversion.ConvertStep: reads are answered; a stored step whose creation succeeds with an unreadable reply stays behind unreferenced, which is not modelled; ids are never reused.
- Step lookup by name before id at the server: no stored step is named after another's id.
- What a pipeline declares beside its steps when step conversion writes it back, and the server's validation, which can only refuse a write.
- Retention.Prunable: an insertion sort stands for the library's sort; ties may fall either way, and the lemmas hold for every way.
- ColumnLayout.FitColumns: widths and weights are not negative, as in every table of the program.
- RunDiagram.BoxesAreStages: runs of matrix steps carry a suffix in their name and keep no rank, so they are outside it; they are grouped by step index.
- The run table's memory, time and duration cells, colours and the diagram's drawing.
- Disk reporting, registry paging and deletion requests of the retention tool.
