# Verification models

Dafny models of the parts of this repository whose correctness is not visible from reading one function, with
proofs of what those parts are for. `dafny verify dfyconfig.toml` checks everything.

| system | files | main results |
|---|---|---|
| Tool schema gate of the benchmark | `Json`, `SchemaReference`, `SchemaChecker`, `SchemaSoundness`, `SchemaExactness`, `SchemaLimits`, `SchemaAcceptance`, `SchemaTools` | An accepted schema accepts the benchmark's requests exactly if it is well typed, against a semantics of JSON Schema 2020-12; references resolve exactly. |
| Regular expressions for peer-supplied patterns | `Utf8`, `RegexClasses`, `RegexMeaning`, `RegexPrograms`, `RegexLayout`, `RegexCompiler`, `RegexPaths`, `RegexVm`, `RegexEngine` | Compiling and simulating preserve the meaning of a pattern, within the documented size and step limits. |
| Static census of JSON accesses | `Fatality`, `FatalityCap`, `FatalityRows`, `SourceLexer`, `SourceText`, `SourceBlocks`, `SourceBraces` | The capped worklist computes the least fixed point, for all inputs exactly up to 3334 types; line numbers are exact; stripping and the brace tree have their exact conditions. |
| Package publication | `Cloudsmith`, `Publication` | Safety and success of a run against every possible remote, and idempotence of a rerun. |
| Ratchet for the peer-input matrix | `Ratchet`, `RatchetGuard` | Classification is exact, and no run of regenerations, edits and commits adds an unnamed fragile row, or an unnamed required key in a row that was never lost. |
| Duplicate keys in workflow files | `WorkflowYaml`, `WorkflowLines`, `WorkflowText` | One pass with an indent stack refines the pairwise rule. |
| Release signing boundary | `Versions`, `Decimals`, `ChecksumText`, `SigningBoundary`, `ReleaseInventory`, `ReleaseTexts`, `ReleaseValidation`, `ReleaseAssembly`, `ReleaseFiles`, `ReleasePipeline` | Producer and verifiers agree on the whole pipeline, and later changes are detected exactly. |
| Benchmark arithmetic and state | `Schedule`, `HostNetwork`, `CpuList`, `CpuTexts`, `Headroom`, `TreeFraming` | Counterbalancing, cohort accounting, round trips, order statistics and injective framing. |

Conventions. Code that loops and updates is a method proved against a specification function or a declarative
predicate; objects whose methods update their fields are classes; expressions are functions. A remote, git, a hash
and a signature are parameters that may answer anything, restricted only where a theorem says so. SHA-256 is an
arbitrary function to 64 hexadecimal digits; where a theorem needs it, two given directories are assumed to hold no
collision under one name. Floating-point numbers are reals. A directory is a map from names to contents. Raised
errors are `None`, `false` or an error outcome.

Where the code and its descriptions differ:

- The schema gate is described as allowing only extras that cannot reject a request. That holds exactly for well-typed
  schemas (`SchemaExactness.ToolExact`); a `type` that is a reference to a string passes the gate and rejects the
  request (`SchemaLimits.AcceptedToolRejectsItsArguments`).
- The guard of the matrix is described as covering what HEAD had. That holds exactly when git supplies a HEAD with
  tests (`RatchetGuard.ProtectedIffHeadUsable`); otherwise an edited working copy is the only baseline.
- The cap of 10000 rounds in the fatality worklist is harmless for all inputs exactly up to 3334 types
  (`FatalityCap.ExactIffFewTypes`).
- The ratchet is described for required keys as well. Over several commits it holds for rows that no commit removes
  (`RatchetGuard.ToleranceOutlivesRuns`, `RatchetGuard.RequiredComesBackUnnoticed`).
- `strip_comments` is described as blanking comments. It does exactly unless the text ends in an open block comment
  whose last character is neither a newline nor a space (`SourceText.BlanksCommentsIff`,
  `SourceText.OpenCommentLeavesBrace`). For the blocks found afterwards this matters exactly if that character is an
  opening brace, or a closing one while some block is unclosed (`SourceBraces.BlocksAreOfCodeIff`).
- The final boundary does not bind the contents of `SHA256SUMS.asc`, only its presence; its contents are the
  signature check's business (`SigningBoundary.FinalBoundaryBinds`).

## Model

| member | source | states |
|---|---|---|
| SchemaReference.ResolveLocalSchemaReference | benchmark/verify_server.py:382-414 | The loop over `current` and `seen` computes the resolution function for every value and document, and yields nothing usable on rejection. |
| SchemaReference.ResolveExact | benchmark/verify_server.py:382-414 | Resolution succeeds exactly on reference chains that end, with the value they end in, which has no `$ref`: the set of seen references rejects every endless chain and no other. |
| SchemaReference.PointerReachesPath | benchmark/verify_server.py:396-413 | For every nonempty path of object keys, `#/` and the tokens escaped by sections 3 and 4 of RFC 6901 lead to the value at that path, and on through its further references. |
| SchemaReference.OneMoreReference | benchmark/verify_server.py:387-414 | One reference more or less in front does not change where a chain ends. |
| SchemaSoundness.FragmentSound | benchmark/verify_server.py:259-321 | By induction on the expected schema, whatever its properties are called: an instance valid for the expected fragment, with exactly its listed keys and fitting the tracked instances, is valid under 2020-12 semantics for every accepted well-typed fragment, through `$ref`, `$defs`, `minimum`, `required`, `additionalProperties` and `items`. |
| SchemaSoundness.OwnMembersAreTracked | benchmark/verify_server.py:284-298 | Without a property called `properties` the instances the matcher carries along are those of the instance itself. |
| SchemaExactness.SoundIffTracked | benchmark/verify_server.py:259-321 | For every expected fragment, every instance valid for it with exactly its listed keys, and all starting instances: all accepted well-typed fragments accept the instance exactly if no number in it lies below all tracked numbers of its place, or a property called `$ref` lets nothing match. |
| SchemaExactness.ValidIsWellTyped | benchmark/verify_server.py:259-321 | A matched fragment that accepts one instance covering all expected parts is well typed, along references too. |
| SchemaExactness.FragmentExact | benchmark/verify_server.py:259-321 | A matched fragment accepts the instance exactly if it is well typed, which depends on the schema alone. |
| SchemaSoundness.RequiredHolds | benchmark/verify_server.py:367-377 | Every name an accepted fragment requires is present in the instance. |
| SchemaSoundness.ValidThroughReference | benchmark/verify_server.py:382-414 | A reference that is followed means what it refers to: nothing the code tolerates beside it asserts anything. |
| SchemaSoundness.InputSchemaSound | benchmark/verify_server.py:417-442 | An accepted input schema accepts the arguments, for any expected properties and any arguments that fit them. |
| SchemaSoundness.CanonicalArgumentsFit | benchmark/verify_server.py:28-66 | The canonical arguments of the three tools fit the three expected schemas. |
| SchemaExactness.InputSchemaExact | benchmark/verify_server.py:417-442 | An accepted input schema accepts the arguments exactly if it is well typed, for any expected properties and any arguments that fit and cover them. |
| SchemaExactness.ToolExact | benchmark/verify_server.py:417-442 | The purpose of the gate, exactly: an accepted tool takes its canonical benchmark arguments if and only if its input schema is well typed. |
| SchemaAcceptance.HarmlessIff | benchmark/verify_server.py:324-379 | The table of extra keywords accepts exactly: the ten annotations, objects under `$defs` or `definitions`, `additionalProperties` true or false, a string `format` without a dialect or under 2020-12, a `required` list of different listed names, and a `minimum` on a number that every one of some tracked instances reaches. |
| SchemaAcceptance.ChildInstancesAre | benchmark/verify_server.py:284-298 | Below the listed properties exactly the members of that name are tracked, below `items` exactly the elements, and elsewhere the same instances. |
| SchemaAcceptance.ExtensionIff | benchmark/verify_server.py:259-379 | A well-typed fragment matches exactly if, through references, it has the expected keywords with their values and harmless ones beside, likewise below `properties` and `items`. |
| SchemaAcceptance.PlainMatchIff | benchmark/verify_server.py:306-321 | Where no objects are involved, and no `required` list, matching is Python's equality element by element, with truth values equal to 0 and 1. |
| SchemaAcceptance.InputSchemaIff | benchmark/verify_server.py:417-442 | A well-typed input schema is accepted exactly if it extends the expected properties in this way. |
| SchemaAcceptance.ToolAcceptedIff | benchmark/verify_server.py:417-442 | A well-typed tool is accepted exactly if it has the name of an expected tool and its schema extends that one. |
| SchemaTools.ClosedCheckoutIsAccepted | benchmark/verify_server.py:28-66 | A checkout tool with closed objects and its required names in another order is accepted. |
| SchemaTools.SharedCheckoutBounds | benchmark/verify_server.py:28-66 | A checkout line kept in `$defs`, with formats and lower bounds on product and quantity, is accepted exactly if the bounds are at most 42 and 1. |
| SchemaTools.SearchBounds | benchmark/verify_server.py:28-66 | Lower bounds on the search tool are accepted exactly if they are at most 50, 500 and 10. |
| SchemaTools.PlainCartIsAccepted | benchmark/verify_server.py:28-66 | The plain cart tool is accepted, with a closed or an open object. |
| SchemaLimits.NestedPropertiesMislead | benchmark/verify_server.py:284-298 | An expected fragment that does not meet the condition of `SoundIffTracked`: with properties called `properties` inside one another some accepted schema rejects a fitting instance, in every document. |
| SchemaLimits.AcceptedToolRejectsItsArguments | benchmark/verify_server.py:324-442 | A tool whose `type` is a reference passes the gate, and its schema rejects the canonical arguments: the gate does not decide whether a schema is well typed. |
| Utf8.DecodeEncoded | src/core/regex.cpp:47-90 | A code point is read back from its UTF-8 encoding wherever it stands. |
| Utf8.DecodedIsEncoding | src/core/regex.cpp:47-90 | What is read is either U+FFFD for one byte or the shortest encoding of a scalar value: overlong forms, surrogates and truncation are rejected. |
| Utf8.DecodeAllEncoded | src/core/regex.cpp:47-90 | Valid UTF-8 decodes to exactly the code points it encodes. |
| RegexClasses.Normalize | src/core/regex.cpp:98-110 | The in-place merge returns the canonical list of the same set of code points. |
| RegexClasses.Complement | src/core/regex.cpp:112-125 | The complement holds exactly the other code points and is canonical. |
| RegexClasses.Contains | src/core/regex.cpp:137-143 | Binary search on a canonical list decides membership, both ways. |
| RegexClasses.CanonicalUnique | src/core/regex.cpp:98-110 | A canonical list is determined by the set it stands for. |
| RegexCompiler.Compiler.Emit | src/core/regex.cpp:628-635 | An instruction is appended exactly when the program is not full. |
| RegexCompiler.Compiler.Compile | src/core/regex.cpp:597-626 | Compilation succeeds exactly when the code fits the limit, appends code for the node and changes nothing before it. |
| RegexCompiler.Compiler.CompileAlternation | src/core/regex.cpp:640-653 | All alternatives are laid out and every closing jump is patched to the common end. |
| RegexCompiler.Compiler.CompileRepeat | src/core/regex.cpp:655-687 | The required copies, the loop or the optional copies are laid out and their exits patched; empty operands do not loop. |
| RegexCompiler.CodeLocal | src/core/regex.cpp:597-687 | Code for a node depends only on its own instructions, so later code cannot change its meaning. |
| RegexPaths.MatchHasPath | src/core/regex.cpp:597-687 | Every match of a node is a path through its code. |
| RegexPaths.PathCrosses | src/core/regex.cpp:597-687 | Every path through a node's code passes its end, having spelled a match of the node. |
| RegexVm.CodeStaysInside | src/core/regex.cpp:597-687 | Compiled code never jumps or reads outside the program. |
| RegexMeaning.WordClassAgrees | src/core/regex.cpp:92-129 | Word boundaries and `\w` agree on what a word character is. |
| RegexMeaning.BoundaryIff | src/core/regex.cpp:806-817 | A word boundary lies exactly next to some word character and not between two. |
| RegexVm.AcceptsIffFound | src/core/regex.cpp:734-745 | The compiled program accepts a text exactly when the pattern matches somewhere in it. |
| RegexVm.ThreadList.Contains | src/core/regex.cpp:698-701 | The sparse set answers membership exactly, whatever stale entries its arrays hold. |
| RegexVm.ThreadList.Insert | src/core/regex.cpp:702-705 | Insertion adds one thread at the end of the order. |
| RegexVm.AddThread | src/core/regex.cpp:778-825 | The explicit stack reaches exactly the program counters reachable without reading, each once, or stops at a match. |
| RegexVm.Advance | src/core/regex.cpp:837-879 | One input position moves every thread whose instruction reads the code point. |
| RegexVm.Search | src/core/regex.cpp:754-881 | With a budget: an answer is right, there is one exactly if the budget covers the cost of the search, and what is left is the budget less exactly that cost: the size of the program and, for each position before the first where an answer is possible, a step and one more per program counter alive there. |
| RegexVm.ThreadsCount | src/core/regex.cpp:837-842 | The list of threads at a position has one entry for each program counter alive there. |
| RegexVm.CostBounded | src/core/regex.cpp:754-881 | The cost is at most the size and, per position, the size and one. |
| RegexEngine.CompilePattern | src/core/regex.cpp:734-745 | Compilation is refused exactly when the program would exceed the size limit. |
| RegexEngine.Search | src/core/regex.cpp:754-881 | `search` answers whether the pattern matches somewhere in the UTF-8 input, exactly if the budget covers the documented steps, subtracts exactly those, and they are linear in the input. |
| Fatality.Worst | scripts/json_census.py:1401-1405 | The worse severity of two: an upper bound of both that is one of them. |
| Fatality.Propagate | scripts/json_census.py:1427-1437 | The capped loop is one of the runs the relation `Outcome` allows; it makes at most 3n - 3 rounds over n > 1 types, is always sound, and is exact (each type has the worst severity among the seeds that reach it) if the cap leaves room for these rounds. |
| Fatality.Relax | scripts/json_census.py:1432-1437 | The inner loop takes the delegates in some order, each once, and does for each what the run relation says. |
| Fatality.PopsKeep | scripts/json_census.py:1427-1437 | Any number of rounds keeps the invariant of the worklist, stale entries included, and is paid for by what was raised. |
| Fatality.OutcomeIsExact | scripts/json_census.py:1427-1437 | In every order of seeds and delegates the outcome is exact if the cap leaves room for 3n - 3 rounds. |
| Fatality.ExactUnique | scripts/json_census.py:1427-1437 | The exact answer is unique. |
| FatalityRows.CollectSeeds | scripts/json_census.py:1419-1425 | A seed is the worst severity among the entries that name the type, for known types only. |
| FatalityRows.PropagateTypeFatality | scripts/json_census.py:1408-1442 | The unknown rows whose owner was reached take what the capped run recorded, no other row changes; with at most 3334 known types that is exactly the worst severity of the entries that reach the owner, or nothing when none does. |
| FatalityCap.BoundIsReached | scripts/json_census.py:1427-1437 | The bound on rounds is attained for every number of types from 3 on: a chain with a process, a session and a message entry takes 3n - 3 rounds. |
| FatalityCap.LongChainIsCut | scripts/json_census.py:1428-1437 | From 3335 types on that chain is stopped by the cap with its last type too mild or missing. |
| FatalityCap.ExactIffFewTypes | scripts/json_census.py:1428-1437 | The capped loop is exact for all seeds, graphs and orders over n types if and only if n is at most 3334. |
| SourceText.StripComments | scripts/json_census.py:150-191 | For every text the in-place scan blanks every character of a comment except newlines and keeps everything else, with one exception: the last character of a block comment that is never closed stays. |
| SourceText.LiteralIsKept | scripts/json_census.py:150-166 | What stands between two double or two single quotes, without that quote or a backslash, stays as it is, and stripping goes on behind it. |
| SourceText.LineIsBlanked | scripts/json_census.py:167-177 | From two slashes in code to the end of the line everything becomes a space, and stripping goes on there. |
| SourceLexer.EndsInCommentIff | scripts/json_census.py:150-191 | Read character by character, a text stands inside a block comment before its last character exactly if some comment opened in code has no closing pair behind its opening. |
| SourceText.BlanksCommentsIff | scripts/json_census.py:150-191 | The result is the text with all its comments blanked exactly if the text does not end in an open block comment whose last character is neither a newline nor a space. |
| SourceText.OpenCommentLeavesBrace | scripts/json_census.py:178-189 | An open comment that ends in a brace keeps that brace. |
| SourceText.StrippedKeeps | scripts/json_census.py:150-191 | No character moves; each is kept or, unless it is a newline, becomes a space. |
| SourceText.Idempotent | scripts/json_census.py:150-191 | Stripping twice is stripping once. |
| SourceText.LineIndex | scripts/json_census.py:194-199 | The index lists the start of every line. |
| SourceText.LineOf | scripts/json_census.py:202-209 | Binary search yields one more than the number of newlines before the offset. |
| SourceText.StrippedNewlines | scripts/json_census.py:150-209 | The newlines before an offset are the same in the stripped text. |
| SourceText.SameStarts | scripts/json_census.py:150-209 | The line index of the stripped text is that of the original, so line numbers agree. |
| SourceBlocks.ParseBlocks | scripts/json_census.py:251-299 | The stack pass over the text builds a nested forest with a block for every opening brace outside literals. |
| SourceBlocks.TreeIsExact | scripts/json_census.py:251-299 | The tree holds exactly the stretches that follow an opening brace and end at its matching brace, or at the end of the text. |
| SourceBraces.StrippedMarks | scripts/json_census.py:150-299 | The braces the parser sees in a stripped text are those of the text outside comments and literals, up to the last character of an open comment. |
| SourceBraces.BlocksAreOfCodeIff | scripts/json_census.py:150-299 | The blocks of a stripped text are those of the braces outside comments and literals of the text itself, except exactly when an open comment ends in an opening brace, or in a closing brace while some block is unclosed. |
| SourceBraces.SourceTreeIsExact | scripts/json_census.py:904-906 | Under that condition the tree built from the stripped text holds exactly these blocks. |
| SourceBraces.BraceInCommentIsBlock | scripts/json_census.py:251-252 | Without it the tree can have a block that only a comment contains. |
| SourceBlocks.EndIsUnique | scripts/json_census.py:251-299 | A brace has one matching brace. |
| SourceBlocks.Laminar | scripts/json_census.py:251-299 | Two blocks are nested or apart. |
| SourceBlocks.AllAscending | scripts/json_census.py:251-299 | Blocks come in the order of their opening braces. |
| SourceBlocks.EnclosingChain | scripts/json_census.py:302-313 | The descent returns exactly the blocks that contain the offset, outermost first. |
| Cloudsmith.ReadingShows | release/cloudsmith_publish.py:197-237 | The tool reads every listing as what its records show field by field: none of the name, or one of the name with this distribution, release and format, a SHA-256 checksum (for APT the local one) and not failed, complete or not; anything else is refused. |
| Cloudsmith.ExactRecordIs | release/cloudsmith_publish.py:197-203 | A record is taken exactly if it is the only one with the name, and the route counts as missing exactly if there is none. |
| Publication.Inspect | release/cloudsmith_publish.py:197-277 | Listing, exact record, identity, state and verification of one route: what it goes on with is what the remote listed, and a verification is recorded only with its reasons. |
| Publication.CheckAll | release/cloudsmith_publish.py:411-447 | Every selected route passes its check, without a push, before anything else happens. |
| Publication.PushMissing | release/cloudsmith_publish.py:449-466 | Exactly the routes that were not listed are pushed, each once; what is not completed stays pending. |
| Publication.PollOnce | release/cloudsmith_publish.py:299-341 | One attempt verifies some of the remaining routes once more and keeps the others. |
| Publication.WaitForRoutes | release/cloudsmith_publish.py:280-346 | A normal return means every pending route was verified once; a remote that completes within the allowed attempts is never reported as a timeout. |
| Publication.PublishRoutes | release/cloudsmith_publish.py:349-482 | Against any remote: no push before authentication and all checks, at most one per route and only if not listed; a normal return has verified for each route exactly one complete record of this name, distribution, release, format and (for APT) digest, pushed every missing route, and says Published exactly if something was pushed; a listing that is ambiguous, of another package or failed gives an error and no push; RPM runs check the tools and the key first; a settled remote is skipped, and a remote that completes in time never makes the run fail. |
| Publication.KeptIsSettled | release/cloudsmith_publish.py:349-482 | A remote that keeps the verified records is settled for a rerun. |
| Publication.PublishAgain | release/cloudsmith_publish.py:349-482 | A second run against a remote that keeps the completed records pushes nothing. |
| Ratchet.ClassifyColumn | scripts/gen_json_matrix.py:746-783 | The chain of cases for one flag shows each regression of a row at exactly one column and reports every other move as stale. |
| Ratchet.ClassifyRow | scripts/gen_json_matrix.py:738-783 | A row regresses exactly if it became null-fragile or its key became required, each reported once. |
| Ratchet.ClassifyTest | scripts/gen_json_matrix.py:719-795 | The differences of one test: changed baseline and constants, removed and added fields, and moved rows, exactly. |
| Ratchet.Classify | scripts/gen_json_matrix.py:691-798 | The regressions are exactly the rows that are null-fragile now and were not, and those whose absent key became an error, each once; the stale notes are exactly the other differences. |
| Ratchet.NothingReportedIffEqual | scripts/gen_json_matrix.py:691-798 | Both lists are empty exactly when the two matrices are equal. |
| RatchetGuard.AllRegressions | scripts/gen_json_matrix.py:867-877 | The regressions against any usable baseline, each test, key and kind once. |
| RatchetGuard.Guard | scripts/gen_json_matrix.py:858-891 | Code 2 exactly if a regression is not named, 1 exactly if otherwise a name matches no regression, 0 else; the reported rows and names are exactly those. |
| RatchetGuard.Regenerate | scripts/gen_json_matrix.py:842-950 | The file is written exactly if a baseline with tests exists (or none is demanded), no row got worse unnamed than in HEAD or in the working copy, whichever have tests, and every name stands for a row that did; otherwise the file is untouched. In particular the working copy guards whatever git answers. |
| RatchetGuard.WritesIffAllowed | scripts/gen_json_matrix.py:842-950 | That decision is the same as the one over the list of baselines. |
| RatchetGuard.NamesScopes | scripts/gen_json_matrix.py:825-891 | A name written with `::` between its parts accepts exactly the test with underscores there, or one key of it. |
| RatchetGuard.WriteIsSafe | scripts/gen_json_matrix.py:842-950 | With HEAD as a baseline, a written matrix has no null-fragile row beyond HEAD's and the named ones, whatever the working copy holds. |
| RatchetGuard.ProtectedIffHeadUsable | scripts/gen_json_matrix.py:842-950 | That protection holds for every working copy, render and list of names exactly when git supplies a HEAD with tests. |
| RatchetGuard.StepKeepsRatchet | scripts/gen_json_matrix.py:842-950 | Every regeneration, edit and commit keeps the ratchet invariant. |
| RatchetGuard.HeadStaysRatcheted | scripts/gen_json_matrix.py:842-950 | Over every run of regenerations, edits, deletions and commits a null-fragile row at HEAD was there at the start or was named to a regeneration whose result was committed. |
| RatchetGuard.OneBlindWriteSmuggles | scripts/gen_json_matrix.py:825-855 | If git cannot supply HEAD once, an edit, a regeneration and a commit smuggle a row in: the condition is needed. |
| RatchetGuard.WriteKeepsTolerance | scripts/gen_json_matrix.py:719-950 | With HEAD as a baseline, every row that tolerated an absent key at HEAD and requires it in a written matrix was named, whatever the working copy holds. |
| RatchetGuard.ToleranceProtectedIffHeadUsable | scripts/gen_json_matrix.py:842-950 | That protection holds for every working copy, render and list of names exactly when git supplies a HEAD with tests, or HEAD tolerates no absent key. |
| RatchetGuard.ToleranceOutlivesRuns | scripts/gen_json_matrix.py:719-950 | Over every run of regenerations, edits, deletions and commits a row that tolerated an absent key in the first HEAD still does, was granted, or was missing from some HEAD on the way. |
| RatchetGuard.RequiredAgainOnlyAfterLoss | scripts/gen_json_matrix.py:719-950 | So a row that requires its key again was named to a committed regeneration or was lost on the way. |
| RatchetGuard.RequiredComesBackUnnoticed | scripts/gen_json_matrix.py:719-798 | Loss on the way is needed and enough: from every HEAD there is a run that removes a tolerant row, commits, and brings it back as required without a name. |
| WorkflowLines.KeyIsScanned | scripts/workflow_yaml.py:22 | The scan takes exactly the four forms of a key: plain, `<<`, double-quoted with escapes, single-quoted with doubled quotes. |
| WorkflowLines.MatchIsExact | scripts/workflow_yaml.py:22-26 | The scan of a line matches exactly the lines made of an indentation, perhaps a list dash, a key of these forms, a colon and a value, and reads each in one way. |
| WorkflowText.BlockScalarIff | scripts/workflow_yaml.py:26 | A text opens a block scalar exactly if it is `|` or `>` followed by nothing, one sign, one digit from 1 to 9, or both in either order. |
| WorkflowText.OpensBlockIff | scripts/workflow_yaml.py:86-87 | A value opens a block scalar exactly if that is what stands between its surrounding white space. |
| WorkflowText.PlainKeyIff | scripts/workflow_yaml.py:22 | A plain key is a letter or underscore and then letters, digits, underscores, dots and hyphens. |
| WorkflowText.KeyMeansIff | scripts/workflow_yaml.py:35-43 | A plain key stands for itself, a single-quoted one for the text whose quotes are doubled in it, a double-quoted one for its JSON reading. |
| WorkflowText.LexedIff | scripts/workflow_yaml.py:53-69 | Each raw line is read as exactly what its characters make it: blank, comment, text at its indentation, or an entry with its dash, key and opener; tabs anywhere are noted. |
| WorkflowText.ValidateText | scripts/workflow_yaml.py:46-87 | The verdict of the pairwise rule on what the raw lines stand for. |
| WorkflowYaml.BlockIsFromOpener | scripts/workflow_yaml.py:57-63 | The one remembered indentation is that of an opener with only deeper text below it, and is remembered exactly while there is one. |
| WorkflowYaml.Current | scripts/workflow_yaml.py:67-76 | Popping and pushing leave the entry's own mapping on top. |
| WorkflowYaml.CurrentFinds | scripts/workflow_yaml.py:78-84 | A key is found in the current mapping exactly if an earlier entry of the same mapping has it, with that entry's line. |
| WorkflowYaml.RecordKeeps | scripts/workflow_yaml.py:67-85 | The stack, with strictly increasing indentation, goes on standing for exactly the entries whose mapping is open. |
| WorkflowYaml.Declare | scripts/workflow_yaml.py:67-85 | One entry either shows the line of the entry it duplicates or extends the correspondence. |
| WorkflowYaml.Validate | scripts/workflow_yaml.py:46-87 | The one-pass indent stack refines the rule: the first faulty line is reported, a duplicate exactly if two entries of one mapping have one key. |
| WorkflowYaml.VerdictIsUnique | scripts/workflow_yaml.py:46-87 | The rule admits one verdict per file. |
| Decimals.ValueOfDecimal | release/model.py:35-49 | Writing a number and reading it gives it back. |
| Decimals.DecimalOfValue | release/model.py:13-18 | A numeral without leading zeros is the one written for its value. |
| Versions.ParseIffPrinted | release/model.py:34-86 | A text parses to a version exactly if it is that version printed and has at most 64 characters. |
| Versions.PrintedPreRelease | release/model.py:84-86 | The identifiers that precedence compares are the dot-separated ones behind the hyphen of the printed version. |
| Versions.PackageTexts | release/model.py:60-86 | The printed version and its Debian and RPM forms, letter by letter. |
| Versions.SameAbiIff | release/model.py:88-91 | Two versions have one ABI version exactly if they share the major number and, below 1.0.0, the whole core. |
| Versions.PrecedenceOfProfile | release/model.py:20-33 | The general rule of section 11 of Semantic Versioning 2.0.0, on the identifiers of the printed version, orders this profile by core, then candidates below their release, then by candidate number; only equal versions tie. |
| DebianOrder.OrderEmbeds | release/model.py:69-72 | Debian versions compare, under section 5.6.12 of Debian Policy, exactly as the versions do under section 11 of Semantic Versioning 2.0.0. |
| RpmOrder.OrderEmbeds | release/model.py:74-77 | RPM version and release compare, segment by segment, exactly as the versions do. |
| ChecksumText.RecordsAgree | release/verify_candidate.py:106-115 | The signing tool's split and the verifier's pattern read every line alike. |
| ChecksumText.ParseForSigning | release/signing.py:33-51 | The signing tool parses a checksum file into exactly its distinct well-formed records, or rejects it. |
| ChecksumText.ParseForVerifier | release/verify_candidate.py:106-115 | The verifier parses every checksum file to the same result. |
| ChecksumText.Render | release/artifacts.py:483-491 | The text lists the records in order of names. |
| ChecksumText.RenderedParses | release/artifacts.py:483-491 | A rendered checksum file parses back to exactly its records. |
| ChecksumText.RenderedIsCanonical | release/artifacts.py:483-491 | One set of records has one text. |
| SigningBoundary.VerifyChecksums | release/signing.py:54-71 | A boundary holds exactly if its file lists all other files that are not excluded, with their digests. |
| SigningBoundary.BoundaryBinds | release/signing.py:54-71 | With its text fixed, a boundary goes on holding exactly for directories with the same files and contents outside the exclusions. |
| SigningBoundary.ReadPlan | release/signing.py:93-105 | A plan is accepted exactly if its lines are asset names in strictly ascending order. |
| SigningBoundary.PlanReadsBack | release/signing.py:93-121 | A written plan reads back. |
| SigningBoundary.DetachedIffPlanned | release/signing.py:74-82 | A name with `.asc` counts as a detached signature exactly if the name is one that gets planned. |
| SigningBoundary.SigningDirectory.Prepare | release/signing.py:108-121 | Succeeds exactly on a complete unsigned boundary, removes it and plans the manifest and all archives; otherwise changes nothing. |
| SigningBoundary.SigningDirectory.WriteFinalChecksums | release/signing.py:124-148 | Succeeds exactly if the signatures are those of the plan and no boundary exists, and adds SHA256SUMS over everything else. |
| SigningBoundary.SigningDirectory.VerifyFinalBoundary | release/signing.py:151-163 | Accepts exactly directories whose SHA256SUMS binds every file and has a signature file. |
| SigningBoundary.FinalBoundaryBinds | release/signing.py:151-163 | With SHA256SUMS fixed, a later directory verifies exactly if a signature file remains and nothing outside the notes, SHA256SUMS and its signature was added, removed or altered. |
| ReleaseInventory.ExpectedShape | release/artifacts.py:273-301 | No expected payload can be taken for a reserved file or a detached signature, and every archive name leaves room for `.asc`. |
| ReleaseValidation.CollectPackages | release/artifacts.py:386-408 | The per-target sets are exactly the packages of the target's routes, none twice. |
| ReleaseValidation.SetsAreExact | release/artifacts.py:304-321 | Equal sets target by target are a one-to-one match of routes with expected packages. |
| ReleaseValidation.ValidateCandidateInventory | release/artifacts.py:324-411 | Accepts exactly the inventories with the expected names and roles, ordered provenance, and one route for every expected package of 18 targets. |
| ReleaseTexts.RoutesIff | release/artifacts.py:324-411 | What it accepts of routes, in fields: 18 differently named targets, every route expected for the target its fields spell, one route for each expected package of each target, and both its files recorded with its build. |
| ReleaseTexts.ExpectedIff | release/artifacts.py:324-385 | The payload names it accepts: fixed files, packages of routes and, in a release, one identity per target. |
| ReleaseTexts.FixedIff | release/artifacts.py:273-301 | The fixed files with their roles, five for a candidate and twenty for a release, by name. |
| ReleaseTexts.AptPackagesIff | release/artifacts.py:304-312 | The packages of an APT target of a release, by name, version and architecture. |
| ReleaseTexts.RpmPackagesIff | release/artifacts.py:304-321 | The packages of an RPM target of a release, with the source package exactly for x86_64. |
| ReleaseTexts.WindowsBuild | release/artifacts.py:324-411 | In an accepted release the three files for Windows are recorded with their build. |
| ReleaseTexts.ValidPayloadIff | release/artifacts.py:206-232 | A payload record is accepted exactly if its name is an asset name and none of the four reserved ones, it is not empty, and digest and build are well-formed. |
| ReleaseAssembly.AssembleUnsigned | release/assemble_unsigned.py:122-226 | Accepts exactly complete parts, copies them unchanged, and yields a bundle bound by its manifest and UNSIGNED-SHA256SUMS. |
| ReleaseFiles.AcceptedIffPartsFit | release/assemble_unsigned.py:166-203 | What that means for the parts themselves: they are accepted exactly if the staged names are the expected ones, every file but the notes is a nonempty asset, and targets and routes fit. The roles and builds read off the names never reject, except where a target is named like a bill of materials or like the Windows build. |
| ReleaseFiles.UnambiguousIff | release/assemble_unsigned.py:166-171 | Build identities cannot be ambiguous between valid routes; only repeated assets can. |
| ReleaseFiles.StagedIs | release/assemble_unsigned.py:143-165 | What stands in the output under any name: the route inventory, nothing of the metadata and the route fragments, every other part unchanged. |
| ReleasePipeline.BundlePrepares | release/signing.py:108-121 | Every assembled bundle passes `prepare`. |
| ReleasePipeline.SignedFinalizes | release/signing.py:124-148 | With exactly the planned signatures added it passes `finalize`. |
| ReleasePipeline.FinalVerifies | release/signing.py:151-163 | With SHA256SUMS written and signed it passes `verify`. |
| ReleasePipeline.VerifyFiles | release/verify_candidate.py:340-361 | The verifier accepts exactly the expected file set with intact payloads and full checksum coverage. |
| ReleasePipeline.Publish | release/assemble_unsigned.py:122-226 | Assembled bundle, prepare, sign the plan, finalize, sign SHA256SUMS: both final verifiers accept the result. |
| ReleasePipeline.UnsignedBoundaryBinds | release/signing.py:108-121 | Between assembly and signing nothing but the release notes can change unnoticed. |
| Schedule.ThreeRoundsIffEven | benchmark/benchmark_order.py:11-29 | Three rounds exist exactly for an even number of at least four servers, with a rotation of two. |
| Schedule.ThreeDistinctPositions | benchmark/benchmark_order.py:32-48 | In the three-round schedule every server stands at three different positions, for five servers too. |
| Schedule.EveryPairBothWays | benchmark/benchmark_order.py:32-48 | Every server comes before and after every other. |
| Schedule.RoundsArePermutations | benchmark/benchmark_order.py:32-48 | Each round lists every server once. |
| Schedule.FallbackIsFair | benchmark/benchmark_order.py:49-53 | The rotations give every server every position the rounded-down or rounded-up share of the runs. |
| HostNetwork.HostStatsCollector.constructor | benchmark/collect_stats.py:324-345 | The cohort starts with every interface active. |
| HostNetwork.HostStatsCollector.Collect | benchmark/collect_stats.py:365-417 | A sample exactly if CPU counters advance, an active interface remains and no counter was reset; in every case active and retired interfaces partition the cohort, ignored ones stay outside and recorded counters never fall. |
| HostNetwork.HostStatsCollector.Adopt | benchmark/collect_stats.py:394-401 | The loop adopts the counters of the active interfaces and stops at a reset. |
| HostNetwork.AuditPasses | benchmark/select_median_run.py:142-185 | The collector's audit is always accepted, as partial exactly if an interface was retired or ignored. |
| HostNetwork.AcceptedIffConsistent | benchmark/select_median_run.py:142-185 | An audit is accepted exactly if its lists name each interface once and the initial ones, of which there is one, are those active or retired and not both, while ignored ones are no initial ones; it is partial exactly if one was retired or ignored. |
| HostNetwork.RunCollector | benchmark/select_median_run.py:232-238 | Over any readings no later sample has lower totals, even across failed samples, and the audit passes. |
| CpuList.CompressCpuList | benchmark/capture_environment.py:142-155 | The text lists the maximal ascending ranges, with gaps between them, of the set of given numbers. |
| CpuList.TextIsCanonical | benchmark/capture_environment.py:142-155 | A set has one list of maximal ranges, so one text. |
| CpuList.ParseCpuSet | benchmark/capture_container.py:133-147 | The set is the union of the fields' ranges; one bad field rejects the list. |
| CpuTexts.IntegerIff | benchmark/capture_container.py:133-147 | A bound is read exactly if it is white space, perhaps a sign, groups of digits joined by single underscores, and white space, as the number those digits make. |
| CpuList.RoundTrip | benchmark/capture_container.py:133-147 | Parsing the printed text of any nonempty list, in any order and with repetitions, gives its set back. |
| Headroom.Percentile95 | benchmark/validate_resource_headroom.py:25-30 | The percentile is below a bound exactly if at least the nearest rank of the samples is. |
| Headroom.Evaluate | benchmark/validate_resource_headroom.py:266-298 | Headroom is exceeded exactly if too few samples of CPU or memory stay below the allowed share of the limit. |
| Headroom.SelectMedian | benchmark/select_median_run.py:365-366 | At least half of the runs, itself included, lie on each side of the selected run. |
| TreeFraming.FeedDigest | benchmark/capture_environment.py:204-216 | The digest is fed the framed list of files. |
| TreeFraming.FramedReadsBack | release/conan_validation.py:114-127 | The fed bytes decode to the file list, for lengths below 2^64. |
| TreeFraming.FramingIsInjective | release/conan_validation.py:114-127 | Different file lists feed different bytes to the hash. |

## Left out

- SchemaSoundness.FragmentSound: the instance has exactly the keys the expected fragment lists, as the benchmark's requests do; well-typedness and tracking are the conditions `SchemaExactness` shows to be exact. The three expected schemas of the code have no property called `properties`, so tracking always holds for them.
- SchemaExactness.FragmentExact: a schema with a keyword value of the wrong kind accepts nothing here, since 2020-12 gives it no meaning.
- SchemaReference.PointerReachesPath: `$id` is an annotation, as in the code, and percent-decoding of URI fragments (section 6 of RFC 6901) is not done, as in the code.
- RegexEngine.CompilePattern: starts from the parsed pattern; the pattern parser, its nesting limit and its error messages are not part of this model.
- RegexCompiler.Compiler.Compile: the parser's node arena is a tree here, and a refusal by exception is a result.
- Publication.PublishRoutes: `_verify_completed_route` is an oracle for RPM and the comparison of digests for APT; downloads, key handling, `preflight` and the shape of command lines are not modelled.
- RatchetGuard.HeadStaysRatcheted: assumes, as `RatchetGuard.ToleranceOutlivesRuns` does, that git supplies HEAD at every regeneration; without that it is false, as `RatchetGuard.OneBlindWriteSmuggles` shows. Commits are those of a working copy that a successful regeneration wrote.
- Ratchet.Classify: starts from parsed matrices; `parse_matrix`, the rendering and the wording and order of the report lines are not modelled. Baselines are compared as parsed.
- WorkflowYaml.Validate: the mappings of the stack are values, so sharing of a mapping object is not modelled (the code shares none).
- WorkflowText.ValidateText: double-quoted keys are read by a parameter; text is already split into lines, and white space outside ASCII is not recognised.
- FatalityRows.PropagateTypeFatality: delegations are assumed to lead to known types, as `build_rows` makes them.
- SourceText.BlanksCommentsIff: comments and literals are those of `SourceLexer`, where every quote delimits a literal; raw string literals, continued lines and digit separators of C++ are not part of that grammar.
- SourceBlocks.ParseBlocks: blocks are values without parent pointers, and the header text and kind of a block are left out; those are heuristics by design.
- SourceText.LineOf: offsets up to the length of the text.
- ReleaseAssembly.AssembleUnsigned: metadata, route fragments and the manifest's own fields are judged outside; JSON texts are parameters.
- ReleaseValidation.ValidateCandidateInventory: routes and targets are parsed; of `NativeRoute.from_mapping` only the checks that tie fields together are modelled.
- ReleasePipeline.VerifyFiles: manifest parsing, build identities, the publication contract, the signing key comparison, empty release notes and GPG are not modelled.
- SigningBoundary.VerifyChecksums: regular files only; symbolic links, the location of the plan and atomic writes are not modelled.
- DebianOrder.OrderEmbeds: versions without an epoch, which are the only ones the project makes.
- Schedule.EveryPairBothWays: the seeded shuffle is any permutation of distinct servers.
- HostNetwork.HostStatsCollector.Collect: readings under `/proc` are parameters; parsing them, timestamps and the sampling thread are not modelled.
- Headroom.Evaluate: floating-point rounding and the integrity checks of the samples are not modelled.
- CpuList.ParseCpuSet: digits and white space outside ASCII are not recognised.
- TreeFraming.FeedDigest: which files belong to a tree, and the hash itself, are not modelled.
- The protocol runtime, transports, code generators other than the matrix guard, packaging scripts, conformance fixtures and fixed-table validators are not part of this model.
