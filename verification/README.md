# Token Shrinker: a verified model of its protocols and transformations

Token Shrinker is a local service that shrinks what a coding agent has to read. A daemon admits a bounded
number of concurrent requests; a repository provider turns files into redacted, addressable chunks; a context
packer deduplicates, ranks and packs them under a token budget; compressors shorten program output and long
files; an installer edits the agents' own configuration files. This project models the parts of it where a
mistake is easy to make and hard to see, and proves what they promise.

| file | module | component |
|---|---|---|
| gate.dfy | `RequestGate` | the daemon's admission gate: mutex, condition variable, shutdown flag, as a step system over any number of threads |
| dispatch.dfy, deadlines.dfy | `Dispatch`, `Deadlines` | the service graph on top of the gate: cancellation map, flags, duplicate ids, and what a deadline does over a run |
| agentconfig.dfy | `AgentConfig` | the editors' actions and errors |
| toml.dfy, tomledits.dfy, tomlgrammar.dfy | `TomlFragment`, `TomlEdits`, `TomlGrammar` | the marker-based TOML editor and its character scanner, the editor on files in every state, and the grammar of the texts that the scanner accepts |
| json.dfy, jsonheap.dfy, jsonedit.dfy | `JsonOwnership`, `JsonHeap`, `JsonEditing` | the JSON editor: what it means on parsed values, and the in-place walk over objects in memory that refines it |
| lines.dfy, terminal.dfy | `LineSplitting`, `Terminal` | the streaming terminal compressor |
| capture.dfy | `Capture` | bounded capture of a process's streams, feeding the compressor |
| ordering.dfy, extract.dfy | `Ordering`, `Extractive` | the stable sort, and the extractive compressor |
| linekinds.dfy | `LineKinds` | which lines the two compressors single out, by the words in them |
| handles.dfy, chunks.dfy | `Handles`, `Chunks` | percent-encoded source handles and line-range chunks |
| redact.dfy, credentials.dfy | `Redactor`, `CredentialKeys` | the built-in credential redactor, and which keys it takes for credentials |
| cache.dfy, attempts.dfy, stale.dfy, loader.dfy | `TextCache`, `LoadAttempts`, `StaleStamps`, `TextLoader` | the metadata-stamped cache: all threads as a step system, what its two attempts are good for, what a reused stamp does to it, and the loop of one thread |
| scoring.dfy, packing.dfy, packer.dfy, bundles.dfy | `Relevance`, `GreedyPacking`, `ContextPacker`, `ContextBundles` | scores, greedy selection, the context packer and its promises |
| framing.dfy | `HashFraming` | the bytes fed to a bundle's hash |
| circuit.dfy, rate.dfy | `Circuit`, `CallRate` | the provider circuit breaker, and how many calls it lets in |
| texts.dfy | `Options`, `Texts` | small pieces of the standard libraries |

Concurrent code is a step system: an event is one atomic step of one thread, `Enabled` (or `CanStep`) says when
it can happen, `Apply` (or `Step`) what it does, and the theorems hold in every state that any run from an initial
state reaches. Code that changes objects or runs loops is written as classes and methods, each proved against a
specification whose properties are then proved as lemmas. Foreign code (the redaction policy in use, the token
counter, SHA-256, the lossy UTF-8 decoder, the evidence test) is a function parameter about which nothing is
known.

Some promises turned out to need a condition, or to fail:

- A second TOML install gives the installed text back, and uninstall the source, if and only if the fragment is
  plausible and has no end marker. In the two other cases the first install still succeeds, and then the editor
  calls its own file malformed or its own block modified (`TomlFragment.ReinstallIsIdentity`,
  `UninstallAfterInstall`, `ReinstallFails`).
- The JSON self-check is exact for the two-segment paths that the adapters use. On longer paths it also fires when
  nothing unrelated changed, exactly when the path goes on below an empty non-root object
  (`JsonOwnership.GuardAfterSet`, `GuardFiresBelowEmptyObject`).
- `cancel` reaches the running request if and only if no rejected duplicate has overwritten its entry
  (`Dispatch.CancelReachesExactly`, `DuplicateRedirectsCancel`), and an id whose dispatch met a clock error is
  refused for ever (`StaleIdIsRefusedForEver`).
- A permit can still be handed out after shutdown has stored its flag, to the one thread that reloaded the flag just
  before; nobody else gets one (`RequestGate.NoPermitAfterStore`, `PermitCanFollowStore`).
- Cutting a large source loses lines when its source id is long: a chunk whose handle would exceed 1,024 bytes is
  dropped without a trace. A non-empty line is in a chunk if and only if the handle of its group fits, and the lost
  lines are always a tail of the source (`Chunks.EveryLineIsChunked`, `LossesAreATail`, `TenthLineIsLost`).
- Redaction hides a sensitive value up to its shape: two non-blank values give the same output if and only if both
  are unquoted, or both begin with a quote and agree on the trailing comma (`Redactor.SensitiveValueIsHidden`).
- The cache agrees with the files because a change gives a file a new length or time. For a change that does not,
  some run answers a later call with the old text if and only if the two texts redact differently
  (`StaleStamps.StaleExactly`).
- A larger token budget never uses fewer tokens, yet it can drop an item that a smaller one kept. Selection keeps
  everything up to a ceiling if and only if nothing that the ceiling takes is followed by something cheaper that
  is not free (`GreedyPacking.UsedIsMonotone`, `SelectionIsMonotoneExactly`, `SelectionIsMonotoneForAllBudgets`).
- A path match outscores everything that a candidate without one can have if and only if that candidate matches at
  most nineteen terms; counts go up to 255 (`Relevance.PathOutweighsExactly`).
- A bundle's ranking is independent of the order of the candidates if and only if no content hash has two
  different best candidates; distinct source ids suffice (`ContextBundles.RankingIsDeterministicExactly`,
  `DistinctIdsSuffice`).
- The lines of a text, joined again, are the text without the carriage return right before each line break
  (`LineSplitting.JoinedLinesExactly`).

## Model

| member | source | states |
|---|---|---|
| RequestGate.StepInv | crates/ts-daemon/src/lib.rs:286-315 | Every step of every thread keeps the gate's invariant |
| RequestGate.ActiveCountsPermits | crates/ts-daemon/src/lib.rs:287-315 | In every reachable state the counter equals the number of live permits and is at most the maximum |
| RequestGate.NoLostWakeup | crates/ts-daemon/src/lib.rs:287-315 | Before shutdown, if a thread sleeps while the mutex is free, the permits plus the threads woken and not yet rechecked are at least the maximum |
| RequestGate.FreeSlotIsTakeable | crates/ts-daemon/src/lib.rs:287-315 | A free slot never coexists with only sleepers: some woken thread takes it in four steps |
| RequestGate.QuiescentSleepersMeanFull | crates/ts-daemon/src/lib.rs:287-315 | When nobody is on the way in or out, a sleeper means that the gate is full |
| RequestGate.NoPermitAfterStore | crates/ts-daemon/src/lib.rs:287-303 | After the flag is stored, no run hands a permit to a thread that reloads the flag after the store; the one that may have reloaded it before is the owner of the mutex, so with a free mutex there is none |
| RequestGate.PermitCanFollowStore | crates/ts-daemon/src/lib.rs:295-301 | That one permit is possible: a reachable state in which the flag is stored, nobody has a permit, and the next step of the mutex owner takes one |
| RequestGate.EnterAfterStoreIsRefused | crates/ts-daemon/src/lib.rs:287-303 | Wherever an `enter` that has not yet reloaded the flag stands when the flag is stored, at the check, at the wait, asleep, woken or before the reload, and whatever the others do, each step of its own brings it one nearer to the refusal and nothing else moves it: it is refused exactly when it has taken as many steps as it was away |
| RequestGate.OwnerIsRefusedAtOnce | crates/ts-daemon/src/lib.rs:289-297 | A thread that holds the mutex at the check after the store is refused by its next two steps, which are always possible |
| RequestGate.ShutdownLeavesOneSleeper | crates/ts-daemon/src/lib.rs:416-419 | After the shutdown notification at most one thread sleeps, and only while the gate is full or its owner is about to notify |
| RequestGate.NextDropWakesLastSleeper | crates/ts-daemon/src/lib.rs:308-315 | The next permit dropped wakes that last sleeper, and then nobody sleeps |
| RequestGate.DrainedGateHasNoSleeper | crates/ts-daemon/src/lib.rs:308-315 | Once all permits are returned and the mutex is free after shutdown, nobody sleeps |
| Dispatch.StepOk | crates/ts-daemon/src/lib.rs:360-414 | Every event keeps the invariant that ties the cancellation map to the requests in flight |
| Dispatch.HandlersAreExclusive | crates/ts-daemon/src/lib.rs:360-403 | In every reachable state two handlers never run for one request id, and at most the maximum run at all |
| Dispatch.FlagsNeverFall | crates/ts-daemon/src/lib.rs:378-414 | A raised cancellation flag stays raised in every run |
| Dispatch.CancelResultExactly | crates/ts-daemon/src/lib.rs:405-414 | `cancel` answers true exactly while a request with that id is in flight or a clock error has left its entry behind |
| Dispatch.CancelReachesExactly | crates/ts-daemon/src/lib.rs:405-414 | `cancel` raises the flag of the running request if and only if no rejected duplicate overwrote its entry, and never that of another request |
| Dispatch.CancelTouchesNoOther | crates/ts-daemon/src/lib.rs:405-414 | `cancel` of any id, in flight, stale or unknown, leaves the flag of every request in flight under another id as it was |
| Dispatch.DistinctRunDisplacesNobody | crates/ts-daemon/src/lib.rs:363-374 | In runs whose in-flight ids are distinct no token is ever overwritten |
| Dispatch.CancelIsPreciseInDistinctRuns | crates/ts-daemon/src/lib.rs:405-414 | In such runs `cancel` of a request in flight answers true and raises that request's flag alone |
| Dispatch.DisplacedForEver | crates/ts-daemon/src/lib.rs:363-374 | A token that a duplicate overwrote is unreachable in every later state of every run: no id leads to it, and `cancel` of no id changes its flag |
| Dispatch.StaleIdIsRefusedForEver | crates/ts-daemon/src/lib.rs:368-377 | After a clock error the id is refused as a duplicate in every later state of every run |
| Dispatch.DuplicateRedirectsCancel | crates/ts-daemon/src/lib.rs:368-374 | One rejected duplicate is enough: `cancel` then answers true yet leaves the running request's flag as it was |
| Dispatch.DuplicateWitness | crates/ts-daemon/src/lib.rs:360-374 | Such a state is reachable, for every id |
| Deadlines.FlagIsRaisedExactly | crates/ts-daemon/src/lib.rs:377-414 | Over every run: the flag of a request in flight is raised if and only if a `cancel` led to its token, its own clock reading was at or past its deadline, or its own timer fired; and a timer fires only after a reading of that same request before its deadline |
| Deadlines.FlagRisesExactly | crates/ts-daemon/src/lib.rs:377-414 | One event raises exactly the flags it is a cause for, a timer its own token's alone, and a new flag starts lowered |
| Deadlines.ClockDecides | crates/ts-daemon/src/lib.rs:377-399 | A request without a deadline, or whose clock can be read, goes on to its handler; from a reading at or past the deadline on its flag is raised for good and no timer runs, and any other reading raises nothing; a clock error ends it |
| Deadlines.DroppedTimerStaysOff | crates/ts-daemon/src/lib.rs:382-400 | Dropping the guard of a request that has returned ends its timer for ever, unless it had run out |
| Deadlines.DuplicateIsRefusedExactly | crates/ts-daemon/src/lib.rs:360-375 | A registration is refused if and only if a request with that id is in flight or a clock error left its entry behind; otherwise it gets a token of its own, not cancelled |
| TomlFragment.IsPlausibleToml | packages/adapter-core/src/index.ts:354-382 | The scanner's loop, with its three-character lookahead, accepts exactly the texts that the scan function accepts |
| TomlFragment.ScanPrefix | packages/adapter-core/src/index.ts:354-382 | Composition despite the lookahead: scanning two texts in turn is scanning their concatenation unless a run of quotes crosses the boundary |
| TomlFragment.PlausibleTrim | packages/adapter-core/src/index.ts:330-334 | Trimming a fragment does not change the scanner's verdict |
| TomlFragment.InstalledIsPlausible | packages/adapter-core/src/index.ts:329-382 | For an accepted source, the installed text is accepted exactly when the fragment is |
| TomlFragment.ReinstallIsIdentity | packages/adapter-core/src/index.ts:329-352 | What a second install makes of the result of a first one, for every fragment: the same text if the fragment is plausible and has no end marker, the malformed error if it is implausible, the ownership error otherwise |
| TomlFragment.ReinstallFails | packages/adapter-core/src/index.ts:329-352 | Both errors happen: the fragment `[`, and the end marker itself |
| TomlFragment.UninstallAfterInstall | packages/adapter-core/src/index.ts:329-352 | Uninstall after install gives the source with its trailing white space normalised to one line break, or nothing for a blank source, if and only if the fragment is plausible and has no end marker |
| TomlFragment.CycleIsStable | packages/adapter-core/src/index.ts:329-352 | Installing into the uninstalled file gives the installed text again |
| TomlGrammar.PlausibleExactly | packages/adapter-core/src/index.ts:354-382 | The scanner accepts a text if and only if it has no zero character and is made of plain characters, comments, quoted texts on one line, triple-quoted texts and balanced brackets |
| TomlEdits.FirstInstall | packages/adapter-core/src/index.ts:329-352 | A first install writes the three lines of the block below the source, with one blank line between, or alone into a blank file |
| TomlEdits.UninstallUntouched | packages/adapter-core/src/index.ts:348-348 | Uninstalling from an accepted file without the block gives the file back as it was, or leaves it absent |
| TomlEdits.UserTextSurvives | packages/adapter-core/src/index.ts:348-351 | Text that the user wrote after the block survives an uninstall with any fragment, below the text before the block and one blank line |
| TomlEdits.OtherFragmentIsRefused | packages/adapter-core/src/index.ts:341-346 | Over an installed block another fragment is refused as a conflict, unless the two differ in surrounding white space alone |
| TomlEdits.MalformedExactly | packages/adapter-core/src/index.ts:329-340 | A file is refused as malformed if and only if the scanner rejects it, it has one marker without the other, or the first end marker comes first |
| TomlEdits.ConflictExactly | packages/adapter-core/src/index.ts:341-346 | A file is refused as modified if and only if it is well formed, something is to be installed, and the text between its markers is not the block |
| JsonOwnership.SetFrame | packages/adapter-core/src/index.ts:264-278 | A successful set stores the value at the path and changes nothing at any path apart from it |
| JsonOwnership.DeleteFrame | packages/adapter-core/src/index.ts:280-300 | A successful delete removes the owned value and changes nothing apart from the path; a parent goes only when the path was all it held |
| JsonOwnership.GuardAfterSet | packages/adapter-core/src/index.ts:302-325 | For paths of any length the self-check passes after a set if and only if the path does not continue below an empty non-root object |
| JsonOwnership.StripAfterDelete | packages/adapter-core/src/index.ts:302-325 | After a delete the self-check passes: the unchecked deletion of before and after agree |
| JsonOwnership.GuardNeverFires | packages/adapter-core/src/index.ts:242-250 | With two-segment paths the editor never reports a native-transport mutation |
| JsonOwnership.GuardFiresBelowEmptyObject | packages/adapter-core/src/index.ts:302-325 | With three segments below an empty object it does, although nothing unrelated changed |
| JsonOwnership.InstallTwice | packages/adapter-core/src/index.ts:242-250 | For paths of any length, installing into an installed configuration returns it unchanged |
| JsonOwnership.DeleteAfterSet | packages/adapter-core/src/index.ts:264-300 | For paths of any length, deleting what was set where nothing was gives the tree without the empty objects on the path |
| JsonOwnership.UninstallAfterInstall | packages/adapter-core/src/index.ts:242-250 | For paths of any length, when the owned key was absent, uninstall after install succeeds and gives the original tree without the empty objects on the path |
| JsonOwnership.TidiedPair | packages/adapter-core/src/index.ts:242-250 | For the two-segment paths of the adapters that is the original tree, or the tree without its originally empty parent |
| JsonOwnership.UninstallAbsent | packages/adapter-core/src/index.ts:280-293 | For paths of any length, uninstalling a key that is not there changes nothing, not even an empty parent |
| JsonOwnership.UninstallPresent | packages/adapter-core/src/index.ts:280-300 | Uninstalling the owned value removes it and leaves no parent on the path empty |
| JsonOwnership.ConflictExactly | packages/adapter-core/src/index.ts:264-300 | Either action is refused as a conflict if and only if a present parent is no object or the key holds another value |
| JsonOwnership.NativeTransportExactly | packages/adapter-core/src/index.ts:302-325 | The native-transport error comes if and only if an install that is no conflict goes on below an empty non-root object |
| JsonHeap.ViewReplaced | packages/adapter-core/src/index.ts:264-325 | Changing the one object at the end of a path changes the JSON seen from the root at that place only, because no object is a child twice |
| JsonHeap.AttachedView | packages/adapter-core/src/index.ts:264-278 | Attaching a fresh tree to a key changes that field of its object alone and keeps the whole a tree |
| JsonEditing.Clone | packages/adapter-core/src/index.ts:243-243 | A structured clone stands for the same JSON and shares no object with the original |
| JsonEditing.SetJsonPath | packages/adapter-core/src/index.ts:264-278 | The cursor loop, creating objects on the way, leaves the root standing for exactly what `SetPath` says, or fails exactly when it does |
| JsonEditing.PruneParents | packages/adapter-core/src/index.ts:295-299 | The upward loop over the remembered parents deletes exactly the emptied ones and stops at the first that is not |
| JsonEditing.DeleteJsonPath | packages/adapter-core/src/index.ts:280-300 | The in-place deletion refines `DeletePath`: deleted, untouched or refused in the same cases, with the same tree |
| JsonEditing.DeleteJsonPathUnchecked | packages/adapter-core/src/index.ts:311-325 | The self-check's deletion refines `Strip`, pruning even when the key was absent |
| JsonEditing.MutateConfig | packages/adapter-core/src/index.ts:242-250 | The whole JSON branch, on objects in memory, returns what the function on parsed values returns: the same tree or the same error |
| LineSplitting.SplitConcat | crates/ts-compress/src/lib.rs:510-520 | A stream cut anywhere, inside a line or between the two bytes of a line break, gives the same lines when the unfinished part is carried over |
| LineSplitting.JoinedLinesExactly | crates/ts-compress/src/lib.rs:287-287 | The lines of a text, joined again with its final line break, are the text without the one carriage return right before each line break and nothing else, so they are the text itself if and only if there is no such carriage return |
| Terminal.Compressor.RecordLine | crates/ts-compress/src/lib.rs:522-542 | Recording a line keeps the head list, the tail ring and the evidence equal to their meaning on the lines recorded so far |
| Terminal.Compressor.PushChunk | crates/ts-compress/src/lib.rs:510-520 | Pushing a chunk records exactly the lines it completes and keeps the rest |
| Terminal.Compressor.PushStdout | crates/ts-compress/src/lib.rs:472-476 | The new abstract state is that of the specification, and the other stream's unfinished line is untouched |
| Terminal.Compressor.Finish | crates/ts-compress/src/lib.rs:487-508 | The summary holds the first lines, the last of the rest and the counted evidence of all recorded lines, unterminated lines recorded last |
| Terminal.CompressTerminal | crates/ts-compress/src/lib.rs:546-555 | The one-shot form's summary, in its recording order: standard output lines, standard error lines, then the two unterminated lines |
| Terminal.RecordedOrder | crates/ts-compress/src/lib.rs:487-555 | The recording order of the one-shot form: terminated lines of standard output, then of standard error, then the unterminated line of each |
| Terminal.KeptLines | crates/ts-compress/src/lib.rs:522-542 | A summary keeps a beginning and an end of the recorded lines, each as long as its limit allows, without overlap |
| Terminal.ChunkIndependence | crates/ts-compress/src/lib.rs:472-520 | From any state, pushing a and then b on a stream gives the state of pushing their concatenation |
| Terminal.StateDeterminesFields | crates/ts-compress/src/lib.rs:443-453 | Compressors with the same settings and the same abstract state have equal head lists, tail rings, evidence and unfinished bytes |
| Terminal.PushInParts | crates/ts-compress/src/lib.rs:472-520 | Of two compressors in the same state, one given a and then b and the other their concatenation end with every field equal |
| Terminal.RecordedLinesAreConserved | crates/ts-compress/src/lib.rs:472-542 | For any interleaving of chunks of two streams the recorded lines are, as a bag, the lines of the two streams |
| Terminal.EvidenceCountsBothStreams | crates/ts-compress/src/lib.rs:522-542 | Each actionable line's count is its number of occurrences across both streams, whatever the interleaving, and no other line is counted |
| Capture.ReadBounded | crates/ts-exec/src/lib.rs:340-375 | For any split of the input into reads: the whole input when it is at most the cap, else exactly its first ceil(cap/2) and last floor(cap/2) bytes; a read error loses all |
| Capture.HalvesShareCap | crates/ts-exec/src/lib.rs:340-375 | Head and tail share the cap, and the head has the odd byte |
| Capture.TruncatedLines | crates/ts-exec/src/lib.rs:42-50 | The lines of a truncated capture: the head's, the one the cut went through, the marker line and the tail's |
| Capture.CaptureAndCompress | crates/ts-exec/src/lib.rs:195-205 | Capturing both streams and compressing them gives the summary of the retained bytes |
| Capture.UntruncatedEvidenceIsExact | crates/ts-exec/src/lib.rs:42-50 | Untruncated output loses no actionable line: every count is the number of occurrences in what the process wrote |
| Capture.EvidenceIsExact | crates/ts-exec/src/lib.rs:42-50 | With or without truncation each count is exactly what the retained parts contribute, and the marker adds nothing |
| Capture.HeadLinesSurvive | crates/ts-exec/src/lib.rs:340-375 | For a decoder that leaves the ASCII marker as it is, an actionable line that ends inside the head of a truncated stream, or stands anywhere in an untruncated one, is in the evidence with at least its occurrences there, and these lines are the first lines of what the process wrote |
| Capture.MarkerIsNotEvidence | crates/ts-compress/src/lib.rs:522-569 | The omission marker passes none of the evidence tests |
| LineKinds.ActionableExactly | crates/ts-compress/src/lib.rs:522-569 | A line is evidence if and only if it mentions one of six words in any letter case, or ends in a colon and a number after a path with a separator |
| LineKinds.ClassExactly | crates/ts-compress/src/lib.rs:292-326 | The class of a line: 0 when it mentions a term or one of four diagnostic words in any letter case, else 1 when it begins with one of seven definition keywords, else 2 when it begins with '#', else none |
| Ordering.SortChain | crates/ts-context/src/lib.rs:517-528 | The stable sort orders by the comparison, and keeps the order of the input among equals |
| Ordering.ChainUnique | crates/ts-context/src/lib.rs:517-528 | A list so ordered is determined by its members |
| Extractive.WantedLines | crates/ts-compress/src/lib.rs:292-334 | The priority map equals its declarative meaning: an important line's own class, 3 within the distance of an important line, else absent |
| Extractive.WantedExactly | crates/ts-compress/src/lib.rs:317-334 | A line is wanted if and only if an important line is at most the distance away; important lines keep their class, the others have 3 |
| Extractive.RankedKeys | crates/ts-compress/src/lib.rs:340-341 | The ranking lists every wanted line once, by priority and then by position |
| Extractive.PackLines | crates/ts-compress/src/lib.rs:336-349 | A line is selected exactly when it fits after the selected lines ranked before it, and the use is the exact sum, within the budget |
| Extractive.UsedIsBytesAndBreaks | crates/ts-compress/src/lib.rs:336-349 | A selection uses the bytes of its lines and four for each of them |
| Extractive.Ranges | crates/ts-compress/src/lib.rs:365-377 | The loop that extends its last pair returns the maximal runs of consecutive indices |
| Extractive.RunsUnique | crates/ts-compress/src/lib.rs:365-377 | The maximal runs of a set are determined by it |
| Extractive.CompressContext | crates/ts-compress/src/lib.rs:281-363 | From the bytes of a source: passages are the maximal runs of the selected lines of the text, each line verbatim but for the carriage return of its break, and the omitted ranges are the maximal runs of all others |
| Extractive.TilesEveryLine | crates/ts-compress/src/lib.rs:350-390 | Every line lies in exactly one passage or omitted range |
| Extractive.LineNumbersAreExact | crates/ts-compress/src/lib.rs:350-390 | Below 2^32 lines the printed line numbers are those of the runs |
| Extractive.PassagesFitBudget | crates/ts-compress/src/lib.rs:336-362 | Total passage length plus four bytes a passage is at most the reported use |
| Handles.EncodePath | crates/ts-repo/src/lib.rs:877-890 | The encoding loop computes the percent encoding of every byte outside the safe set |
| Handles.DecodeRelativePath | crates/ts-repo/src/lib.rs:892-928 | The decoding loop returns the components, or the error of the first bad escape, invalid text or unsafe component |
| Handles.EncodedIsSafe | crates/ts-repo/src/lib.rs:877-890 | Encoded text is ASCII and never contains '#' |
| Handles.UnescapeEncoded | crates/ts-repo/src/lib.rs:877-912 | Unescaping an encoded path gives its bytes back |
| Handles.PathRoundTrip | crates/ts-repo/src/lib.rs:877-928 | For every relative path of non-empty components other than "." and "..", decoding its encoding gives the components back |
| Handles.DecodedExactly | crates/ts-repo/src/lib.rs:892-918 | Decoding succeeds exactly on the escaped forms of relative paths, so that no text decodes to a path with an empty, "." or ".." component |
| Handles.SuffixRoundTrip | crates/ts-repo/src/lib.rs:1072-1095 | Parsing an encoded path with a printed valid line span gives exactly that path and span |
| Handles.HandleRoundTrip | crates/ts-repo/src/lib.rs:633-654 | Every handle of a relative path, with or without a valid span, resolves to exactly that path and span |
| Handles.HandlesAreDistinct | crates/ts-repo/src/lib.rs:979-1000 | Distinct paths or spans have distinct handles |
| Handles.EscapeExactly | crates/ts-repo/src/lib.rs:877-890 | ASCII letters, digits, '/', '.', '_' and '-' stay as they are, any other byte becomes '%' and two upper-case digits |
| Handles.EscapeIsRead | crates/ts-repo/src/lib.rs:892-928 | Wherever it stands, an escape with digits in either case is read as its byte |
| Handles.EscapedPathExactly | crates/ts-repo/src/lib.rs:892-918 | The bytes of a path are accepted, once escaped, if and only if they are text and no part between slashes is empty, "." or ".."; the result is those parts |
| Handles.BrokenEscapeIsRejected | crates/ts-repo/src/lib.rs:896-906 | A percent sign without two hexadecimal digits after it makes the whole text invalid |
| Handles.PrintedSpanExactly | crates/ts-repo/src/lib.rs:1072-1095 | A printed pair of line numbers is accepted if and only if 1 <= first <= last <= 2^32 - 1, and rejected as an invalid handle otherwise |
| Handles.HalfSpanIsRejected | crates/ts-repo/src/lib.rs:1072-1080 | A first line without a last line is rejected |
| Chunks.ChunkCandidate | crates/ts-repo/src/lib.rs:1018-1060 | The two nested loops: each round takes at least one line, and the result is the surviving groups or the source itself |
| Chunks.FillGroup | crates/ts-repo/src/lib.rs:1032-1042 | The inner loop extends a group while the next line fits, and always takes one |
| Chunks.GroupBecomesChunk | crates/ts-repo/src/lib.rs:979-1016 | A group is dropped if and only if it is one blank line or its handle is longer than a source id may be; otherwise it becomes a chunk with its text |
| Chunks.ChunksIncrease | crates/ts-repo/src/lib.rs:1018-1060 | Chunk spans increase and are disjoint |
| Chunks.CutExactly | crates/ts-repo/src/lib.rs:1018-1060 | A source is cut if and only if it is too large and some group other than one blank line has a handle that fits; otherwise it is returned whole |
| Chunks.LineIsKeptExactly | crates/ts-repo/src/lib.rs:1018-1060 | Some chunk has a non-empty line if and only if the handle of the group that the line is put into fits |
| Chunks.EveryLineIsChunked | crates/ts-repo/src/lib.rs:1018-1060 | Of a source that is too large, a non-empty line lies in exactly one of the chunks returned if and only if the handle of its group fits; otherwise no chunk has it |
| Chunks.LossesAreATail | crates/ts-repo/src/lib.rs:1018-1060 | After a lost line every non-empty line of the source is lost |
| Chunks.NothingIsLostExactly | crates/ts-repo/src/lib.rs:1018-1060 | Nothing is lost if and only if the source is returned whole or the handle of its last non-empty line's group fits |
| Chunks.ShortIdLosesNothing | crates/ts-repo/src/lib.rs:1018-1060 | When the longest handle that the source can have fits, no line is lost |
| Chunks.LongIdIsNeverCut | crates/ts-repo/src/lib.rs:979-1060 | A source with an id of 1,019 bytes or more is returned whole, however large it is |
| Chunks.TenthLineIsLost | crates/ts-repo/src/lib.rs:979-1060 | The loss happens: under every source id of 1,018 bytes, ten short lines give nine chunks and the tenth line is in none |
| Chunks.ChunksFit | crates/ts-repo/src/lib.rs:1032-1042 | A chunk is within the bound unless it is a single line |
| Chunks.GroupsAreMaximal | crates/ts-repo/src/lib.rs:1026-1042 | A group ends only at the end of the source, at the bound, or where the next line would exceed it |
| Chunks.SpanIsClipped | crates/ts-repo/src/lib.rs:979-1016 | A span that begins beyond the last line yields nothing, one that ends beyond it the lines up to the last, under the handle asked for |
| Chunks.ChunkCanBeFetched | crates/ts-repo/src/lib.rs:633-654 | The handle of a chunk, prefix, encoded path and line suffix, resolves to the path of its source and the span of the chunk, and that span of the unchanged source is the chunk |
| Redactor.RedactAssignments | crates/ts-repo/src/lib.rs:941-977 | The loop computes the redaction of the content, segment by segment, and its count |
| Redactor.RedactionIsLinewise | crates/ts-repo/src/lib.rs:941-977 | Each segment of the output is the redaction of the segment at the same place: every line break and every non-sensitive line is kept |
| Redactor.RedactionIsIdempotent | crates/ts-repo/src/lib.rs:941-977 | Redacting the output again gives the same text and the same count |
| Redactor.RedactInContext | crates/ts-repo/src/lib.rs:944-972 | What happens to a line does not depend on what precedes or follows it |
| Redactor.SensitiveValueIsHidden | crates/ts-repo/src/lib.rs:953-969 | Replacing a sensitive value by another leaves output and count identical if and only if both are unquoted, or both begin with a quote and agree on the trailing comma |
| CredentialKeys.SensitiveKeyExactly | crates/ts-repo/src/lib.rs:1097-1108 | A key is a credential's if and only if its letters and digits end in one of six names, in any letter case and with anything else in between |
| CredentialKeys.LineBecomes | crates/ts-repo/src/lib.rs:944-972 | What every line with a separator becomes, mask, quotes, space and comma included, and which lines stay as they are |
| TextCache.RunKeepsInv | crates/ts-repo/src/lib.rs:713-773 | Every run of any number of threads, with files changing between any two steps, keeps the cache's invariant |
| TextCache.EntriesMatchTheirStamps | crates/ts-repo/src/lib.rs:755-771 | After any run each entry is the redaction of the file at every instant, past or present, at which it bears the entry's stamp, and there is one |
| TextCache.LoadedDuringTheCall | crates/ts-repo/src/lib.rs:713-773 | After any run every success, hit or miss, returned the redaction of what the file held at some instant of the call |
| TextCache.QuietCallIsExact | crates/ts-repo/src/lib.rs:713-773 | A call during which its file did not change gives the one right answer: unreadable, too large, binary or the redacted text |
| LoadAttempts.AnswersMean | crates/ts-repo/src/lib.rs:713-773 | What the right answer is: unreadable exactly for an absent file, too large exactly above the cap, binary exactly with a zero byte or undecodable bytes, else the redaction of the decoded text under the file's length and time |
| LoadAttempts.QuietAttemptIsExact | crates/ts-repo/src/lib.rs:713-773 | Also a second attempt is exact: when the file stays as it is from an instant before an attempt's first look to the end of the call, the answer is right for that instant |
| LoadAttempts.UnreadableHasCause | crates/ts-repo/src/lib.rs:735-754 | A call whose reads all gave bytes reports a file as unreadable only if it was absent at some instant of the call or changed at least twice during it |
| TextCache.CallIsBounded | crates/ts-repo/src/lib.rs:714-714 | A call makes at most two attempts: two reads and thirteen steps, whatever the others do |
| TextCache.NeverStuck | crates/ts-repo/src/lib.rs:713-773 | An unfinished call can always take its next step |
| StaleStamps.StaleExactly | crates/ts-repo/src/lib.rs:713-773 | For a file changed once from one readable content to another, some run of any number of threads answers a call that began after the change with the old text's redaction and not the new one's, if and only if the two files bear the same stamp and their texts redact differently |
| StaleStamps.LoadedIsCurrent | crates/ts-repo/src/lib.rs:713-773 | With different stamps every success of a call that began after the change is the redaction of the new text |
| TextLoader.Provider.LoadText | crates/ts-repo/src/lib.rs:713-773 | The loop as written, under arbitrary interference between its steps: a success is the redaction of the file at an instant of the call and is in the cache; a file that is quiet since the last attempt began gets its exact answer; and unless a read gave no bytes, unreadable means absent or changed at least twice |
| Relevance.BreakdownAddsUp | crates/ts-context/src/lib.rs:296-349 | The breakdown adds up to the score, has no zero part, and the 32-bit sum cannot overflow |
| Relevance.SignalsWeigh | crates/ts-context/src/lib.rs:296-313 | No signals score nothing; a unit of freshness adds one, a term a hundred of those, an exact match eight terms, a diagnostic ten, a path match forty |
| Relevance.PathOutweighsExactly | crates/ts-context/src/lib.rs:299-303 | A path match outscores whatever a candidate without one can have if and only if that candidate has at most nineteen matching terms |
| Relevance.PartsAreLosses | crates/ts-context/src/lib.rs:315-349 | Each part of the breakdown is what the score would lose without that kind of evidence; a kind has a part exactly when something would be lost, and never two |
| Relevance.LessExactly | crates/ts-context/src/lib.rs:517-528 | The order of strings: a proper prefix first, else the smaller character at the first difference |
| GreedyPacking.SelectWithinBudget | crates/ts-context/src/lib.rs:83-108 | An index is selected exactly when its cost fits after the selected ones before it; the others are omitted; the use is their exact sum within the budget |
| GreedyPacking.GreedyIsUnique | crates/ts-context/src/lib.rs:92-101 | That rule determines the selection |
| GreedyPacking.NothingLeftExactly | crates/ts-context/src/lib.rs:92-101 | Nothing is omitted if and only if everything fits together |
| GreedyPacking.UsedIsMonotone | crates/ts-context/src/lib.rs:83-108 | A larger budget never uses less; where the selections part, it has passed the smaller budget |
| GreedyPacking.SelectionIsMonotoneExactly | crates/ts-context/src/lib.rs:83-108 | Up to any ceiling, a larger budget keeps everything that a smaller one selects if and only if nothing that the ceiling takes is followed by something cheaper that is not free |
| GreedyPacking.SelectionIsMonotoneForAllBudgets | crates/ts-context/src/lib.rs:83-108 | Over all budgets, if and only if the costs never fall, free ones aside |
| ContextPacker.BuildContext | crates/ts-context/src/lib.rs:480-577 | The loops that keep a winner per hash, list duplicates and pack, with the sort between them, return the specified bundle |
| ContextBundles.WinnerBeats | crates/ts-context/src/lib.rs:487-501 | The winner of a hash is not beaten by any candidate of its class and beats all earlier ones |
| ContextBundles.RankedIsRanking | crates/ts-context/src/lib.rs:517-528 | The ranking holds the winners once each, by score, then source id, then content hash |
| ContextBundles.PathRanksBeforeDiagnostic | crates/ts-context/src/lib.rs:299-307 | Of two ranked candidates that differ only in a path match instead of a diagnostic, the path match comes first |
| ContextBundles.ItemsAreInRankOrder | crates/ts-context/src/lib.rs:517-555 | The items of every bundle are ordered by higher score, then smaller source id, then smaller content hash |
| ContextBundles.ItemsCarryCandidates | crates/ts-context/src/lib.rs:530-555 | Every item carries a candidate's id, hash and content unchanged, its score with parts that add up to it, and the counter's tokens |
| ContextBundles.RankingIsDeterministicExactly | crates/ts-context/src/lib.rs:487-528 | Every permutation of the candidates has the same ranking if and only if no content hash has two different best candidates |
| ContextBundles.DistinctIdsSuffice | crates/ts-context/src/lib.rs:487-501 | Pairwise distinct source ids leave no content hash with two different best candidates |
| ContextBundles.BundleIsDeterministic | crates/ts-context/src/lib.rs:480-577 | When no content hash has two different best candidates, permuting the candidates leaves items, use, hash and trace unchanged and only permutes the omissions |
| ContextBundles.TiesDependOnOrder | crates/ts-context/src/lib.rs:487-501 | One source with one content, offered once as an exact match and once for eight matching terms, has a ranking that depends on the order |
| ContextBundles.ItemsAreUniqueBest | crates/ts-context/src/lib.rs:487-555 | Under the same condition each item is the one best candidate of its content hash, by score and smaller source id |
| ContextBundles.DuplicateNamesTheKept | crates/ts-context/src/lib.rs:503-514 | A duplicate is reported with the id of a ranked candidate that has its hash and that it does not beat |
| ContextBundles.EveryCandidateOnce | crates/ts-context/src/lib.rs:503-576 | Items and omissions partition the candidates, and the counts of the trace add up |
| ContextBundles.BudgetIsKept | crates/ts-context/src/lib.rs:530-555 | The use is the exact sum over the items and at most the budget; a candidate goes over exactly when it does not fit after the items ranked above it |
| ContextBundles.PackingIsSelection | crates/ts-context/src/lib.rs:530-555 | The packing loop selects what `select_within_budget` selects on the ranked contents |
| ContextBundles.RebuildIsIdentity | crates/ts-context/src/lib.rs:480-577 | Building again from the candidates behind the items gives the same items, use and hash, and omits nothing |
| HashFraming.HashBundle | crates/ts-context/src/lib.rs:579-598 | The loop feeds the hasher exactly the frames of the items, in order |
| HashFraming.FrameLayout | crates/ts-context/src/lib.rs:579-593 | Where the parts of a frame stand: length and source id, length and content hash, score, tokens |
| HashFraming.LowByteIsLast | crates/ts-context/src/lib.rs:585-593 | Lengths and numbers are written with the most significant byte first |
| HashFraming.HexDigits | crates/ts-context/src/lib.rs:595-604 | A digest is written in lower-case hexadecimal, the high half of each byte first |
| HashFraming.FramesPrefixExactly | crates/ts-context/src/lib.rs:579-593 | The bytes of one bundle begin with those of another exactly when its items begin with the other's, although no count is written |
| HashFraming.FramesInjective | crates/ts-context/src/lib.rs:579-593 | Two item lists feed the same bytes only if their source ids, content hashes, scores and token counts are equal in sequence |
| HashFraming.EqualHashesMeanEqualItems | crates/ts-context/src/lib.rs:579-604 | Equal bundle hashes mean equal items, or a collision of the digest itself |
| ContextBundles.EqualBundleHashes | crates/ts-context/src/lib.rs:579-604 | Two built bundles with equal hashes, whatever their candidates, budgets and counters, have items that agree in source id, content hash, score and token count, unless the digest collides on their frames |
| Circuit.CircuitBreaker.PermitCall | crates/ts-provider/src/lib.rs:236-246 | Admits or rejects by the time since opening, and an admitted probe resets the state |
| Circuit.CircuitBreaker.RecordFailure | crates/ts-provider/src/lib.rs:255-261 | The saturating count, and the opening time when it reaches the threshold |
| Circuit.ManagedProcess.RunOperation | crates/ts-provider/src/lib.rs:311-331 | The serial protocol: a permit, then exactly one outcome; a rejected call records none |
| Circuit.OpenExactlyAtThreshold | crates/ts-provider/src/lib.rs:221-261 | Under any interleaving of the three operations the circuit is open exactly when the count has reached the threshold, and then since the last failure |
| Circuit.CountIsFailuresSince | crates/ts-provider/src/lib.rs:236-261 | Under any interleaving the count is the number of failures since the last success or the last call let in as a probe, as far as 32 bits go |
| Circuit.RejectedExactly | crates/ts-provider/src/lib.rs:236-246 | A call is turned away exactly when the threshold is reached and the last failure is less than a cooldown ago |
| CallRate.ParallelRateBound | crates/ts-provider/src/lib.rs:221-331 | With at most n calls in flight, after any earlier run, while no outcome is a success: k calls let in, with e between the first and the last, satisfy k <= (threshold + n - 1) * (e / cooldown + 1) |
| CallRate.ParallelBoundIsReached | crates/ts-provider/src/lib.rs:221-331 | That bound is tight for every configuration, number of callers and number of rounds |
| CallRate.SerialIsRun | crates/ts-provider/src/lib.rs:311-331 | A serial run whose admitted calls fail is a run with at most one call in flight that lets the same calls in |
| CallRate.RateBound | crates/ts-provider/src/lib.rs:221-331 | In serial runs from any reachable state, k admitted calls that all fail, with e between the first and the last, satisfy k <= threshold * (e / cooldown + 1) |
| CallRate.BoundIsReached | crates/ts-provider/src/lib.rs:221-331 | The serial bound is tight for every configuration and every number of rounds |

## Left out

- Sockets, named pipes, access lists, lock files, log rotation, process spawning and killing, and directory walking: operating-system calls with no logic of their own.
- The SQLite memory and telemetry, the router, output and type crates, protocol framing, the updater, the command line, the editor extension and packaging: plumbing or short tables that would add only easy members.
- SHA-256, Ed25519, base64, semantic versions and serialisation codecs: foreign code; the digest is a parameter of the framing theorems.
- Poisoned mutexes and panicking handlers: none are modelled.
- Lossy UTF-8 decoding and Unicode case folding: a parameter per line, or restricted to ASCII text.
- JSON numbers are compared as written, key order and prototype keys such as `__proto__` are not modelled, and JavaScript strings are sequences of characters rather than UTF-16 units.
- The order in which the terminal summary lists its evidence, and an item's location, sensitivity, kind and modification time, which are copied unchanged.
- TextCache.Advance: a file's metadata and bytes are available exactly when the file is on the disk, so a permission error is a missing file; the hash and sensitivity of an entry are functions of its content and are not repeated.
- Extractive.PassagesFitBudget: assumes that a line is shorter than 2^64 - 4 bytes, as every line in memory is.
- Capture.ReadBounded: the cap 2^64 - 1 is excluded, because reserving half of it already aborts the program.
- Chunks.EveryLineIsChunked: says nothing of sources of 2^32 lines or more, whose line numbers no longer fit the span type and saturate.
