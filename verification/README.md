# Verified models of the coordination and generator scripts

This project models the parts of the repository whose behaviour is hardest to see from one function,
and proves what they promise. `dafny verify dfyconfig.toml` checks everything.

**Coordination** (`user/scripts/lazy_coord.py`).

- `Leases` models the lease table and the watermark file. Each operation is the list of disk states
  it passes through, one per file replacement; an event of a run says how many of them landed, so a
  crash between two replacements is an ordinary event. Every operation takes its own time, and times
  may go backwards. `LeaseSafety` holds the theorems about whole runs (fencing, time to live, shard
  set), and `LeaseStore` the class whose methods rewrite the two files as the code does; each method
  is proved against `Leases`, including every intermediate disk state. `LeaseSlots` adds the slot
  directories, which an operation removes before it writes, and crashes in the middle of that.
- `DirectoryLock` is a state machine over the file-system calls of the global lock: `mkdir`, owner
  record, observation, rename, unlink, `rmdir`, process death, time. A generation number, unknown to
  the code, tells one `mkdir` from the next.
- `LaneLedger` models `lanes.json`: its record steps, the merge wave and the end-of-run grouping.

**Coupled skills** (`user/scripts/generate-coupled-skills.py`, `user/scripts/lazy_parity_audit.py`).
`CoupledSkills` splits documents into blocks, extracts an overlay, validates it and generates;
`TokenSubstitution` is the real substitution the generator imports.

**Includes** (`user/scripts/project-skills.py`). `IncludeExpander` expands a file graph that may have
cycles. The expansion is also modelled as a tree, so that markers can be compared with cycles.

**Setup** (`setup.py`). `Psd1Lexer` and `Psd1Parser` model the tokenizer and the parser object,
`Psd1RoundTrip` a printer for manifests and the round trip, `Psd1Acceptance` its converse, `Psd1Errors`
what a refusal reports, `LinkSetup` the three verbs over a file system of real content and links, and
`LinkAgreement` decides when they disagree.

**Evaluation** (`user/scripts/efficacy-eval.py`). `Efficacy` models records, review windows over a
growing run log, the confounder cap and runs of captures and reviews in any order.

**Gate reconciliation** (`user/scripts/harness-gate.py`). `GateReconciliation` models the netting of
removed against added constructs, with its shared, consumed pool.

`Strings` and `Prelude` hold shared notions.

## Where the code and its documentation differ

The models follow the code.

- `_rename_then_remove` says that exactly one reclaimer ever wins. The rename goes by path, with no
  second look at the owner, so it can hit a later generation: `DirectoryLock.LateRenameAdmitsTwo`
  is a run with two holders, `TakeOverExcludesIff` and `StepKeepsInvIff` say when one rename is
  harmless, and `RunsExclude` proves exclusion for the runs whose renames are.
- `acquire_item_lock` is described as first-in-first-out. It polls, and other workers may overtake
  between two attempts, so no order is claimed.
- `_canonical_block_map` says headings are unique. Nothing enforces that and the round trip does not
  need it.
- `build_directives` says a derived block becomes a reference if some canonical block matches. Only
  the last canonical block of its key is considered (`CoupledSkills.ReferenceIffLastMatches`).
- `_reclaim` says it scrubs the slot directories of expired entries. An acquire looks for them beside
  `leases.json`; where the pool is elsewhere it drops the entries and leaves their directories for good
  (`LeaseSlots.AcquireOrphansSlot`).
- `flush_summary` is meant to split the lanes. It does, except that a lane merged, claimed and merged
  again is listed twice (`LaneLedger.FlushPermutesLanesIff`).
- A refuted record whose follow-up could not be enqueued is said to be retried at the next
  evaluation. A refuted record is never reviewed again (`Efficacy.ConcludedIsNeverReviewed`).

## Model

| member | source | states |
|---|---|---|
| Leases.StepKeepsInv | user/scripts/lazy_coord.py:102-139 | any operation, cut short by a crash or not, keeps: a listed token is the last one minted and at least the watermark; without an entry the watermark is the last one minted; tokens of one item increase |
| Leases.RunKeepsInv | user/scripts/lazy_coord.py:505-693 | every state reachable by operations at arbitrary times, crashes included, keeps that invariant |
| LeaseSafety.TokensRemembered | user/scripts/lazy_coord.py:102-139 | every token ever minted is at most the watermark or the listed token, a watermark never exceeds a listed token, tokens of one item strictly increase |
| LeaseSafety.FencedIffLastMinted | user/scripts/lazy_coord.py:607-620 | a token passes fencing exactly when its entry is listed and it is the last one minted for the item |
| LeaseSafety.NewTokenIsFresh | user/scripts/lazy_coord.py:557-577 | a granted lease carries a token above every earlier one of the item |
| LeaseSafety.GrantedAcquireLists | user/scripts/lazy_coord.py:545-579 | once its writes have landed, a granted acquire has listed the pid, slot and time to live asked for, the time cut to whole seconds, and the next token of the item; of the other entries exactly the live ones remain, unchanged |
| LeaseSafety.HeartbeatRestamps | user/scripts/lazy_coord.py:582-604 | a heartbeat with the listed token stamps the entry with the time cut to whole seconds and changes nothing else |
| LeaseSafety.DeadTokenStaysDead | user/scripts/lazy_coord.py:505-693 | a minted token that stops passing fencing never passes again, whatever operations, clocks and crashes follow |
| LeaseSafety.ReversedWritesReuseToken | user/scripts/lazy_coord.py:687-691 | with the two writes of a release reversed, a crash between them would let the released token be minted again |
| LeaseSafety.RefusalsChangeNothing | user/scripts/lazy_coord.py:545-604 | a refused operation leaves the lease table alone; a refused heartbeat or release writes nothing; a refused acquire raises a watermark at most to a token still listed |
| LeaseSafety.LeaseHoldsForItsTime | user/scripts/lazy_coord.py:120-139 | through any operations within a lease's time that neither release it nor set its stamp back, it stays, and no acquire of the item is granted up to stamp plus time to live |
| LeaseSafety.GrantedAcquireHolds | user/scripts/lazy_coord.py:505-579 | from the call on: after a granted acquire at t no acquire of the item is granted up to floor(t) plus the time to live asked for, through every run of operations within that time, crashes included |
| LeaseSafety.HeartbeatHolds | user/scripts/lazy_coord.py:582-604 | the same after a heartbeat at t, with the time to live the entry was given |
| LeaseSafety.TruncationCostsUnderASecond | user/scripts/lazy_coord.py:41-50 | on one table: a lease taken or refreshed at t refuses acquires up to t + ttl - 1 and is superseded by an acquire after t + ttl |
| LeaseSafety.AbandonedLeaseGivesWay | user/scripts/lazy_coord.py:120-139 | over runs: a lease stamped at t whose token nobody refreshes, while no acquire of the item is granted, gives way to the first acquire past t + ttl after any events, and its token never passes again whatever follows |
| LeaseSafety.LeaseLostExactly | user/scripts/lazy_coord.py:545-691 | which completed operations take a lease away, for each operation if and only if |
| LeaseSafety.HeartbeatRevives | user/scripts/lazy_coord.py:582-604 | a heartbeat on an expired but unreclaimed entry makes it live again with the same token |
| LeaseSafety.ShardSplitsQueue | user/scripts/lazy_coord.py:925-967 | claimed and held split the candidates, both in queue order |
| LeaseSafety.HeldIff | user/scripts/lazy_coord.py:925-967 | an id is held back for exactly the first of the three tests its candidate fails |
| LeaseSafety.ClaimedIffGranted | user/scripts/lazy_coord.py:925-1009 | an id is claimed exactly when a dep-ready, independent candidate has it and an acquire of it at the same time would be granted |
| LeaseSafety.AllClaimedAreGranted | user/scripts/lazy_coord.py:505-579 | distinct ids without a live lease can all be acquired one after the other |
| LeaseSafety.ShardSetIsGranted | user/scripts/lazy_coord.py:925-967 | the whole shard set over candidates with distinct ids can be acquired, one id after the other |
| LeaseSlots.StepTakesSlotIff | user/scripts/lazy_coord.py:120-137 | a lease that passes fencing before and after an operation loses its slot directory in a given place exactly when the operation sweeps that place - an acquire the directory of leases.json, a sweep the pool it is given - and another swept expired entry names the same slot, or the lease itself was swept as expired and the operation stopped before rewriting the leases |
| LeaseSlots.FencedWithoutSlotIff | user/scripts/lazy_coord.py:120-139 | over every run, with crashes inside sweeps: a lease that had its directory in a given place and passes fencing has lost it exactly when some event took it there and it was not provided again since |
| LeaseSlots.RefusalThenHeartbeat | user/scripts/lazy_coord.py:545-604 | without any crash, if the pool is the directory of leases.json: an acquire refused for one item removes the directory of another's expired entry, keeps the entry, and a heartbeat makes it live again without directory |
| LeaseSlots.CrashThenHeartbeat | user/scripts/lazy_coord.py:651-662 | a sweep that dies before its first write has the same effect, wherever the pool is |
| LeaseSlots.AcquireOrphansSlot | user/scripts/lazy_coord.py:545-577 | if the pool is another directory than that of leases.json: a granted acquire drops an expired entry and leaves its directory in the pool, and nothing removes it in any run until the slot is leased again |
| LeaseStore.LeaseStore.constructor | user/scripts/lazy_coord.py:53-58 | an empty store is the initial disk |
| LeaseStore.LeaseStore.RecordWatermarks | user/scripts/lazy_coord.py:102-117 | the loop raises each mark to the retired token and writes once, or not at all when nothing is retired |
| LeaseStore.LeaseStore.Reclaim | user/scripts/lazy_coord.py:120-139 | the live entries are returned, the slot directories of the others are gone from the given place, and the expired ones leave their watermark on disk first |
| LeaseStore.LeaseStore.Acquire | user/scripts/lazy_coord.py:505-579 | the disk passes through exactly the modelled writes; granted exactly without a live lease, and then the stored entry is returned, with the pid, slot and time to live asked for, the time cut to whole seconds, and a token above watermark and previous entry; of slot directories exactly those go that expired entries name beside leases.json |
| LeaseStore.LeaseStore.Heartbeat | user/scripts/lazy_coord.py:582-604 | succeeds exactly on the listed token, and then only the stamp changes |
| LeaseStore.LeaseStore.VerifyFencing | user/scripts/lazy_coord.py:607-620 | passes exactly for the listed token |
| LeaseStore.LeaseStore.ReclaimExpired | user/scripts/lazy_coord.py:623-665 | removes and reports exactly the expired entries, watermark first, with the slot directories they name in the given pool |
| LeaseStore.LeaseStore.Release | user/scripts/lazy_coord.py:668-693 | succeeds exactly on the listed token, and writes the watermark before the entry goes |
| LeaseStore.LeaseStore.HasLiveLease | user/scripts/lazy_coord.py:970-1009 | the shard set's own liveness test equals the lease layer's |
| LeaseStore.LeaseStore.ClaimShardable | user/scripts/lazy_coord.py:925-967 | the loop computes the specified claimed and held lists |
| LeaseStore.LeaseStore.AcquireItemLock | user/scripts/lazy_coord.py:701-747 | returns only an entry the table holds, was refused by a live lease on every earlier attempt, times out not before the budget, never sleeps more than it, and makes at most timeout + log2(1/poll) + 2 attempts |
| DirectoryLock.LiveOwnerIsNeverConfirmedDead | user/scripts/lazy_coord.py:334-360 | an owner that is alive with a matching start time is never confirmed dead, for every truthful answer of the system |
| DirectoryLock.ConfirmedDeadIff | user/scripts/lazy_coord.py:334-360 | on processes: an owner is found dead exactly when the system gives a conclusive answer and no live process may have written the record, its pid being free or reused by one started at another time |
| DirectoryLock.ObservableIff | user/scripts/lazy_coord.py:422-441 | some truthful answer lets a waiter find the directory stale exactly when its recorded owner is no live process or, without a record, it is older than the grace time |
| DirectoryLock.GivenUpIsTakenOver | user/scripts/lazy_coord.py:406-502 | such a directory is never stuck: on every conclusive answer any waiter can observe, rename it away and make its own |
| DirectoryLock.CrashedHolderIsReplaced | user/scripts/lazy_coord.py:334-441 | in particular right after a recorded holder has died, whoever it was |
| DirectoryLock.UnrecordedHolderIsReplaced | user/scripts/lazy_coord.py:422-441 | a holder that dies before its record is written blocks the others for the grace time only |
| DirectoryLock.DirectoryGoesOnlyBy | user/scripts/lazy_coord.py:406-502 | a directory with an owner record is removed exactly by a rename, one without by a rename or a release |
| DirectoryLock.TakenAndGivenBack | user/scripts/lazy_coord.py:375-502 | a free lock is made and recorded under its maker's pid and start time, and after the release it is free again |
| DirectoryLock.StaleMeansAbandoned | user/scripts/lazy_coord.py:422-441 | a generation found stale has no live holder |
| DirectoryLock.StepKeepsLock | user/scripts/lazy_coord.py:406-502 | each live holder's directory is in place, if no rename hits a live holder's directory |
| DirectoryLock.StepKeepsOwner | user/scripts/lazy_coord.py:375-395 | the owner record always names the holder of that generation |
| DirectoryLock.StepKeepsCondemned | user/scripts/lazy_coord.py:422-441 | a generation some waiter is about to rename has no live holder |
| DirectoryLock.StepKeepsInvIff | user/scripts/lazy_coord.py:334-502 | from a timely state a step keeps the whole invariant exactly when it is no rename of a live holder's directory |
| DirectoryLock.ObservedRunsHitNoHolder | user/scripts/lazy_coord.py:422-441 | in timely runs, renames that hit the generation their waiter observed hit no live holder |
| DirectoryLock.HoldersKeepLockIff | user/scripts/lazy_coord.py:334-502 | in every possible run, timely or not, every live holder finds its directory in place in every state exactly when no rename hits a live holder's directory |
| DirectoryLock.RunsExclude | user/scripts/lazy_coord.py:334-502 | from any start of processes with distinct pids, over every run in which no rename hits a live holder's directory: at most one live process inside, each generation taken over at most once, none with a live holder |
| DirectoryLock.TimelyRunsExclude | user/scripts/lazy_coord.py:334-502 | the same over every run in which holders write their record in time and renames hit the observed generation |
| DirectoryLock.TakeOverExcludesIff | user/scripts/lazy_coord.py:406-419 | a takeover followed by the winner's mkdir leaves at most one live holder exactly when the directory it hit had none |
| DirectoryLock.LateRenameAdmitsTwo | user/scripts/lazy_coord.py:406-441 | a possible run from the start, all holders quick, in which a late rename lets two processes in |
| DirectoryLock.SlowOwnerAdmitsTwo | user/scripts/lazy_coord.py:422-441 | a run with two holders in which only the owner record is late |
| LaneLedger.StepKeepsIndexes | user/scripts/lazy_coord.py:1050-1110 | every ledger step keeps: merge indexes point at their own id, merged lanes are in the merge order, which only grows |
| LaneLedger.RunKeepsInv | user/scripts/lazy_coord.py:1036-1110 | the same over every run of steps |
| LaneLedger.StepSetsFields | user/scripts/lazy_coord.py:1050-1110 | every field of the entry each step leaves, including slot and branch of a claim, the reason of a demotion, sentinel and port target of a park; other lanes are untouched, only a merge extends the merge order |
| LaneLedger.ClaimIsKept | user/scripts/lazy_coord.py:1050-1110 | a lane keeps the slot and branch it was claimed with through every run without another claim of it |
| LaneLedger.FlushCoversEveryLane | user/scripts/lazy_coord.py:1128-1156 | the status decides the one group of a lane, and no lane is lost |
| LaneLedger.FlushMultiplicity | user/scripts/lazy_coord.py:1128-1156 | how often the flush lists an id |
| LaneLedger.FlushPermutesLanesIff | user/scripts/lazy_coord.py:1071-1079 | the groups together are a permutation of the lanes exactly when no merged lane was merged twice |
| LaneLedger.MergedTwiceIsListedTwice | user/scripts/lazy_coord.py:1050-1079 | claim, merge, claim, merge lists the lane twice |
| LaneLedger.WaveSplitsAttempts | user/scripts/lazy_coord.py:1195-1232 | merged and demoted split the attempted sequence |
| LaneLedger.WaveExtendsMergeOrder | user/scripts/lazy_coord.py:1195-1232 | the merge order grows by exactly the merged list |
| LaneLedger.WaveKeepsLane | user/scripts/lazy_coord.py:1082-1094 | every lane, a demoted one too, keeps branch and slot; attempted lanes are no longer lane-complete, the others unchanged |
| LaneLedger.WaveVerdicts | user/scripts/lazy_coord.py:1195-1232 | with distinct ids each attempted lane ends as its own merge did, with its position in the merge order |
| LaneLedger.SecondWaveIsEmpty | user/scripts/lazy_coord.py:1113-1125 | a second wave without new completions attempts nothing |
| LaneLedger.CompletionOrderIsIrrelevant | user/scripts/lazy_coord.py:1113-1125 | the merge sequence does not depend on the order of completions |
| LaneLedger.Ledger.constructor | user/scripts/lazy_coord.py:1012-1020 | a fresh ledger is empty |
| LaneLedger.Ledger.RecordClaim | user/scripts/lazy_coord.py:1050-1059 | replaces the lane's entry by a claimed one |
| LaneLedger.Ledger.RecordLaneComplete | user/scripts/lazy_coord.py:1062-1068 | changes the status only |
| LaneLedger.Ledger.RecordMerge | user/scripts/lazy_coord.py:1071-1079 | appends to the merge order and records the position |
| LaneLedger.Ledger.RecordDemotion | user/scripts/lazy_coord.py:1082-1094 | status and reason, keeping the branch |
| LaneLedger.Ledger.RecordPark | user/scripts/lazy_coord.py:1097-1110 | status, sentinel and port target |
| LaneLedger.Ledger.MergeBack | user/scripts/lazy_coord.py:1195-1232 | attempts exactly the lane-complete items in queue order, splits them, extends the merge order by the merged ones, keeps all branches |
| LaneLedger.Ledger.FlushSummary | user/scripts/lazy_coord.py:1128-1156 | the loop computes the specified groups |
| CoupledSkills.BlocksAreTheHeadingSplit | user/scripts/generate-coupled-skills.py:98-115 | splitting a non-empty text gives its only split that cuts at every heading and nowhere else, and the pieces concatenate to the text |
| CoupledSkills.BlocksConcat | user/scripts/generate-coupled-skills.py:98-115 | the blocks of any text concatenate to it |
| CoupledSkills.HeadingAtIff | user/scripts/generate-coupled-skills.py:67 | a heading starts exactly where a whole line starts with two or three hashes and a space |
| CoupledSkills.KeysAreHeadingLines | user/scripts/generate-coupled-skills.py:98-115 | the key of every block is the heading line it starts with, less the white space at its end; only the first block may start with no heading, and is then the preamble |
| CoupledSkills.LastWritersAgree | user/scripts/generate-coupled-skills.py:118-147 | the extractor's index and the generator's map mean the same block, even with repeated headings and colliding substituted keys |
| CoupledSkills.ReferenceIffLastMatches | user/scripts/generate-coupled-skills.py:130-157 | when exactly a derived block is stored as a reference |
| CoupledSkills.ExtractThenGenerate | user/scripts/generate-coupled-skills.py:130-255 | for every canonical text, derived text and substitution list, generating from the extracted overlay gives the derived text exactly |
| CoupledSkills.SilentIffValid | user/scripts/generate-coupled-skills.py:187-229 | the validator reports nothing exactly for overlays with all keys and only valid directives |
| CoupledSkills.ProblemIff | user/scripts/generate-coupled-skills.py:187-229 | the validator reports exactly the faults an overlay has, each with the number of its directive, and raises exactly on verbatim lines that cannot be iterated |
| CoupledSkills.GeneratesIffRenderable | user/scripts/generate-coupled-skills.py:237-255 | generation succeeds exactly when every directive is renderable |
| CoupledSkills.GenerationStopsAt | user/scripts/generate-coupled-skills.py:237-255 | otherwise it stops at the first directive that is not, with the error of its kind |
| CoupledSkills.ValidatedOverlayGenerates | user/scripts/generate-coupled-skills.py:187-255 | an overlay that validates against a canonical text generates without error |
| CoupledSkills.ExtractedOverlayValidates | user/scripts/generate-coupled-skills.py:130-229 | what extraction writes validates against its canonical text |
| CoupledSkills.EditPropagates | user/scripts/generate-coupled-skills.py:237-255 | after an edit that keeps the headings, generation still succeeds and only the pieces of references change, each to the substituted new block |
| CoupledSkills.FindHeadings | user/scripts/generate-coupled-skills.py:106 | the positions of all headings in order |
| CoupledSkills.CutAt | user/scripts/generate-coupled-skills.py:110-114 | one block per match, up to the next match or the end |
| CoupledSkills.SplitBlocks | user/scripts/generate-coupled-skills.py:98-115 | the match loop computes the specified blocks |
| CoupledSkills.CanonicalBlockMap | user/scripts/generate-coupled-skills.py:118-123 | maps each heading to its last block |
| CoupledSkills.TokenIndex | user/scripts/generate-coupled-skills.py:140-147 | maps each substituted key to its last block, substituted |
| CoupledSkills.BuildDirectives | user/scripts/generate-coupled-skills.py:130-157 | the loop computes the specified directives |
| CoupledSkills.ValidateOverlay | user/scripts/generate-coupled-skills.py:187-229 | the loop finds exactly the specified problems, in order, or raises |
| CoupledSkills.Generate | user/scripts/generate-coupled-skills.py:237-255 | the loop renders the specified text or fails with the first error |
| TokenSubstitution.ReplaceAbsent | user/scripts/lazy_parity_audit.py:77 | replacing a token that does not occur changes nothing |
| TokenSubstitution.ReplaceByItself | user/scripts/lazy_parity_audit.py:77 | replacing a non-empty token by itself changes nothing |
| TokenSubstitution.ReplaceIsRejoining | user/scripts/lazy_parity_audit.py:78 | a replacement without reference to how it is computed: the text can be cut at the leftmost non-overlapping occurrences of the old token, and however it is, the result is the same pieces with the new token between them; an empty token cuts before and behind every character |
| TokenSubstitution.EscapeMarksSpecials | user/scripts/lazy_parity_audit.py:80-81 | escaping puts one backslash before each special character and changes nothing else; it can be read back, and it is the identity exactly on texts without special characters |
| TokenSubstitution.ApplyTokensInOrder | user/scripts/lazy_parity_audit.py:74-86 | the text passes through one stage per entry, in list order: the plain token replaced everywhere, and then the escaped one if the token has a special character |
| TokenSubstitution.ApplyTokensLaws | user/scripts/lazy_parity_audit.py:61-86 | substitution lists compose in order, and a list none of whose tokens occurs, plain or escaped, is the identity |
| TokenSubstitution.Apply | user/scripts/lazy_parity_audit.py:61-86 | the loop leaves the text the last of those stages |
| IncludeExpander.VisitedShrinks | user/scripts/project-skills.py:109-113 | the files not yet on the include path get fewer: why expansion ends on every finite file graph |
| IncludeExpander.MarkerClosesCycle | user/scripts/project-skills.py:110-111 | below any marker there is a walk along includes that visits a file twice |
| IncludeExpander.NoMarkerNoRepeat | user/scripts/project-skills.py:81-139 | without a marker no walk repeats a file or meets the include path |
| IncludeExpander.MarkerIffCycle | user/scripts/project-skills.py:81-153 | a line expands with a circular marker exactly when its include leads into a cycle, so shared includes on no cycle are expanded every time |
| IncludeExpander.TraceIsWellMarked | user/scripts/project-skills.py:81-139 | in the whole expansion markers name files on the path above them and expanded files are not on it |
| IncludeExpander.LineExpandsTo | user/scripts/project-skills.py:81-153 | what every line is replaced by, in plain text: itself without a directive; a skip note exactly for a component whose part before the first slash is no declared capability; a circular note; or the markers around the lines of the file, each expanded in turn |
| IncludeExpander.ResolveCatLine | user/scripts/project-skills.py:81-153 | the recursion terminates and renders exactly the traced expansion |
| IncludeExpander.ResolveFileContent | user/scripts/project-skills.py:60-78 | every line of the file is expanded, the final newline kept, a missing file is empty |
| IncludeExpander.ResolveSkillFile | user/scripts/project-skills.py:156-190 | lines from the first to the second fence stay verbatim, all others are expanded |
| Psd1Lexer.NextCountsLines | setup.py:69-149 | every step counts the line breaks it consumes, those inside strings too |
| Psd1Lexer.LexEnds | setup.py:150-151 | the token list ends in its only end token, which carries the last line number |
| Psd1Lexer.ScanString | setup.py:98-143 | the scanning loop finds the unquoted value, or the error, and counts its lines |
| Psd1Lexer.TakeStep | setup.py:69-149 | the branches and loops of the tokenizer take the step whose meaning Psd1Acceptance.ParsesIffPrinted fixes, or fail as it does |
| Psd1Lexer.Tokenize | setup.py:63-151 | every text gives the specified tokens or the specified error |
| Psd1Parser.Parser.Next | setup.py:162-165 | the cursor never leaves the token list |
| Psd1Parser.Parser.SkipSeparators | setup.py:167-169 | stops at the first token that is no break |
| Psd1Parser.Parser.ParseHashtableBody | setup.py:184-200 | parses as specified, ending where specified |
| Psd1Parser.Parser.ParseOneValue | setup.py:202-222 | parses as specified, ending where specified |
| Psd1Parser.Parser.ParseArrayBody | setup.py:224-235 | parses as specified, ending where specified |
| Psd1Parser.Parser.ParseWholeDocument | setup.py:171-182 | the whole token list gives a table or an error |
| Psd1Parser.ParsePsd1 | setup.py:238-242 | every text gives a value or an error, and no token past the end is read |
| Psd1RoundTrip.UnquoteDoubled | setup.py:98-143 | doubling the quotes of a string is undone by the scanner, in either kind of quotes |
| Psd1RoundTrip.LexWord | setup.py:145-148 | a key in any of its forms lexes to its token: a bare word is taken whole |
| Psd1RoundTrip.LexDoc | setup.py:63-151 | a printed tree lexes to its tokens |
| Psd1RoundTrip.ParseDoc | setup.py:202-222 | the tokens of a tree parse to its meaning and nothing more is consumed |
| Psd1RoundTrip.ParseOfPrint | setup.py:238-242 | parsing a printed manifest gives its tree back, for every tree of tables, arrays and strings, each key bare or in quotes of either kind, each string in either kind, and every layout, comments included, that may differ at each position; of repeated keys the last counts |
| Psd1Acceptance.SkippedIsLayout | setup.py:167-169 | what the parser skips is blanks, line breaks, commas, semicolons and comments, up to the text of the next token |
| Psd1Acceptance.ValueIsWritten | setup.py:202-222 | whatever parses as a value was written as one: a string in quotes, an array, or a table |
| Psd1Acceptance.ParsesIffPrinted | setup.py:55-242 | a text parses to a value if and only if it is a laid-out manifest that means that value; everything else is refused |
| Psd1Errors.LexErrorIsFault | setup.py:63-151 | every lexical error names the line of a fault in the text: a string whose quote never comes, a dollar or backtick inside double quotes, or a character that starts nothing |
| Psd1Errors.RefusalIsFault | setup.py:55-242 | every refusal names the line of its fault, in the text or in a token that must not stand there |
| LinkSetup.StepSettles | setup.py:501-562 | one turn that does not fail leaves nothing more to do for its mapping, with a warning exactly where content stands on both sides |
| LinkSetup.TurnFailsIff | setup.py:521-551 | a turn raises exactly if there is content to bring over and the repository path is a link that leads nowhere: for a directory any such link, for a copied file one in a circle |
| LinkSetup.ExistingReposAreApart | setup.py:525-551 | mappings whose repository paths are no links, or lead to existing content by way of no other mapping's live path - another mapping's repository path, say - stay clear of each other |
| LinkSetup.RunSettles | setup.py:501-562 | once it has had its turn a mapping stays settled through the rest of the run, if the links from its repository path stay clear of what other mappings write |
| LinkSetup.BootstrapDoesNothingIff | setup.py:501-562 | on any file system a bootstrap changes nothing exactly when the first mapping that is not quiet (skipped, linked, present on both sides or on neither), if there is one, fails |
| LinkSetup.BootstrapIsIdempotent | setup.py:501-562 | a second bootstrap changes nothing, whether the first came to its end or was stopped by a copy that fails, if the links from repository paths stay clear of what other mappings write |
| LinkSetup.ForwardLinkBreaksIff | setup.py:521-559 | a repository path linked to the empty live path of a later mapping: bootstrap gives no warning, and check calls it broken and a second run changes something exactly when that later mapping is not skipped and has a repository side |
| LinkAgreement.DisagreesIff | setup.py:501-595 | in every run in which no turn changes what a later turn looks at and relinking closes no circle, decided on the file system before it: check and bootstrap disagree about a mapping exactly when it was passed over and a later turn fills its live path or the first altered path on its repository links |
| LinkAgreement.DisagreesFromTurnIff | setup.py:501-595 | the same, and the second-run criterion, where only the turns from the mapping's own on need be so |
| LinkAgreement.SecondRunQuietIff | setup.py:501-562 | and a second run has something to do for a mapping exactly when it was passed over and later turns brought one of its sides into being, not both |
| LinkAgreement.FillsIff | setup.py:521-556 | which missing path the turn of a mapping fills, by the guards of its branches |
| LinkAgreement.LinkToLaterRepoIff | setup.py:521-559 | a repository path linked to the missing repository path of a later mapping: no warning, and broken for check exactly when the later one is not skipped and has something at its live path |
| LinkAgreement.LinkToLaterLiveIff | setup.py:521-559 | the same for a link to its missing live path: exactly when it is not skipped and has a repository side |
| LinkAgreement.CopyToEarlierLiveIff | setup.py:526-534 | a later repository path linked to the empty live path of an earlier mapping: the earlier one is broken without a warning exactly when the later one is an unskipped file mapping whose live path is a link to existing content |
| LinkAgreement.StillExists | setup.py:521-559 | a turn cuts off nothing that exists, unless it closes a circle |
| LinkSetup.LinkedRepoNeedsTwoRuns | setup.py:521-559 | the smallest input on which that happens |
| LinkSetup.StepPreserves | setup.py:521-556 | a step keeps every piece of real content, in place or behind the new link |
| LinkSetup.BootstrapKeepsContent | setup.py:501-562 | what was real content reads the same at the same path afterwards |
| LinkAgreement.TurnReads | setup.py:501-559 | what both sides of a mapping read after a turn that does not fail: the live path as before or as an existing repository path, the repository path as before or what was copied or moved to it |
| LinkAgreement.CopiedReads | setup.py:526-534 | after a copied link the live path is linked and both sides read what the live path read before |
| LinkSetup.OnlyLinksVanish | setup.py:537-540 | a path that disappears was a dangling link on the live side |
| LinkSetup.CheckAgreesWithBootstrap | setup.py:565-595 | right after bootstrap, check calls broken exactly the mappings bootstrap warned about, among those that had their turn and whose repository links stay clear of the others |
| LinkSetup.BrokenEqualsWarned | setup.py:501-595 | so the two counts are equal |
| LinkSetup.CheckAfterRepair | setup.py:565-623 | after repair, broken are exactly the mappings whose repository path leads nowhere and whose live side is something other than the wanted link |
| LinkSetup.RepairedLive | setup.py:598-623 | repair links every mapping whose repository path exists and leaves the other live sides, and their repository links, alone |
| LinkSetup.RepairMovesAside | setup.py:598-623 | one repair leaves real content that was in the way at the backup path, lets the live path read what the repository path reads, and touches nothing else |
| LinkSetup.RepairKeepsContent | setup.py:598-623 | where the backup paths are free, a whole repair loses no real content: it is where it was or at the backup path of its mapping |
| LinkSetup.Host.Copy | setup.py:528-532 | the copy lands where the repository path leads, or raises |
| LinkSetup.Host.BootstrapOne | setup.py:504-559 | the branches change the file system as specified |
| LinkSetup.Host.Bootstrap | setup.py:501-562 | the loop does, up to the first turn that raises; moved, linked and warned are the numbers of turns that end so, and skipped the rest |
| LinkSetup.Host.Check | setup.py:565-595 | counts the broken and the linked mappings; exit code 0 exactly when none is broken |
| LinkSetup.Host.Repair | setup.py:598-623 | the loop repairs as specified; repaired is the number of repairs that change something |
| Efficacy.SameSignalIffSharedEvent | user/scripts/efficacy-eval.py:152-188 | two event targets are the same signal exactly when some telemetry line counts towards both |
| Efficacy.TargetIsRead | user/scripts/efficacy-eval.py:80-168 | a target of an event type counts exactly its lines, one with a gate behind a slash exactly those of the gate |
| Efficacy.DirectionsMirrorIff | user/scripts/efficacy-eval.py:339-344 | in exact arithmetic, decrease and increase are mirror images for every movement exactly when the band is positive |
| Efficacy.CountIsTally | user/scripts/efficacy-eval.py:299-305 | the count is the number of positions of the log whose run is in the window and whose line counts towards the target |
| Efficacy.OtherRunsChangeNothing | user/scripts/efficacy-eval.py:299-305 | logs with the same lines of the window's runs give the same verdict: lines of other runs, or of none, never matter |
| Efficacy.VerdictIff | user/scripts/efficacy-eval.py:273-351 | in exact arithmetic, the whole verdict as bounds on that number: when it confirms, when it refutes, and inconclusive otherwise, for both directions and for a baseline of zero |
| Efficacy.ConfirmedIff | user/scripts/efficacy-eval.py:273-351 | spelled out for a positive baseline: a decrease is confirmed by at most, an increase by at least, so many events |
| Efficacy.ConfoundedIff | user/scripts/efficacy-eval.py:354-374 | a record is held back exactly by another one of its signal that is undecided or, both dated, shipped the same day or later |
| Efficacy.ReviewConcludesIff | user/scripts/efficacy-eval.py:474-567 | a review changes nothing unless the record is due, and then concludes exactly as its window shows, unless it is held back |
| Efficacy.ConcludesUnconfounded | user/scripts/efficacy-eval.py:354-374 | at a conclusion no other record of the signal is unresolved or, both dated, shipped on or after it |
| Efficacy.UnresolvedPairNeverConcludes | user/scripts/efficacy-eval.py:501-517 | two same-signal records unresolved at the same time never conclude, in any run |
| Efficacy.ConclusionsAreOrdered | user/scripts/efficacy-eval.py:354-374 | in any run, once a record has concluded, every other record of its signal came later or had concluded before it came |
| Efficacy.LaterConclusionShippedLater | user/scripts/efficacy-eval.py:354-374 | of two concluded same-signal records, both dated, the later captured one shipped strictly later |
| Efficacy.EscalatedIffTwiceInconclusive | user/scripts/efficacy-eval.py:520-523 | in every run escalated are exactly the records with two inconclusive reviews behind them |
| Efficacy.ReviewScoresItsBlock | user/scripts/efficacy-eval.py:482-495 | while the run log grows at its end, review k scores exactly the k-th block of post-ship runs |
| Efficacy.ReviewsScoreEachRunOnce | user/scripts/efficacy-eval.py:263-270 | after n reviews the first n blocks of post-ship runs have been scored, each run once |
| Efficacy.ConcludedIsNeverReviewed | user/scripts/efficacy-eval.py:482-483 | after its conclusion a record is never scored again |
| Efficacy.AfterKeepsDistinct | user/scripts/efficacy-eval.py:263-270 | post-ship are exactly the runs later than the boundary, each once |
| Efficacy.RunIdsGrowAtTheEnd | user/scripts/efficacy-eval.py:1496-1499 | if no run leaves the log and new runs are later than known ones, the sorted run ids grow at the end |
| Efficacy.RotationKeepsWindowIff | user/scripts/efficacy-eval.py:484-494 | when the log has lost its first runs to rotation, a due review scores the window it would have scored before exactly when no post-ship run was among them |
| Efficacy.RotationLosesARun | user/scripts/efficacy-eval.py:484-494 | for any record whose target is no event: two reviews with a rotation between them after which a post-ship run is in no window |
| Efficacy.PassReviewsTheDue | user/scripts/efficacy-eval.py:1503-1513 | a pass reviews exactly the records due at its start, and its verdicts are the statuses it leaves |
| Efficacy.Evaluator.RecordIntervention | user/scripts/lazy_core/ledgers.py:2876-3098 | a capture stores what is declared, open and unreviewed, and never overwrites a record |
| Efficacy.Evaluator.ConfoundersFor | user/scripts/efficacy-eval.py:354-374 | exactly the other records whose window overlaps, in file order |
| Efficacy.Evaluator.ReviewRecord | user/scripts/efficacy-eval.py:474-567 | the whole new state of the records, which of the three outcomes is returned, and the verdict exactly as the number of counted lines in the window and the other records decide |
| Efficacy.Evaluator.Evaluate | user/scripts/efficacy-eval.py:1503-1513 | a pass is the run of its reviews in file order |
| Efficacy.Evaluator.NeedsTriage | user/scripts/efficacy-eval.py:1517-1525 | lists exactly the escalated unresolved records |
| GateReconciliation.ClaimsAreExact | user/scripts/harness-gate.py:304-318 | the files together take each text exactly as often as it is both wanted and available |
| GateReconciliation.BalancedChangeIsClean | user/scripts/harness-gate.py:276-319 | a change that adds every text at least as often as it removes it is reported clean |
| GateReconciliation.OneFileIsCounted | user/scripts/harness-gate.py:283-289 | with one file the result is the number of removed less the number of added constructs, if positive |
| GateReconciliation.UnmatchedFileKeepsNet | user/scripts/harness-gate.py:290-296 | a file keeps removed less added in full if no text it removes more often than it adds is added more often than removed by any file |
| GateReconciliation.NoNetTakesNothing | user/scripts/harness-gate.py:304-307 | a file that adds at least as many constructs as it removes is not reported and takes nothing from the pool |
| GateReconciliation.UnreportedRemovalsMoved | user/scripts/harness-gate.py:290-296 | a file with more removed than added constructs is let off only if that many of its texts are in the pool |
| GateReconciliation.OrderDecidesWhoIsReported | user/scripts/harness-gate.py:303-318 | of two files that removed the same text, one re-added copy clears the first |
| GateReconciliation.Claim | user/scripts/harness-gate.py:309-315 | the inner loop takes exactly the common part of residual and pool out of the pool |
| GateReconciliation.ReportFile | user/scripts/harness-gate.py:304-318 | what one file claims and reports |
| GateReconciliation.GatherPool | user/scripts/harness-gate.py:299-301 | the loop computes the specified pool |
| GateReconciliation.CrossFileReconciledNet | user/scripts/harness-gate.py:276-319 | the loops compute exactly the specified report |

## Left out

- Process and kernel probes: the answers of the operating system are inputs, assumed truthful or silent.
- Corrupt or half-written JSON files and the fail-open read of the watermark file: contents are well formed.
- The lease operations run under the global lock; that lock is modelled on its own, in `DirectoryLock`.
- The order in which the sweep reports reclaimed ids (a set here). Removing a slot directory always succeeds, and a slot name is a single path component.
- Rounding of times to microseconds before they are cut to whole seconds.
- The retry loop and time-out of the global lock itself: a waiter may take any enabled step at any time. Reading the owner record and the directory's age is one step.
- Timestamps of ledger entries. How a merge ends is an input; git, worktrees and slots are not modelled.
- The three include patterns and Python's line splitting: what a line says is given by `parse`, a file by its lines. Directories as include targets.
- Reading and writing files, command-line handling and manifests of the generator; an overlay that is no object, or whose directives are no list at generation time.
- Python's JSON, YAML and sentinel readers.
- Link setup: contents are opaque, paths are not nested, and mappings are distinct; aliased mappings share repository paths and are excluded. Parent directories exist. A live side whose kind differs from the declared one, Windows junctions, path normalisation, target expansion.
- A `.bak` that already exists, or that is a path of another mapping: repair overwrites it, so `LinkSetup.RepairKeepsContent` assumes free ones.
- Rounding in verdicts: exact arithmetic. A record whose `review_after_runs` is zero or negative.
- The reconsideration entry, the canary watcher, re-baselining, dry runs and single-record runs of the evaluator; review text appended to records.
- The regular expressions, diff parsing and the other detectors of the gate.
- LeaseStore.LeaseStore.AcquireItemLock: assumes a positive poll interval and a clock that advances by at least what was slept; with interval zero the number of attempts has no bound.
- LinkSetup.BootstrapIsIdempotent: assumes that the links from each repository path stay clear of the paths the turns of other mappings may write. That suffices but is not necessary; LinkAgreement.DisagreesFromTurnIff and SecondRunQuietIff give conditions in both directions.
- LinkSetup.CheckAgreesWithBootstrap: the same, for the one mapping.
- LinkAgreement.DisagreesFromTurnIff: assumes that from the mapping's turn on no turn changes what a later turn looks at, and that no relinked live path lies on the links of its own repository path (relinking then closes a circle).
- LinkSetup.CheckAfterRepair: assumes that no mapping's live or backup path is the live path of another mapping or on the links from its repository path.
- Efficacy.VerdictIff: a baseline rate is not negative; exact arithmetic: the program rounds the movement to one decimal first, so a movement of -9.96 with band 10 is confirmed there and not here.
- Network clients, lints, documentation checks and the audits.
