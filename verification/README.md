# XuanLing, modelled in Dafny

A model of the parts of XuanLing that carry hard state, and proofs of what they promise. Each file is
one module; `dafny verify dfyconfig.toml` checks the project.

- **Redaction and collection** (`Overlap`, `Redaction`, `TokenShapes`, `Whitespace`, `Collector`,
  `Codex`, `CodexResults`). The harness bridge keeps a bounded tail of a worker's error stream and
  frames its output into lines. The claims are about the whole stream under any chunking: every retained
  byte of every configured secret is hidden, also when the beginning of the secret was discarded;
  merging overlapping masks is the same as hiding positions one by one; the collected result depends on
  the concatenated streams only.
- **Workspace capability** (`PathResolution`, `Capability`, `Creation`, `Workspace`, `AdmissionRules`).
  A hand-written walker over symbolic links and parent steps is compared with pathname resolution as
  section 4.13 of IEEE Std 1003.1-2017, XBD, describes it, on every tree of directories, files and
  links; and, for paths that do not exist yet, with the place they come to lie at once their missing
  directories are made. The two differ when a parent step after a missing component cancels a link; the
  exact condition is proved.
- **Memory store** (`TextOrder`, `MemoryTables`, `MemoryDigest`, `MemoryInvariant`, `MemoryRuns`,
  `MemoryEffects`, `MemoryAnswers`, `MemoryStore`, `JsonlFormat`, `MemoryJsonl`, `ImportRules`,
  `MemoryRoundTrip`, `MemoryImported`). `MemoryTables` says what each call does to the tables;
  `MemoryStore` does it statement by statement on a transaction copy and is proved to do just that;
  `MemoryInvariant`, `MemoryRuns` and `MemoryEffects` prove what every run keeps, and `MemoryAnswers`
  what each call answers and leaves, row by row. Export and import are a round trip, exactly under the
  condition given there.
- **File edits** (`Disk`, `EditPlan`, `PlanRules`, `EditBatch`, `SingleEdit`, `ChangeSet`,
  `ChangeRegistry`, `UndoStack`, `MultiApply`, `Move`, `ScopedMove`). Every operation on a file may
  fail, and unless a volume is `quiet` other processes may write between any two steps. `ScopedMove`
  joins the move with the workspace capability.
- **Jobs** (`Jobs`, `JobRules`). Submission, settlement, cancellation, cleanup retry and waiting as
  atomic steps of any number of threads on any number of jobs.
- **Evidence archive** (`EvidenceLinks`, `EvidencePrune`). Which archived links may be restored, and a
  removal of originals that can crash anywhere and be resumed.

Hashes are injective datatypes. Unicode NFC, pattern matching, event decoding and canonical paths of
links are parameters. Where the code and its comments differ, the code is modelled; the places are named
under "Left out" and in the lemmas `Capability.ParentOfFile`, `Workspace.DetourIsAccepted`,
`EditPlan.OverlappingCountsOnce`, `MemoryRoundTrip.DanglingTargetIsRefused`,
`MemoryImported.AcceptedIsNotEnough`, `MemoryStore.CollisionHappens`, `TokenShapes.FoldedLetterShows`,
`MultiApply.AliasIsOverwritten`, `Move.LinkInsideDestinationPasses`, `Move.DanglingLinkIsReplaced`,
`Move.LinkIsWrittenThrough`, `ScopedMove.AliasItselfIsAccepted`, `EvidenceLinks.PassingTwiceIsRefused`.

## Model

| member | source | states |
|---|---|---|
| Overlap.SuffixPrefixOverlap | crates/xuanling-harness-bridge/src/redact.rs:139-165 | The returned length is a match and no longer prefix of the tail is a suffix of the secret; table and scan together take at most a linear number of fallback steps. |
| Overlap.PrefixTable | crates/xuanling-harness-bridge/src/redact.rs:144-154 | Every table entry is the longest proper border of its prefix, in a linear number of steps. |
| Overlap.FallbackSkipsNothing | crates/xuanling-harness-bridge/src/redact.rs:147-149 | Falling back to the longest border skips no match that the next byte could extend. |
| Redaction.AddOccurrences | crates/xuanling-harness-bridge/src/redact.rs:62-70 | The ranges added for one secret are exactly its occurrences, overlapping ones included. |
| Redaction.PrintMerged | crates/xuanling-harness-bridge/src/redact.rs:81-98 | Merging sorted ranges and printing equals the per-position form: one mask for each maximal covered run, all else copied. |
| Redaction.Redactor.CollectRanges | crates/xuanling-harness-bridge/src/redact.rs:58-77 | The collected ranges are the masked prefix, every occurrence of every secret and every pattern match, and nothing else. |
| Redaction.Redactor.CollectedRangesMarkTheText | crates/xuanling-harness-bridge/src/redact.rs:58-77 | The positions covered by the collected ranges are exactly those some secret occurrence, pattern match or the masked prefix covers. |
| Redaction.Redactor.RedactWithPrefix | crates/xuanling-harness-bridge/src/redact.rs:57-99 | The output is the text with exactly the marked positions hidden, and the flag says whether any range was found. |
| Redaction.Redactor.RedactTail | crates/xuanling-harness-bridge/src/redact.rs:104-134 | A tail is rendered with exactly the marks that `HiddenExactlyWhen` lists: what is hidden after a cut start and what is not when nothing was cut. |
| Redaction.Redactor.HiddenExactlyWhen | crates/xuanling-harness-bridge/src/redact.rs:104-134 | A unit of a tail is hidden if and only if a secret occurrence or a pattern match covers it, or the start was cut and it lies in an end of a secret there, or the start was cut, patterns exist and every unit up to it may continue one. |
| Redaction.RenderExactly | crates/xuanling-harness-bridge/src/redact.rs:81-98 | Rendering is copying and masking: over an unmarked stretch the text itself follows, over a marked one, however long, the mask once. |
| Redaction.Redactor.RetainedSecretIsMarked | crates/xuanling-harness-bridge/src/redact.rs:104-134 | Every retained position of every secret occurrence in the whole stream is hidden, also when the start of the occurrence was discarded. |
| Redaction.Redactor.ClippedTokenIsMarked | crates/xuanling-harness-bridge/src/redact.rs:116-132 | The retained part of any run of token units that began in the discarded part is hidden, whatever the patterns are. |
| TokenShapes.TokenUnits | crates/xuanling-harness-bridge/src/redact.rs:41-49 | Every unit of a text of one of the three token shapes is one the leading run goes over, or a long s or Kelvin sign, which the two case-ignoring shapes also admit. |
| TokenShapes.ClippedTokenExactlyWhen | crates/xuanling-harness-bridge/src/redact.rs:116-132 | Of a token of one of the shapes whose beginning was discarded, a retained position is hidden by the leading run if and only if no long s and no Kelvin sign occurs up to it. |
| TokenShapes.ClippedTokenIsHidden | crates/xuanling-harness-bridge/src/redact.rs:104-134 | The redacted tail hides every such position. |
| TokenShapes.FoldedLetterShows | crates/xuanling-harness-bridge/src/redact.rs:116-132 | The condition can fail: in a bearer token with a long s, cut after the marker, everything from that letter on is printed. |
| TokenShapes.RunUnitsExactly | crates/xuanling-harness-bridge/src/redact.rs:124-127 | The units the leading run goes over, code point by code point: every other one ends it. |
| Collector.TailBuffer.Push | crates/xuanling-harness-bridge/src/collector.rs:199-213 | After any chunk the buffer is exactly the last `limit` units of the stream so far and the clipped flag says whether anything was lost. |
| Collector.TailBuffer.RedactedText | crates/xuanling-harness-bridge/src/collector.rs:215-221 | The shown text is a function of the stream and the limit alone, and hides every retained position of every secret. |
| Collector.RetainedSecretsAreHidden | crates/xuanling-harness-bridge/src/collector.rs:199-221 | For every stream, limit and secret, every retained unit of every occurrence in the stream is among the hidden positions. |
| Collector.ShownExactly | crates/xuanling-harness-bridge/src/collector.rs:199-221 | For every stream and limit: what is shown is the trimmed tail, in which a unit is hidden exactly by a secret, a pattern match, or, only when something was cut, by the end of a secret or the run a pattern may continue. |
| Collector.PlainStreamIsShown | crates/xuanling-harness-bridge/src/collector.rs:215-221 | A stream within the limit that no secret and no pattern covers is shown as it is, but for whitespace around it. |
| Collector.FeedTail | crates/xuanling-harness-bridge/src/collector.rs:199-213 | For every split of a stream into chunks the buffer ends in the same state. |
| Collector.SplitIsExact | crates/xuanling-harness-bridge/src/collector.rs:100-120 | The segments between newlines contain no newline and join to the stream: the reference the framer is compared with. |
| Collector.LineFramer.Push | crates/xuanling-harness-bridge/src/collector.rs:100-109 | The lines emitted so far are exactly the non-empty segments within the limit, one trailing CR trimmed, whatever the chunking; the buffer never exceeds the limit. |
| Collector.LineFramer.Finish | crates/xuanling-harness-bridge/src/collector.rs:111-120 | With the unterminated last line included, the emitted lines are all lines of the stream; overflow is set exactly when some line is too long. |
| Collector.LineFramer.CompleteLine | crates/xuanling-harness-bridge/src/collector.rs:122-129 | A completed segment contributes its trimmed line, or nothing when empty or too long, and framing goes on. |
| Collector.LinesExactly | crates/xuanling-harness-bridge/src/collector.rs:100-129 | The lines are the segments that are not empty and within the limit, in order, each without one carriage return at its end. |
| Whitespace.TrimExactly | crates/xuanling-harness-bridge/src/collector.rs:215-221 | Trimming takes whitespace from both ends, all of it and nothing else. |
| Whitespace.BlankExactlyWhen | crates/xuanling-harness-bridge/src/adapters/codex.rs:222-230 | A text is blank exactly when it has nothing but whitespace. |
| Codex.CodexCollector.OnStdout | crates/xuanling-harness-bridge/src/adapters/codex.rs:141-153 | The collector is the fold of the lines framed from everything received. |
| Codex.CodexCollector.HandleEvent | crates/xuanling-harness-bridge/src/adapters/codex.rs:236-287 | One more line extends the fold: the last message, the last failure, completion, and whether any line was undecodable. |
| Codex.CodexCollector.FinishRedacted | crates/xuanling-harness-bridge/src/adapters/codex.rs:159-233 | The result is the function of the two whole streams and the exit code whose outcome, texts and flags the next rows give. |
| CodexResults.OutcomeExactly | crates/xuanling-harness-bridge/src/adapters/codex.rs:159-233 | Each of the five outcomes by its condition on lines and exit code: a failure event; else an exit code other than 0; else no turn.completed; else no message that is not blank; else completed. |
| CodexResults.TextsExactly | crates/xuanling-harness-bridge/src/adapters/codex.rs:159-233 | The final text is what the last line with an agent message says, and none when a turn end or a message is missing; the diagnostic is none or the shown tail of stderr. |
| CodexResults.FailureMessageExactly | crates/xuanling-harness-bridge/src/adapters/codex.rs:169-193 | The message of a failure is what the last failing line says, with the diagnostic after it, redacted and cut at the limit. |
| CodexResults.FlagsExactly | crates/xuanling-harness-bridge/src/adapters/codex.rs:159-233 | Output is complete exactly for a completed run that lost no line; incompleteness is reported exactly where lines were lost and output is; and redacted says whether anything was hidden. |
| Codex.Collect | crates/xuanling-harness-bridge/src/adapters/codex.rs:140-233 | For any chunking and interleaving of the two pipes the result depends only on the concatenated streams. |
| Codex.CompletedExactlyWhen | crates/xuanling-harness-bridge/src/adapters/codex.rs:159-233 | A run is completed exactly when no line carried a failure event, the exit code is 0, turn.completed was seen and the last agent message is not blank. |
| Codex.LastOfIsLast | crates/xuanling-harness-bridge/src/adapters/codex.rs:236-287 | The folded value is the one carried by the last line that carries one. |
| PathResolution.WalkThrough | crates/xuanling-toolkit/src/capability.rs:366-495 | Resolution of a longer path passes through the resolution of its beginning (section 4.13 of IEEE Std 1003.1-2017, XBD). |
| PathResolution.WalkStaysPhysical | crates/xuanling-toolkit/src/capability.rs:366-495 | Resolution ends at a location none of whose prefixes is a link, or stops at a child of one. |
| Capability.NormalizeFrom | crates/xuanling-toolkit/src/capability.rs:695-714 | The loop computes lexical normalisation from a base. |
| Capability.IntentRefinesResolution | crates/xuanling-toolkit/src/capability.rs:366-495 | On every tree, in every case of resolution: where it succeeds the walker gives the same location, or runs out of links; past a missing component the walker goes on lexically, and starts again when that leads back out; at a file it fails on a name but goes on past a parent step, where resolution fails; where resolution runs out of links it goes on to its own limit of 40. |
| Capability.WalkerGoesPastFiles | crates/xuanling-toolkit/src/capability.rs:386-399 | With a system limit of at least 40 links, the walker gives a location where resolution fails for another reason than a missing component exactly when resolution stopped at a file, a parent step came next and the walker succeeds from the directory of the file. The containment check still refuses such a path, since it calls the walker only after not-found. |
| Capability.ParentOfFile | crates/xuanling-toolkit/src/capability.rs:386-399 | It does happen: for /f/.. with /f a file resolution fails and the walker gives the root. |
| Creation.CreateLands | crates/xuanling-toolkit/src/fs/write.rs:169-174 | Making the missing directories one by one, also past parent steps, only adds directories and ends exactly where a walk of the unchanged tree ends that takes missing entries for directories; it fails exactly where that fails. |
| Creation.LandOfWalk | crates/xuanling-toolkit/src/fs/write.rs:169-174 | Where resolution succeeds creation ends in the same place, from a missing component creation goes on, and where resolution fails otherwise creation fails. |
| Creation.LexicalStepExact | crates/xuanling-toolkit/src/capability.rs:395-419 | For every tree: going on lexically from a missing component leads, component by component, to the places creation leads to, if and only if no parent step cancels an existing link that leads elsewhere than to a child of its own directory. |
| Creation.WalkerFindsCreation | crates/xuanling-toolkit/src/capability.rs:366-495 | For every tree and path: if no such link is cancelled anywhere the walker goes on lexically, the location it accepts is the one creation reaches. |
| Creation.WalkerMatchesCreation | crates/xuanling-toolkit/src/capability.rs:395-419 | From a missing component on, the walker gives for each further component the place creation reaches, if and only if no such link is cancelled, provided that it accepts and that where it starts again its path is straight. |
| Creation.KeepsUpExactlyWhen | crates/xuanling-toolkit/src/capability.rs:366-495 | For every tree and path that can be created: through links, missing components and all restarts, the walker is at every component it goes over lexically where creation is, if and only if no such link is cancelled on its way. |
| Creation.NoParentIsStraight | crates/xuanling-toolkit/src/capability.rs:366-495 | A path that exists, or has no parent step after its first missing component, meets the condition. |
| Creation.DetourMovesCreation | crates/xuanling-toolkit/src/capability.rs:395-419 | The condition can fail: with /w/m missing and /w/l a link to /o/d, the walker proves /w/x for /w/m/../l/../x, and creation reaches /o/x. |
| Creation.DetourCanRejoin | crates/xuanling-toolkit/src/capability.rs:395-419 | A later component can lead both back to one place, which is why the exact condition is stated for each component on the way and not for the end alone. |
| Capability.NormalizeKeepsMissing | crates/xuanling-toolkit/src/capability.rs:695-714 | Going on lexically past a missing entry can only return to an existing place through a parent step over it. |
| Capability.IntentIsLinkFree | crates/xuanling-toolkit/src/capability.rs:366-495 | An accepted intended location has no symbolic link among its existing prefixes. |
| Capability.ResolveMissingIntent | crates/xuanling-toolkit/src/capability.rs:366-495 | The component loop with its restarts terminates, by remaining links and then parent steps, and returns exactly the intended location. |
| Workspace.ContainmentIsReached | crates/xuanling-toolkit/src/capability.rs:275-359 | An accepted containment proof of a path on which no such link is cancelled names the location the path reaches once its missing directories are made; for a path that exists it is the location resolved; a path resolution refuses otherwise has no proof and reaches nothing. |
| Workspace.ContainmentExactlyWhen | crates/xuanling-toolkit/src/capability.rs:275-359 | The exact condition: from the first missing component of a path on, the containment proof agrees with creation at every component if and only if no parent step cancels a link that leads elsewhere. |
| Workspace.GoesStraightExactlyWhen | crates/xuanling-toolkit/src/capability.rs:275-359 | For a whole path that creation reaches, restarts included, the condition under which containment is proved holds if and only if the walker keeps up with creation. |
| Workspace.DetourIsVisible | crates/xuanling-toolkit/src/capability.rs:568-579 | A caller can check the condition: where a parent step cancels a link that leads elsewhere, lstat of the spelling it cancels shows a link, unless a link target on the way to it passes a missing component and comes back. |
| Workspace.LexicalWorkspaceRoot | crates/xuanling-toolkit/src/capability.rs:593-649 | The returned prefix is the first alias of the first root that has one; outside-workspace is returned only when no prefix looked at is an alias; any other failure is that of some prefix, and can come although a later root has an alias. |
| Workspace.ComponentCheckExact | crates/xuanling-toolkit/src/capability.rs:542-590 | The component check passes exactly when every component it walks over lexically from the alias exists and is no link, up to the end or the first missing one; parent steps are popped lexically. |
| Workspace.RejectSymlinkComponents | crates/xuanling-toolkit/src/capability.rs:521-591 | The verdict is the specified one; acceptance means an alias of a root, no link among the components met from there up to the first missing one, and, when no parent step follows the alias, no link among the existing entries below the root. |
| Workspace.Validate | crates/xuanling-toolkit/src/capability.rs:275-359 | The verdict is the specified one with the first failure in the order of the checks; acceptance returns the path with a containment proof for its access, and for mutations a passed component check. |
| Workspace.RootsAdmit | crates/xuanling-toolkit/src/capability.rs:248-257 | Reading is below a write root or a read root; writing, deleting and working directories are below a write root only. |
| AdmissionRules.ReadAcceptedExactlyWhen | crates/xuanling-toolkit/src/capability.rs:275-359 | A path is accepted for reading if and only if its proved location is below one of all the roots, as a working directory if and only if it is below a write root; otherwise the error says which of the two failed. |
| AdmissionRules.ReadEntryAcceptedExactlyWhen | crates/xuanling-toolkit/src/capability.rs:275-331 | An entry is accepted for reading if and only if its directory is below a root, and it is a link or below a root itself. |
| AdmissionRules.MutationAcceptedExactlyWhen | crates/xuanling-toolkit/src/capability.rs:275-359 | A path accepted for writing or deleting is below a write root and, from the first alias of a write root on, every component met is there and no link, up to the first missing one; every such path is accepted when no search for the alias fails. |
| AdmissionRules.DeleteEntryAcceptedExactlyWhen | crates/xuanling-toolkit/src/capability.rs:275-359 | The same for deleting an entry: its directory is below a write root and the way to it clear, and the entry is a link or passes itself. |
| AdmissionRules.CheckPassesExactlyWhen | crates/xuanling-toolkit/src/capability.rs:521-591 | The component check passes only from the first alias of a write root and past no link, and always there when no search fails. |
| AdmissionRules.CheckFailsBecause | crates/xuanling-toolkit/src/capability.rs:542-590 | A failed component check names the link that was met, or what lstat of a component failed with. |
| Workspace.AcceptedPathStaysInside | crates/xuanling-toolkit/src/capability.rs:248-257 | A path accepted for an access, on which no parent step after a missing component cancels a link that leads elsewhere, reaches, if anything, a location below one of the write roots, or of the read roots when it was accepted for reading. A path that exists always does. |
| Workspace.AcceptedEntryStaysInside | crates/xuanling-toolkit/src/capability.rs:275-331 | An accepted entry whose parent path meets the same condition lives in a directory below such a root. |
| Workspace.AcceptedMutationIsLiteral | crates/xuanling-toolkit/src/capability.rs:521-591 | An accepted mutation without a parent step after the alias, which is one of a write root, acts where its spelling says, missing components included, and follows no link below the root. |
| Workspace.DetourIsAccepted | crates/xuanling-toolkit/src/capability.rs:275-359 | The condition is not implied by acceptance: with /w the only root, /w/m/../l/../x is accepted for writing although creating /w/m makes it /o/x; the component check stops at the missing /w/m. |
| MemoryTables.ScopeKeyIsInjective | crates/xuanling-memory/src/scope.rs:62-132 | The canonical key identifies a validated scope. |
| TextOrder.SortedFormsAgree | crates/xuanling-memory/src/store/v2.rs:2021-2046 | Sorting the tags of a request and reading the tag set back in order give the same text, when no tag repeats. |
| MemoryStore.Transaction.InsertTags | crates/xuanling-memory/src/store/v2.rs:2021-2037 | The tags become rows exactly when none repeats; a repeated tag is a conflict. |
| MemoryStore.Transaction.InsertTagsAndFts | crates/xuanling-memory/src/store/v2.rs:2021-2067 | The tag rows and one row with sorted tag text in each search table. |
| MemoryStore.Transaction.ApplyCreate | crates/xuanling-memory/src/store/v2.rs:1745-1823 | Duplicate check, version 1, head, tags and search rows as specified, or the specified conflict. |
| MemoryStore.Transaction.ApplyReplace | crates/xuanling-memory/src/store/v2.rs:1825-1953 | Scope, status and revision checks, the next version, the advanced head and the renewed search rows as specified, or the specified error. |
| MemoryStore.Transaction.ApplyArchive | crates/xuanling-memory/src/store/v2.rs:1955-2019 | The head flips to archived and its search rows go, or the specified error. |
| MemoryStore.Transaction.RebuildFts | crates/xuanling-memory/src/store/v2.rs:875-937 | Both search tables project the canonical rows: one right row for each active record. |
| MemoryStore.Store.Candidate | crates/xuanling-memory/src/store/v2.rs:31-241 | The tables are the specified ones and the invariant holds. An answered call, new or replayed, is answered with a proposal of the same namespace, scope and change; where the specification accepts and the answer is not-found, the key belongs to another request with the same digest, and a namespace contains the separator. |
| MemoryDigest.SameChange | crates/xuanling-memory/src/store/v2.rs:1307-1322 | In one namespace and scope equal digests mean the same operation, target, revision and payload, whatever characters they contain. |
| MemoryDigest.DigestIsInjective | crates/xuanling-memory/src/store/v2.rs:1307-1322 | Where namespaces are free of U+001F the digest identifies the whole request; record ids may contain it. |
| MemoryStore.CollisionHappens | crates/xuanling-memory/src/store/v2.rs:1307-1322 | Otherwise two valid requests for different scopes can share a digest; with the key of the first, the second is answered not-found where a conflict was due. |
| MemoryStore.ReplayIsTheRequest | crates/xuanling-memory/src/store/v2.rs:1393-1421 | A key belongs to one proposal; a replay in its namespace and scope is of the very same request; and where no namespace contains the separator, equal digests mean the same namespace and scope. |
| MemoryStore.Store.CandidateGet | crates/xuanling-memory/src/store/v2.rs:244-265 | Invalid names are refused; a proposal is found in exactly its namespace and scope. |
| MemoryStore.Store.Review | crates/xuanling-memory/src/store/v2.rs:336-509 | The tables become the specified ones or stay as they were, the invariant holds, and the answer is the decided proposal exactly when the conditions of the next rows hold, or else the error they name. |
| MemoryAnswers.ReviewAnswer | crates/xuanling-memory/src/store/v2.rs:336-509 | A review is accepted if and only if it is valid and repeats a recorded one, or the proposal is pending in its namespace and scope under an unused key and is rejected, or approved where it can be: tags distinct, no other active record with the dedupe key, the target active at the target revision. Otherwise the error by condition. |
| MemoryAnswers.RejectionIsRecorded | crates/xuanling-memory/src/store/v2.rs:445-497 | A rejection leaves the proposal rejected at revision 2 and a review row with key, reviewer and comment, and no other row changes. |
| MemoryAnswers.CreationIsPublished | crates/xuanling-memory/src/store/v2.rs:1745-1823 | An approved create adds version 1, an active head, one row for each tag, one row in each search table, the review and the decision, and changes nothing else. |
| MemoryAnswers.ReplacementIsPublished | crates/xuanling-memory/src/store/v2.rs:1825-1953 | An approved replacement adds the next version and its tags, moves the head to it, and puts its row in the place of the old one in both search tables. |
| MemoryAnswers.ArchivingIsRecorded | crates/xuanling-memory/src/store/v2.rs:1955-2019 | An approved archiving flips the head and takes its rows out of both search tables; versions and tags stay. |
| MemoryAnswers.RefusedReviewChangesNothing | crates/xuanling-memory/src/store/v2.rs:336-509 | A refused or repeated review leaves every table as it was. |
| MemoryAnswers.NewCandidateAnswer | crates/xuanling-memory/src/store/v2.rs:31-241 | A proposal under a new key is refused exactly when a field is malformed or its id is taken; otherwise it becomes one pending row with the fields of the request. |
| MemoryAnswers.KnownCandidateAnswer | crates/xuanling-memory/src/store/v2.rs:1393-1421 | Under a known key the tables stay; in one namespace and scope the answer is the known proposal if and only if the request repeats it, and a conflict otherwise. |
| MemoryAnswers.FeedbackAnswer | crates/xuanling-memory/src/store/v2.rs:542-637 | Feedback by condition: malformed, unknown version, repeated, conflicting key, taken id, or one new row. |
| MemoryAnswers.NewlinesUnified | crates/xuanling-memory/src/store/mod.rs:205-216 | Both CR LF and CR become LF, everything else stays, no CR is left, and a text is unified piece by piece unless cut inside a CR LF. |
| MemoryAnswers.DedupeKeysAgree | crates/xuanling-memory/src/store/mod.rs:205-216 | For namespaces free of U+001F: two contents have one dedupe key if and only if the namespaces are equal and so are the contents after unifying newlines, trimming and normalising. |
| MemoryAnswers.SearchRowsExactly | crates/xuanling-memory/src/store/v2.rs:875-937 | A search table has one row for each active record and none besides, with title, content and summary of the current version and its tags in order. |
| MemoryStore.Store.RecordGet | crates/xuanling-memory/src/store/v2.rs:512-539 | Invalid names are refused; found are exactly the revisions 1 to current of a record in exactly this namespace and scope. |
| MemoryStore.Store.FeedbackEvent | crates/xuanling-memory/src/store/v2.rs:542-637 | Feedback is appended once per key, only for existing versions, and nothing else changes. |
| MemoryStore.Store.RebuildProjection | crates/xuanling-memory/src/store/v2.rs:875-941 | A rebuild leaves the contents of both search tables as they were and touches nothing canonical. |
| MemoryInvariant.CandidateKeepsInv | crates/xuanling-memory/src/store/v2.rs:31-241 | A new proposal keeps the whole invariant. |
| MemoryInvariant.PublishKeepsProvenance | crates/xuanling-memory/src/store/v2.rs:1745-1953 | After an approved create or replace, every version still carries content and tags of the approved proposal that made it. |
| MemoryInvariant.PublishKeepsUnique | crates/xuanling-memory/src/store/v2.rs:1756-1776 | No two active heads of one namespace and scope share a dedupe key. |
| MemoryInvariant.PublishKeepsProjection | crates/xuanling-memory/src/store/v2.rs:1950-1951 | The incrementally maintained search table is again what a rebuild would give, for any table that was. |
| MemoryInvariant.PublishKeepsInv | crates/xuanling-memory/src/store/v2.rs:1745-1953 | An approved create or replace keeps the whole invariant. |
| MemoryInvariant.ArchiveKeepsInv | crates/xuanling-memory/src/store/v2.rs:1955-2019 | An approved archive keeps the whole invariant. |
| MemoryInvariant.RejectKeepsInv | crates/xuanling-memory/src/store/v2.rs:437-497 | A rejection keeps the whole invariant. |
| MemoryInvariant.FeedbackKeepsInv | crates/xuanling-memory/src/store/v2.rs:542-637 | Feedback keeps the whole invariant. |
| MemoryRuns.ReviewSucceeds | crates/xuanling-memory/src/store/v2.rs:336-509 | A successful review is a replay, a rejection, a publication of the next revision, or an archiving; nothing else. |
| MemoryRuns.EveryRunKeepsInv | crates/xuanling-memory/src/store/v2.rs:31-637 | After any sequence of proposals, reviews and feedback on a new store: versions are exactly 1 to current with the right origins, active dedupe keys are unique, a proposal is pending exactly when its revision is 1 and it has no review, and both search tables equal a rebuild. |
| MemoryRuns.RunsEvolve | crates/xuanling-memory/src/store/v2.rs:336-509 | Between any two moments of a run, versions with their tags, archived heads, decided proposals, reviews and feedback stay as they are, and heads only advance. |
| MemoryRuns.ArchivedIsFinal | crates/xuanling-memory/src/store/v2.rs:1955-2019 | An archived record never changes again: same head, same versions and tags, no later version. |
| MemoryRuns.ProjectionIsUnique | crates/xuanling-memory/src/store/v2.rs:875-941 | Two tables that project the same canonical rows hold the same rows. |
| MemoryEffects.EveryApprovalIsEffective | crates/xuanling-memory/src/store/v2.rs:336-509 | After any sequence of calls: every approved create or replace is the origin of exactly one version, the revision its review names; every approved archive has archived its target at the revision its review names; nothing undecided or rejected has made anything. |
| MemoryEffects.VersionsAreApprovals | crates/xuanling-memory/src/store/v2.rs:1745-1953 | No two versions have one origin, and each has the revision that the review of its origin names. |
| JsonlFormat.Export | crates/xuanling-memory/src/jsonl.rs:179-418 | The file is the header, all rows of each table in key order and a trailer with counts and hash; the count is the number of rows. |
| JsonlFormat.ReadBack | crates/xuanling-memory/src/jsonl.rs:553-582 | Sorting the entity lines of an export by kind gives back the exported rows. |
| MemoryJsonl.CheckVersions | crates/xuanling-memory/src/jsonl.rs:602-628 | Accepts exactly the versions with distinct keys, revisions from 1, known proposals, and matching dedupe key and hash. |
| MemoryJsonl.CheckHeads | crates/xuanling-memory/src/jsonl.rs:629-640 | Accepts exactly distinct heads that point at existing versions. |
| MemoryJsonl.CheckReviews | crates/xuanling-memory/src/jsonl.rs:641-663 | Accepts exactly reviews of known proposals, one each, with distinct keys. |
| MemoryJsonl.CheckProposals | crates/xuanling-memory/src/jsonl.rs:664-707 | Accepts exactly proposals with distinct keys whose status agrees with their review, with payload and existing target where needed. |
| MemoryJsonl.CheckEvents | crates/xuanling-memory/src/jsonl.rs:708-719 | Accepts exactly feedback with distinct keys on existing versions. |
| MemoryJsonl.Validate | crates/xuanling-memory/src/jsonl.rs:508-719 | A file is accepted exactly when it is as `AcceptedExactlyWhen` says; every refusal is an integrity error. |
| ImportRules.AcceptedExactlyWhen | crates/xuanling-memory/src/jsonl.rs:508-719 | Said of the lines of the file: the first is a header of this format, the last a trailer with the hash of all before it and the number of lines of each sort, and between them each row has what it refers to, distinct keys, matching hash and dedupe key, and a status that agrees with its review. Exactly such files are accepted, in any order of lines. |
| ImportRules.TrailerTellsTheFile | crates/xuanling-memory/src/jsonl.rs:530-548 | Two accepted files with the same last line are the same file. |
| MemoryJsonl.EmptyCheckIsEnough | crates/xuanling-memory/src/jsonl.rs:721-736 | In a reachable store the three counted tables being empty makes every table empty. |
| MemoryJsonl.Import | crates/xuanling-memory/src/jsonl.rs:508-959 | Import succeeds exactly for an accepted file, an empty store and rows without unique-index conflicts; then the tables are the loaded rows with a fresh projection, otherwise nothing changes. |
| MemoryRoundTrip.LoadedIsOriginal | crates/xuanling-memory/src/jsonl.rs:741-894 | Loading the listed rows gives back the canonical tables. |
| MemoryRoundTrip.ExportedProposalValid | crates/xuanling-memory/src/jsonl.rs:698-706 | An exported proposal validates exactly when its target exists, and an approved one always does. |
| MemoryRoundTrip.ExportIsAccepted | crates/xuanling-memory/src/jsonl.rs:508-719 | The export of a reachable store is accepted exactly when every pending or rejected proposal with a target names an existing version. |
| MemoryRoundTrip.Restore | crates/xuanling-memory/src/jsonl.rs:179-959 | Exported and imported into an empty store, exactly under that condition, all canonical tables are equal and both search tables hold the same rows. |
| MemoryRoundTrip.DanglingTargetIsRefused | crates/xuanling-memory/src/jsonl.rs:698-706 | The condition can fail: one accepted archive proposal for a record that does not exist makes the export unimportable. |
| MemoryImported.ImportedIsGoodExactlyWhen | crates/xuanling-memory/src/jsonl.rs:602-959 | Exactly which accepted files load into a store that satisfies the invariant: those whose revisions have no gap, whose versions and tags are those of the approved proposals they name, whose heads match their versions, and whose decisions fit their proposals. |
| MemoryImported.ImportInto | crates/xuanling-memory/src/jsonl.rs:508-959 | After a successful import the invariant holds if and only if these unchecked conditions do. |
| MemoryImported.ContinuedKeepsInv | crates/xuanling-memory/src/store/v2.rs:31-637 | From such a store on, every sequence of calls keeps the invariant. |
| MemoryImported.AcceptedIsNotEnough | crates/xuanling-memory/src/jsonl.rs:664-707 | The checks of import do not imply it: a pending proposal of revision 2 is accepted. |
| Disk.Volume.AtomicWrite | crates/xuanling-toolkit/src/fs/mod.rs:148-161 | A write replaces the target as a whole or leaves it alone; what it overwrites is what was last seen there unless somebody else wrote since. |
| EditPlan.MatchesAreLeftmost | crates/xuanling-toolkit/src/fs/edit_batch.rs:362-362 | The counted matches are occurrences, apart and in order, and every occurrence starts inside one of them. |
| EditPlan.NoMatch | crates/xuanling-toolkit/src/fs/edit_batch.rs:362-375 | The count is 0 exactly when the text occurs nowhere. |
| EditPlan.ReplaceBySame | crates/xuanling-toolkit/src/fs/edit_batch.rs:391-395 | Putting the old text where it was gives the text back. |
| EditPlan.ReplaceFillsMatches | crates/xuanling-toolkit/src/fs/edit_batch.rs:391-395 | Replacing puts the new text exactly where the matches were and copies the rest. |
| EditPlan.OneMatch | crates/xuanling-toolkit/src/fs/edit_batch.rs:376-395 | The count is 1 exactly when some occurrence exists and all others overlap the first; both replacement forms then agree. |
| EditPlan.OneMatchIsUnique | crates/xuanling-toolkit/src/fs/edit_batch.rs:376-395 | For a text that does not overlap itself, one match means one occurrence. |
| EditPlan.OverlappingCountsOnce | crates/xuanling-toolkit/src/fs/edit_batch.rs:376-395 | Otherwise it need not: "aa" occurs twice in "aaa" and counts as a single match. |
| EditPlan.PlanEdits | crates/xuanling-toolkit/src/fs/edit_batch.rs:352-407 | Edits apply in order, each to what the ones before left, as `PlanExactly` says, and the total is that of the single counts. |
| PlanRules.PlanExactly | crates/xuanling-toolkit/src/fs/edit_batch.rs:352-407 | A plan is a chain of texts from the original: each edit occurs, once unless it may replace all, and its leftmost matches are filled to give the next text. An error names the first edit where the chain stops and why: no occurrence, or several in different places, with their number. |
| PlanRules.PlannedExactlyWhen | crates/xuanling-toolkit/src/fs/edit_batch.rs:352-407 | Planning succeeds if and only if there is such a chain through all edits. |
| PlanRules.ChainIsOne | crates/xuanling-toolkit/src/fs/edit_batch.rs:352-407 | Two chains of the same edits go through the same texts. |
| PlanRules.VerdictExactly | crates/xuanling-toolkit/src/fs/write.rs:677-807 | The verdict on a single edit in the same terms, with the condition of each error. |
| ChangeSet.RollBackEntry | crates/xuanling-toolkit/src/fs/change.rs:419-497 | Checks every member before writing; a conflict writes nothing; success puts every member back; a failure part of the way reports truly and stays retryable; only bytes seen to be its own are overwritten. |
| ChangeSet.FindMembers | crates/xuanling-toolkit/src/fs/change.rs:432-465 | The members that still hold the change are found by reading alone; a member holding something else is a conflict. |
| ChangeSet.Classify | crates/xuanling-toolkit/src/fs/edit_batch.rs:484-518 | The reported state of a path is its true state. |
| ChangeSet.StateIsTold | crates/xuanling-toolkit/src/fs/change.rs:506-541 | Absent, restored, still applied and changed externally are each reported exactly when they are so. |
| ChangeSet.ReadyExactlyWhen | crates/xuanling-toolkit/src/fs/change.rs:428-465 | A first rollback wants every member to hold the bytes written; a retry also takes those put back before. |
| ChangeSet.ReverseRollbackRestores | crates/xuanling-toolkit/src/fs/change.rs:394-497 | For any chain of changes: if each rollback, newest first, puts its members back, each finds its members as the change left them and the last leaves the exact original files. |
| SingleEdit.FsEdit | crates/xuanling-toolkit/src/fs/write.rs:677-807 | A finished edit has replaced the file it read by all its matches, or the only one, and when reversible is registered with the bytes it replaced; a failed one and a dry run write nothing; with working I/O and no other writer the answer is the verdict on the file. |
| UndoStack.Perform | crates/xuanling-toolkit/src/fs/write.rs:778-790 | One edit or batch either changes nothing or registers a change that led from the old files to the new. |
| UndoStack.ApplyAndUndo | crates/xuanling-toolkit/src/fs/change.rs:394-497 | Any list of reversible edits and batches applied in order and rolled back newest first, with working I/O and no other writer: every rollback succeeds and the files are exactly what they were. |
| ChangeRegistry.Registry.RegisterAppliedGroup | crates/xuanling-toolkit/src/fs/change.rs:107-129 | The group is registered, applied and awaiting completion, under a fresh id. |
| ChangeRegistry.Registry.RegisterApplied | crates/xuanling-toolkit/src/fs/change.rs:101-103 | A single applied edit is registered as a group of one. |
| ChangeRegistry.Registry.Commit | crates/xuanling-toolkit/src/fs/change.rs:355-371 | Succeeds exactly for a permitted change awaiting completion and changes nothing else; unknown, off limits and conflict are each reported exactly when they are so. |
| ChangeRegistry.Registry.Rollback | crates/xuanling-toolkit/src/fs/change.rs:394-504 | Only this entry moves, by an allowed state change; each error has its exact condition; without other writers it is rolled back exactly when every member still holds what was written, or on a retry what was put back, and otherwise a conflict that writes nothing. |
| ChangeRegistry.Retry | crates/xuanling-toolkit/src/fs/change.rs:416-497 | From recovery-failed, with working I/O and no other writer, a retry restores every member. |
| ChangeRegistry.FinalStaysFinal | crates/xuanling-toolkit/src/fs/change.rs:355-504 | Under any interleaving of commits and rollbacks, committed, rolled back and conflict are final, so a change reaches at most one of them. |
| EditBatch.Prepare | crates/xuanling-toolkit/src/fs/edit_batch.rs:124-192 | Everything is read, checked and planned without a write; the plan is of the bytes that are there; with working I/O and no other writer an error is true of the first file that does not fit. |
| EditBatch.RecoverAfterFailure | crates/xuanling-toolkit/src/fs/edit_batch.rs:420-482 | Without other writers, either the failure comes back and every file is as before, or the report is true of every path and some applied path is not restored. |
| EditBatch.Apply | crates/xuanling-toolkit/src/fs/edit_batch.rs:205-257 | Success leaves every target with its planned bytes; failure recovers; each write is over the bytes planned from. |
| EditBatch.FsEditBatch | crates/xuanling-toolkit/src/fs/edit_batch.rs:109-285 | Success means planned bytes everywhere, any error but recovery-failed means nothing changed, recovery-failed is true of every path; with other writers, recovery only overwrites bytes seen to be its own. With working I/O and no other writer a well-formed request whose files all fit is applied unless cancelled, and any other error is true of the first file that does not fit. |
| EditBatch.BatchIsEdit | crates/xuanling-toolkit/src/fs/edit_batch.rs:259-277 | A successful batch is a change that can be rolled back: the registered members captured what was there. |
| MultiApply.RollbackBuffer | crates/xuanling-toolkit/src/fs/change.rs:276-312 | Written targets go back, absent ones absent, last first; exactly the reported ones can keep their new bytes. |
| MultiApply.ApplyMulti | crates/xuanling-toolkit/src/fs/change.rs:159-224 | Success has written the changes in order; where no two spellings lead to one file, every target then holds its bytes and nothing else changed, and a failed write whose rollback reports nothing leaves every target as it was. With working I/O and no other writer it succeeds exactly when all spellings differ and all guards hold, and otherwise names the first change that does not fit. |
| MultiApply.AllHoldExactlyWhen | crates/xuanling-toolkit/src/fs/change.rs:161-214 | Written in order, every change is in place if and only if no two write different bytes to one file. |
| MultiApply.AliasIsOverwritten | crates/xuanling-toolkit/src/fs/change.rs:161-170 | The check for duplicates compares spellings: /d/x/../f and /d/f both pass, the call succeeds, and the file has the bytes of the second. |
| Move.Volume.CopyTree | crates/xuanling-toolkit/src/fs/copy_move_remove.rs:312-401 | A finished copy has the whole source tree at the slot; at every step only places near the slot differ. |
| Move.Volume.RemoveAny | crates/xuanling-toolkit/src/fs/copy_move_remove.rs:177-187 | A finished removal leaves nothing; at every step only places near it differ. |
| Move.InstallInSlot | crates/xuanling-toolkit/src/fs/copy_move_remove.rs:509-552 | Into a free slot: the source is complete in its place until the copy is complete, in every state in between. |
| Move.InstallThroughLink | crates/xuanling-toolkit/src/fs/copy_move_remove.rs:509-552 | With a dangling link in the slot: nothing but a file can be installed; the file is copied to where the link leads and removed from its place, and the link stays; on failure source and link are as they were. |
| Move.InstallAcrossDevices | crates/xuanling-toolkit/src/fs/copy_move_remove.rs:509-552 | The install does the one or the other by what is in the slot, and is complete at the destination only in the first case. |
| Move.MovedAll | crates/xuanling-toolkit/src/fs/copy_move_remove.rs:604-647 | Old destination aside, source installed, backup removed: together the source tree is at the destination in place of what was there, and nothing else has changed. |
| Move.MovedBack | crates/xuanling-toolkit/src/fs/copy_move_remove.rs:648-666 | Old destination aside, a failed install cleared away, backup renamed back: together nothing has changed. |
| Move.FsMove | crates/xuanling-toolkit/src/fs/copy_move_remove.rs:554-666 | If neither entry is inside the other and the destination is absent to lstat or exists when links are followed: in every state before the install the source is complete in its place and the old destination complete there or in the backup; a failed move leaves it at that; a finished one has the source at the destination; nothing elsewhere changes. With a dangling link at the destination a finished move has the source there if and only if no copy was needed; a copied file is then where the link led, never lost on the way. On a reliable volume with the destination and its backup on one device, what can be moved is moved exactly, with nothing left over, and a failed overwrite leaves every file as it was; each refusal has its exact condition. |
| Move.WrittenThroughMissesDestination | crates/xuanling-toolkit/src/fs/copy_move_remove.rs:524-534 | For every file system: a file copied onto a dangling link and removed from its place is where the link led, the link is still at the destination, and the source is not. |
| Move.LinkIsWrittenThrough | crates/xuanling-toolkit/src/fs/copy_move_remove.rs:509-552 | It happens: a file moved from another device onto a dangling link, with nothing failing, is answered as moved; the link is unchanged and the file is where it led. |
| Move.PutAsideKeepsSource | crates/xuanling-toolkit/src/fs/copy_move_remove.rs:597-611 | The condition is exact: on every file system, putting an existing destination aside leaves the source complete if and only if neither entry is inside the other. |
| Move.OverlapCheckIsExact | crates/xuanling-toolkit/src/fs/copy_move_remove.rs:50-58 | For entries that are no symbolic links the check refuses exactly nested ones. |
| Move.OnlyDanglingLinksAreReplaced | crates/xuanling-toolkit/src/fs/copy_move_remove.rs:587-595 | Past the overlap check and without overwrite, an entry at the destination is refused exactly when it is no dangling link. |
| Move.DanglingLinkIsReplaced | crates/xuanling-toolkit/src/fs/copy_move_remove.rs:587-595 | A dangling link passes the checks without overwrite and is renamed over. |
| Move.OverlapLosesSource | crates/xuanling-toolkit/src/fs/copy_move_remove.rs:576-586 | Without the check, putting the destination aside takes a source inside it along. |
| Move.LinkInsideDestinationPasses | crates/xuanling-toolkit/src/fs/copy_move_remove.rs:50-58 | The check follows links: a source that is a link inside the destination passes it and is gone once the destination is put aside. |
| ScopedMove.PlainResolves | crates/xuanling-toolkit/src/capability.rs:521-591 | Below the alias of an accepted mutation without parent steps, every part of the path resolves exactly when the location it spells exists, and then to that. |
| ScopedMove.PlainEntry | crates/xuanling-toolkit/src/capability.rs:521-591 | Such a path is the entry its spelling names, and that is no link. |
| ScopedMove.LongestIsSpelled | crates/xuanling-toolkit/src/fs/copy_move_remove.rs:66-91 | For such a path, the canonical form of its longest existing part with the missing names appended is the location it spells. |
| ScopedMove.MoveInScope | crates/xuanling-toolkit/src/fs/copy_move_remove.rs:554-666 | Between two accepted paths below an alias of a root, without parent steps after it: neither end is a link, a move is refused with nothing changed if the entries are nested and is never refused as overlapping otherwise, and all that fs_move promises holds with no further condition. The answer is given for every case: missing source, nesting, existing destination, and where nothing fails the exact result. |
| ScopedMove.AliasItselfIsAccepted | crates/xuanling-toolkit/src/capability.rs:521-560 | The condition is needed: a link that is itself an alias of a root is accepted for writing and deleting. |
| Jobs.JobStepKeeps | crates/xuanling-harness-bridge/src/jobs.rs:200-279 | Each step of settling, releasing, cancelling, confirming and waiting keeps what holds of its job and what its thread knows. |
| Jobs.NextKeepsInv | crates/xuanling-harness-bridge/src/jobs.rs:371-582 | Every atomic step of any thread keeps the invariant of the whole table. |
| Jobs.RunKeepsInv | crates/xuanling-harness-bridge/src/jobs.rs:354-582 | The invariant holds in every state of every run, with any number of threads and jobs. |
| Jobs.ActiveIsExact | crates/xuanling-harness-bridge/src/jobs.rs:412-433 | The active counter is the jobs holding a slot plus the releases claimed but not subtracted, never over the limit, and never zero when one is about to be subtracted. |
| Jobs.ReleasedOnceAfterCleanup | crates/xuanling-harness-bridge/src/jobs.rs:561-582 | A slot is released at most once and only after a final result with confirmed cleanup; a job is settled at most once, when it finishes. |
| Jobs.OneJobPerRequest | crates/xuanling-harness-bridge/src/jobs.rs:312-333 | Racing submissions of a request id are answered with one job of the same payload, and it stays in the table. |
| Jobs.NoLostWakeup | crates/xuanling-harness-bridge/src/jobs.rs:452-485 | A waiter parked on a finished job is stale, so it wakes, unless the settling thread still has its version bump pending. |
| Jobs.JobsEvolve | crates/xuanling-harness-bridge/src/jobs.rs:223-279 | From one moment to any later one a result stays but for cleanup becoming confirmed, and the first cancel reason stays. |
| Jobs.AnswersAgree | crates/xuanling-harness-bridge/src/jobs.rs:452-524 | Whatever final result any caller was told, also by a wait that timed out, is the stored result from then on, but for cleanup confirmed since. |
| Jobs.SupervisorSettles | crates/xuanling-harness-bridge/src/supervisor.rs:546-610 | A supervisor may return, fail or be dropped at any point, before or after noting its settlement: its thread stays with the job until its guard has been dropped, and then the job is finished. |
| JobRules.ReasonIsRecorded | crates/xuanling-harness-bridge/src/jobs.rs:237-249 | Once a canceller has recorded its reason the job has a reason for the rest of the run: the one it had, or else this one. |
| JobRules.CancelLeavesReason | crates/xuanling-harness-bridge/src/jobs.rs:498-524 | Wherever a cancel call waits for its job or has given up waiting, the job has finished or has a reason to stop. |
| JobRules.ResultIsStored | crates/xuanling-harness-bridge/src/jobs.rs:223-235 | The first settlement stores its result as it is; a later one changes nothing. |
| JobRules.NoSlotIsLost | crates/xuanling-harness-bridge/src/jobs.rs:561-582 | In every state of every run a job finished with confirmed cleanup has had its slot released, or a thread is on its way to it. |
| JobRules.FinishedIsAnswered | crates/xuanling-harness-bridge/src/jobs.rs:267-284 | A call that begins to wait for a finished job never parks and never times out; it can only end in the answer. |
| JobRules.ConfirmedIsAnswered | crates/xuanling-harness-bridge/src/jobs.rs:526-559 | A cancel call whose cleanup was confirmed stores that and ends in the confirmed result. |
| JobRules.SubmitAnswer | crates/xuanling-harness-bridge/src/jobs.rs:371-450 | After its freeze a submission is answered by condition: the known job for the same payload, a conflict for another, busy, full, or a new job that holds a slot and is found under its request. |
| JobRules.NoThreadIsStuck | crates/xuanling-harness-bridge/src/jobs.rs:354-582 | In every state of every run each thread that is not at its end can take a step whatever the others do; a supervisor can settle with any result, and a stale waiter can look again. |
| EvidenceLinks.LinkStaysInside | scripts/maintenance/archive-blueprint-evidence.py:481-506 | The work list decides the recursive walk, and terminates by unvisited links, then pending names. |
| EvidenceLinks.AcceptedLinkStaysInside | scripts/maintenance/archive-blueprint-evidence.py:481-506 | In any tree restored from the archive, following an accepted link, through any chain of links and with any bound on them, never leaves the root. |
| EvidenceLinks.AcceptedExactlyWhen | scripts/maintenance/archive-blueprint-evidence.py:481-506 | A link is accepted exactly when its target is relative and the walk through the archived records ends inside without passing any link twice. |
| EvidenceLinks.PassingTwiceIsRefused | scripts/maintenance/archive-blueprint-evidence.py:497-504 | A harmless link that passes another one twice is refused. |
| EvidenceLinks.Extract | scripts/maintenance/archive-blueprint-evidence.py:509-543 | Every directory and file is restored, a link exactly when accepted and with its own target, nothing but directories besides, and no restored link leads out of the tree. |
| EvidencePrune.ValidateInventory | scripts/maintenance/archive-blueprint-evidence.py:212-257 | Accepts exactly inventories with distinct selected paths, distinct members under the selection, directories above members, and every selected path a member. |
| EvidencePrune.InventoryExactlyWhen | scripts/maintenance/archive-blueprint-evidence.py:212-257 | In plain terms: some paths are selected, all paths are plain, each selected path is a member and each member at or below a selected path, no path comes twice, and what has a member below it is a directory. |
| EvidencePrune.CheckSources | scripts/maintenance/archive-blueprint-evidence.py:283-297 | Passes exactly when nothing unknown is selected, present members match and none is missing without a receipt; each refusal is true. |
| EvidencePrune.ResumableExactlyWhen | scripts/maintenance/archive-blueprint-evidence.py:265-297 | A run can go on exactly from where nothing but members is selected, what is there of them is as archived, members are missing only under a receipt, and the receipt is for this archive. |
| EvidencePrune.DirectoryIsEmpty | scripts/maintenance/archive-blueprint-evidence.py:453-474 | When a directory has its turn, everything that was below it has gone. |
| EvidencePrune.RemoveMembers | scripts/maintenance/archive-blueprint-evidence.py:453-475 | Each removal is of a matching member under the receipt; without other writers the members all go, deepest first. |
| EvidencePrune.Prune | scripts/maintenance/archive-blueprint-evidence.py:431-478 | From any resumable state a run ends pruned or crashed, removes only matching members, stays resumable wherever it crashes, and without a crash ends with every member removed. |
| EvidencePrune.Rerun | scripts/maintenance/archive-blueprint-evidence.py:431-478 | Across crashes at any points and reruns only matching members go and the receipt covers every missing one; one attempt more than there are crashes ends with every member removed. |

## Left out

- Redaction.Redactor.RedactTail: works on units; UTF-8 decoding with replacement characters is not modelled, so the masked prefix is counted in units of the tail.
- Codex.CodexCollector.FinishRedacted: the wording of messages and the classification of failure text are not modelled, only which outcome there is and what text it carries.
- Collector.LineFramer.Push: the callback for each line is a returned list of lines in order.
- Workspace.AcceptedMutationIsLiteral: is about spellings without a parent step after the alias; with one, `Workspace.ComponentCheckExact` says what the check looks at, and nothing is checked past the first missing component (crates/xuanling-toolkit/src/capability.rs:579).
- Creation.Create: also makes what a dangling link leads to, where create_dir_all fails; the results about reached locations therefore cover more paths than the code reaches.
- Capability.ResolveMissingIntent: is for a tree that does not change during the walk, and for POSIX paths; Windows verbatim paths and a trailing slash are not modelled.
- MemoryDigest.DigestIsInjective: takes the payload as a value, as its JSON is injective and contains no control characters; hashing is injective.
- MemoryStore.Store.RecordGet: returns the version row and the status; tags, which are read back through commas, and feedback counts are not modelled.
- MemoryStore.Store.Review: transactions are serial, so the two compare-and-swap updates always win; numbers are unbounded where the code converts between u64 and i64.
- JsonlFormat.Export: a line is the value it encodes; JSON text, the temporary file, its permissions and the check that the output does not exist are not modelled.
- EditBatch.FsEditBatch: paths name regular files that are not aliases of one another; the format check of the expected hash and the rendered difference are not modelled.
- Disk.Volume.AtomicWrite: another process may still write between the last look at a file and the rename; the log records it, and no claim is made that such a write survives.
- ChangeRegistry.Registry.Rollback: is stated for a registry nobody else uses meanwhile; the interleavings are the state machine of `FinalStaysFinal`, whose steps are these methods' effects.
- Move.FsMove: takes canonical paths and where a dangling link leads as inputs, which `ScopedMove` derives for accepted paths; other processes do not act during a move.
- ScopedMove.MoveInScope: says nothing of paths with a parent step after the alias.
- MultiApply.ApplyMulti: a target that is itself a link, which is read through and then replaced, is not modelled.
- Jobs.NextKeepsInv: states the protocol over values rather than as classes, since its methods interleave; poisoned locks, timers and process handling are not modelled, and a supervisor may come to any result; Registry::settle itself runs to its end.
- EvidencePrune.Prune: the check of an entry and its removal are one step, archive and receipt contents are values, and members of equal depth go in no particular order; the receipt's list omits members a crashed run removed, as in the code.
- EvidencePrune.ValidateInventory: the checks of the single fields size, mode, time, hash and target are not modelled.
- EvidenceLinks.Extract: file contents, modes and times are not modelled.
- The final status of a supervised run (crates/xuanling-harness-bridge/src/supervisor.rs:262-297): a single case analysis over reason, outcome and deadline.
- The DSH and other adapters (crates/xuanling-harness-bridge/src/adapters/): further instances of the fold proved for Codex.
- Search, ranking and retrieval (crates/xuanling-memory/src/retrieval.rs, store/v2.rs:648-871): they rest on floating-point scores and Unicode classes.
- Pagination of proposals (crates/xuanling-memory/src/store/v2.rs:268-330): the cursor joins fields with a colon that timestamps contain.
- fs_copy, fs_remove, reading, listing and searching of files: simpler relatives of what is modelled.
- The archive container itself (scripts/maintenance/archive-blueprint-evidence.py:301-344, 362-422): that an archive verifies is an input of pruning.
- Configuration, the MCP surface, the command line, reports and process containment.
