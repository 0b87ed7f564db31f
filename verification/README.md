# A verified model of nono-cedar-pdp

`nono-cedar-pdp` is a local policy decision point: an agent sandbox asks it whether a command may be
launched or an HTTP endpoint called, it evaluates Cedar policies from a directory, answers, and writes
every decision to an append-only audit log. This project models the parts of it that carry real state,
branching or arithmetic, and proves what they promise.

Run `dafny verify dfyconfig.toml` to verify everything.

## How it is laid out

| module | what it models |
|---|---|
| `EndpointPath`, `UriPath`, `Utf8`, `Splitting` | the ambiguity check on raw endpoint paths; `remove_dot_segments` of section 5.2.4 of RFC 3986; UTF-8 of section 4 of RFC 3629 |
| `Sanitize` | control-character escaping, and how far it can be undone |
| `AuditTrail`, `AuditLog` | the audit log writer: one append as a function of what every system call answers, runs of appends and outside changes, and the classes that refine it |
| `FileTree`, `PathResolution` | a Unix directory tree with symbolic links, and `absolutize` over it |
| `PolicyFiles`, `TrustCheck` | which files are policies; the trust check's truth tables and loops |
| `OtherUsers`, `TrustAdequacy`, `LinkedPolicies`, `TrustedLoad` | the steps another local user may take, and why the check is the right one; policies behind symbolic links |
| `Patterns`, `Cedar`, `Lint`, `LintSoundness` | `like` patterns, a small expression language with its evaluator, the argument-matching lint as a walk over JSON, and what a count of zero means |
| `Entities`, `Engine`, `PolicyPack`, `EntityReads` | uids and the entity slice, evaluation with its fail-closed conversion, the shipped policies, and what any policy reads from the slice |
| `ContentDigest`, `Sorting`, `Loader` | the bytes fed to the digest, and the load of a directory |
| `ReloadMachine`, `PolicyWatcher` | request handlers beside the hot reload, and the watcher thread with its debounce |

Code that works step by step in Rust is a method or a class here (`RunPercentDecode`, `CheckAmbiguity`,
`ControlEscape`, `RunAbsolutize`, `RunWalk`, the two check loops, `LogFile` and `AuditLog`, `Digest`,
`LoadEntries`, `PolicyEngine`, `Provenance` and `Thread`), proved equal to a specification function; the
properties are lemmas about those functions.

## Where the code and its promise part

Each of these is stated as a lemma with the input or the run, next to the exact condition.

- **The rollback forgets a broken line** (`src/audit.rs:560-564`). When a record is begun while the log
  ends mid-line, fails, and is rolled back, the log is back at a length at which it still ends mid-line,
  but the flag that says so is cleared. The next record joins the broken line.
  `AuditTrail.RollbackForgetsTheBrokenLine` is the run; `AuditTrail.RepairedRecordsStayWhole` shows that
  keeping the flag (`unterminated || !rolled_back`) closes it.
- **A log that cannot be read is taken for finished** (`src/audit.rs:212-222`). An append that reopens a
  write-only file that ends mid-line starts out with the flag clear. `AuditTrail.BlindReopeningFuses` shows
  the record joining the broken line, and `AuditTrail.BlindReopeningLosesTheFlag` is an input;
  `AuditTrail.FlagAfterReattach` says that a reopening loses the flag exactly then. Keeping the flag across
  rollbacks does not help here. From a sound flag, `AuditTrail.FlagStaysSoundExactly` says that an append
  ends with an unsound one exactly when it is rolled back in one of these two situations.
- **The lint does not descend below a pinned access** (`src/cedar/engine.rs:236-255`). A `like` or `==`
  whose operand is *any* access called `argv_tail` counts as pinned, and what that access is applied to is
  not walked. A record literal with such a field hides anything: `LintSoundness.AnyTestCanHide` shows that
  every test whatever has an equivalent form in which the walk counts nothing. `Lint.Walk` takes a flag
  `deep`; without it, it is the walk of the source, and with it, it goes on below each read. When the deep
  walk counts nothing, the lint's promise holds (`LintSoundness.NonInterference`).
- **The trust check does not judge the way to a link's target** (`src/isolation.rs:386-403`). The file a
  policy link leads to is judged; the directories and links on the way are not, and a link that leads
  nowhere is skipped. `LinkedPolicies.LinkedPolicyExactly`: behind a passed check, what a policy is read as
  is out of other users' reach if and only if its resolution is settled, which is a condition on each entry
  it looks up. `LinkedPolicies.NothingOrAnyText` covers dangling links too: where the condition fails, every
  text is within their reach. `LinkedPolicies.SharedTargetTakesAnyText` is the input, with a file at the end
  of the link and without one.
- **`absolutize` is idempotent only within the link budget** (`src/isolation.rs:373-376` relies on it).
  A resolution that runs out of links leaves a rest that a second pass, starting from a link-free prefix,
  can resolve. `PathResolution.AbsolutizeTwice` is the exact condition,
  `PathResolution.NotIdempotentBeyondTheBudget` a path for every positive limit.
- **An id does not always name its file** (`src/cedar/engine.rs:353-354`, `431-435`). Ids are joined with a
  colon that a file name or an `@id` may hold itself. `Loader.IdNamesItsStem`: the stem is what stands in
  front of the first colon if and only if it has none; `Loader.IdsCollide` gives two files with one id.
- **The decode bound is not out of reach** (`src/endpoint_path.rs:16-20`). The comment says that a fixed
  point is always reached long before the bound. A dot written as `%`, eight or more copies of `25`, and
  `2e` meets the bound (`EndpointPath.NestedDotIsTooDeep`), and the arm that stops at a fixed point is
  never taken (`EndpointPath.DecodeMakesProgress`).
- **The last `loaded` line is not always the set that decided** (`README.md:212-213` of the repository).
  `ReloadMachine.TrailNamesTheDecider` says exactly when it is; `TrailCanLag` and `TrailCanOvertake` are
  the two ways it is not.

## Model

| member | source | states |
|---|---|---|
| `EndpointPath.RunPercentDecode` | src/endpoint_path.rs:141-170 | the index loop computes the triplet-by-triplet unescaping, with both errors: a `%` without two hex digits, and bytes that are not UTF-8 |
| `EndpointPath.WrittenDecodes` | src/endpoint_path.rs:141-170 | over literal digit tables: every way of writing a text, any bytes as triplets with each digit in either case and every `%` among them, decodes to that text, and to `NonUtf8` when the text is no string |
| `EndpointPath.WrittenDotsAreFound` | src/endpoint_path.rs:97-101 | every spelling of `.` or `..` that has a triplet in it is found at pass 1 in every clean frame, and the plain one at pass 0 |
| `EndpointPath.UnescapeShrinks` | src/endpoint_path.rs:151-168 | decoding never lengthens, shortens strictly when a `%` is present, and is the identity otherwise |
| `EndpointPath.DecodeMakesProgress` | src/endpoint_path.rs:105-107 | a successful decode of text with a `%` is strictly shorter, so the arm for an unchanged text is dead |
| `EndpointPath.CheckAmbiguity` | src/endpoint_path.rs:76-120 | the bounded loop answers what the recursive search over the decodes answers |
| `EndpointPath.ExactMeaning` | src/endpoint_path.rs:76-120 | for every path and every answer: the check gives that answer if and only if the decodes are in the situation the answer stands for; five situations, among them `NestedTooDeep` iff decodes 0 to 8 all hold a `%` and no dot segment and the ninth succeeds |
| `EndpointPath.JustifiedOnce` | src/endpoint_path.rs:97-119 | the five situations exclude each other |
| `EndpointPath.RoutingPartIsUtf8` | src/endpoint_path.rs:95 | what stands before the first `?` of a string is itself a string |
| `EndpointPath.QueryIsIgnored` | src/endpoint_path.rs:78-95 | what follows the first `?` does not matter |
| `EndpointPath.UndefinedStaysUndefined` | src/endpoint_path.rs:108-116 | once a decode fails, no deeper one is defined, so ending the search loses nothing |
| `EndpointPath.PlainStaysPlain` | src/endpoint_path.rs:102-104 | once no `%` is left, all deeper decodes are the same text |
| `EndpointPath.DecodedIsUtf8` | src/endpoint_path.rs:169 | every decode of a string is a string |
| `EndpointPath.DotSegmentMeans` | src/endpoint_path.rs:122-136 | a segment is found if and only if somewhere `.` or `..` stands behind the start, `/` or a backslash and in front of the end, `/`, a backslash or `;`; said byte by byte |
| `EndpointPath.DotSegmentOfJoin` | src/endpoint_path.rs:131-136 | the segment search splits at either slash: the first dotted segment of the left part, else of the right part |
| `EndpointPath.FramedSegment` | src/endpoint_path.rs:131-136 | a segment of its own in an otherwise clean path is reported exactly when it is `.` or `..` |
| `EndpointPath.NestedDotIsFound` | src/endpoint_path.rs:97-101 | a dot nested `m` deep in any clean frame is reported at pass `m + 1`, for every `m` up to 7 |
| `EndpointPath.NestedDotIsTooDeep` | src/endpoint_path.rs:16-20 | and refused as nested too deep for every `m` from 8 on |
| `UriPath.RemoveDotSegmentsIsIdentity` | src/endpoint_path.rs:80-84 | the algorithm of section 5.2.4 of RFC 3986 changes a path if and only if some segment is `.` or `..` |
| `UriPath.UpTakesASegment` | src/endpoint_path.rs:80-84 | dot removal takes `/segment/..` out wherever it comes to it, whatever else is in the buffers |
| `UriPath.RemoveExample` | src/endpoint_path.rs:80-84 | the example of section 5.2.4 of RFC 3986 |
| `UriPath.CheckSeesBothQuirks` | src/endpoint_path.rs:122-136 | the check's segment search is the view that folds backslashes and strips parameters |
| `UriPath.QuirksOnlyAdd` | src/endpoint_path.rs:122-130 | a dot segment seen without either quirk is also seen with both |
| `UriPath.SilentMeansStable` | src/endpoint_path.rs:122-136 | the search finds nothing if and only if dot removal is the identity on all four views: backslashes folded or not, parameters stripped or not |
| `UriPath.CleanAtEveryDepth` | src/endpoint_path.rs:76-120 | a path let through shows no dot segment at any decode depth at which the decode is defined, beyond the bound included |
| `UriPath.LetThroughMeansUnambiguous` | src/endpoint_path.rs:68-136 | and at each depth dot removal leaves each of its views alone |
| `UriPath.RefusedForDotsMeansAmbiguous` | src/endpoint_path.rs:98-101 | a path refused for a dot segment is one that some such origin does resolve elsewhere |
| `Utf8.EncodeDecodes` | src/endpoint_path.rs:169 | encoded text is well formed and decodes to itself |
| `Utf8.DecodeEncodes` | src/endpoint_path.rs:169 | the grammar accepts nothing that is not the encoding of a text |
| `Utf8.Utf8CutAtAscii` | src/endpoint_path.rs:95 | cutting a string at an ASCII byte leaves strings |
| `Sanitize.ControlEscape` | src/sanitize.rs:15-28 | fast path and loop both give the character-by-character escaping; every character of it is in U+0020 to U+007E or from U+00A0 on; and it changes nothing if and only if every character of the input is |
| `Sanitize.WhatIsSpelled` | src/sanitize.rs:19-26 | exactly U+0000 to U+001F and U+007F to U+009F are spelled out, with their number in four hexadecimal digits |
| `Sanitize.EscapeAppend` | src/sanitize.rs:20-26 | escaping distributes over concatenation |
| `Sanitize.CleanIsUntouched` | src/sanitize.rs:16-18 | the fast path agrees with the loop |
| `Sanitize.EscapeIsIdempotent` | src/sanitize.rs:15-28 | escaping twice is escaping once |
| `Sanitize.WhatCanBeRecovered` | src/sanitize.rs:3-5 | reading spellings back restores the raw text if and only if the raw text spells no control character itself |
| `Sanitize.WithoutBraceIsRecovered` | src/sanitize.rs:3-5 | in particular every text without a literal `\u{` |
| `Sanitize.EscapeUndoesUnescape` | src/sanitize.rs:3-5 | reading a clean line back and escaping it again restores the line |
| `Sanitize.UnescapedSpellsNothing` | src/sanitize.rs:3-5 | nothing read back spells a control character |
| `Sanitize.WhoIsConfused` | src/sanitize.rs:3-5 | two texts recorded alike: one of them spells a control character; and every text that does has such a double |
| `AuditLog.LogFile.CheckAttached` | src/audit.rs:254-298 | keeps the handle on an unclear stat or a failed reopening, and otherwise holds the file the path names, created when missing |
| `AuditLog.AuditLog.Append` | src/audit.rs:506-568 | the new file system, handle, flag and size are those of `Appended`, and it warns exactly when `Warns` says |
| `AuditLog.AuditLog.WriteRecord` | src/audit.rs:530-567 | the part behind the reattachment: buffer, shrink warning, write, flag, size |
| `AuditLog.AuditLog.WriteOrRollBack` | src/audit.rs:552-566 | either the buffer is in the file or the file is as long as it was, or it says that neither is so |
| `AuditLog.Open` | src/audit.rs:194-232 | a log attached to its path; its flag is sound if and only if the file could be read or does not end mid-line |
| `AuditTrail.FlagAfterReattach` | src/audit.rs:212-224 | a clear flag means an empty file or one that ends with a newline; a reattachment keeps this if and only if it does not reopen an unreadable file that ends mid-line |
| `AuditTrail.FlagAfterAppend` | src/audit.rs:552-566 | whatever came before, after an append the flag is sound if and only if the append is not a rollback in a file that ends mid-line |
| `AuditTrail.FlagStaysSoundExactly` | src/audit.rs:506-568 | from a sound flag: an append keeps it sound if and only if it is neither a rollback of a record begun on a broken line nor one behind such a reopening |
| `AuditTrail.RepairedFlagStaysSound` | src/audit.rs:556-564 | with the flag kept across rollbacks, only the rollback behind such a reopening is left |
| `AuditTrail.NewRecordIsWhole` | src/audit.rs:530-553 | a written record is at the end of the held file, and is one whole line if and only if the flag was sound after the reattachment |
| `AuditTrail.RecordsStayWhole` | src/audit.rs:506-568 | over every run of appends with short writes, failed size calls and truncates and reopenings, beside renames, unlinks, replacements and cuts, in which no rollback clears the flag wrongly, no broken line is reopened unread, and the held file is cut at a line end while its flag is clear: every record written and not cut off is one whole line, and records of one file are in call order |
| `AuditTrail.RecordIsWholeExactly` | src/audit.rs:506-568 | without any of those premises: whatever run follows a record that was written, as long as nothing outside cuts into it, it is one whole line at its end if and only if the flag was sound when it was written |
| `AuditTrail.RepairedRecordsStayWhole` | src/audit.rs:506-568 | the same for the repaired flag, without the first premise |
| `AuditTrail.WholeLineIsALine` | src/audit.rs:530-537 | such a record is exactly one element of the file split at newlines |
| `AuditTrail.RecordsNeverShareALine` | src/audit.rs:556-559 | two records of one file are on different lines |
| `AuditTrail.RollbackForgetsTheBrokenLine` | src/audit.rs:560-564 | from every attached log with a clear flag, a run of three appends that keeps every premise but the first, after which the third record shares a line with a stray byte of the first |
| `AuditTrail.UnsoundFlagFuses` | src/audit.rs:533-535 | wherever the flag is clear on a broken line, the next record written joins that line |
| `AuditTrail.BlindReopeningFuses` | src/audit.rs:212-224 | a record written behind the reopening of an unreadable broken line joins it, with the repaired flag too |
| `AuditTrail.BlindReopeningLosesTheFlag` | src/audit.rs:212-224 | an input: a sound flag, nothing cleared wrongly, and an unsound flag afterwards |
| `AuditTrail.AppendOnlyAdds` | src/audit.rs:552-566 | whatever an append answers, no byte that was in any file changes, and only the held file grows |
| `AuditTrail.AppendedBytes` | src/audit.rs:530-567 | what an append to the held file makes of it byte for byte, of the flag and of the size remembered, in every case of writing and rolling back |
| `AuditTrail.ReopenedHandle` | src/audit.rs:272-282 | a reopening holds the file the path names, empty when there was none, with the flag by its last byte and no size remembered |
| `AuditTrail.KeptHandle` | src/audit.rs:261-270 | without a reopening nothing changes, but for the empty file a failing open may leave |
| `AuditTrail.WhenToReopen` | src/audit.rs:235-270 | it reopens exactly when the stat works and finds another file at the path, or none |
| `AuditTrail.LandsAtTheConfiguredPath` | src/audit.rs:254-297 | a record written lands in one file only, the one the configured path names, unless the stat or the reopening failed at that append |
| `AuditTrail.LandsInTheHeldFile` | src/audit.rs:261-270 | otherwise in the file held before |
| `AuditTrail.NoFalseAlarm` | src/audit.rs:539-551 | in a run in which nothing outside cut a file the shrink warning never fires, rollbacks and reopenings of any kind included; new files having new inode numbers is the only premise |
| `AuditTrail.LossIsReported` | src/audit.rs:539-567 | from every valid state, after an append that could tell the size behind it and any run of renames, replacements and further such appends: a cut of the held file makes the next append that can tell the size and does not reopen warn, if and only if it took something away |
| `AuditTrail.AppendRemembers` | src/audit.rs:567 | such an append remembers the size of the held file |
| `PathResolution.RunAbsolutize` | src/isolation.rs:744-763 | the loop over prefix and rest computes `Absolutize` |
| `PathResolution.AbsolutizeMeaning` | src/isolation.rs:725-764 | the resolution of the longest resolvable prefix followed by the untouched rest, or the path itself when the rest holds a `..` |
| `PathResolution.LongestExists` | src/isolation.rs:746-753 | every absolute path has a longest resolvable prefix |
| `PathResolution.AbsolutizeTwice` | src/isolation.rs:373-376 | a second pass changes nothing if and only if the first unresolved component does not resolve with the whole link budget |
| `PathResolution.IdempotentWithinTheBudget` | src/isolation.rs:373-376 | so it is idempotent on every path none of whose prefixes runs out of links |
| `PathResolution.NotIdempotentBeyondTheBudget` | src/isolation.rs:373-376 | and not in general: a path for every positive link limit |
| `PathResolution.WalkEndsPlain` | src/isolation.rs:747-748 | whatever resolves, resolves to a link-free path |
| `PathResolution.PlainResolvesToItself` | src/isolation.rs:374 | a link-free path is its own resolution, whatever the budget |
| `FileTree.WalkOn` | src/isolation.rs:747 | resolving a longer path is resolving on from where the shorter one led, with what is left of the link budget |
| `TrustCheck.LooseWritersExact` | src/isolation.rs:638-645 | a writer is named exactly when a group or world write bit is set |
| `TrustCheck.RefuseOnUntrustedAncestors` | src/isolation.rs:540-572 | the loop gives the first refusal from the parent up to the root; missing ancestors are skipped, unreadable ones refused |
| `TrustCheck.RefuseUntrustedPolicyDir` | src/isolation.rs:372-410 | the first refusal of the directory, its loadable files in listing order, its ancestors |
| `TrustCheck.EntriesExact` | src/isolation.rs:386-403 | no entry is refused if and only if every file that is read as a policy, links followed, is owned by the daemon or root and writable by nobody else |
| `TrustCheck.AncestorsExact` | src/isolation.rs:540-633 | no ancestor is refused if and only if each is owned by the daemon or root, and sticky or not loosely writable |
| `TrustCheck.CanonicalIsAbsolute` | src/isolation.rs:373-376 | a canonical path is left as it is |
| `TrustCheck.ResolvedIsAbsolute` | src/isolation.rs:373-376 | a path that resolves, through whatever links, is made the canonical path it resolves to |
| `TrustCheck.CheckExactly` | src/isolation.rs:372-410 | for every path that resolves and every listing: the check passes if and only if the path leads to a directory, every entry could be read, and the directory, the files its policies lead to and the ancestors of the place it really is at are trusted |
| `TrustCheck.OtherThanDirectoryIsRefused` | src/isolation.rs:377-385 | a path that leads to something else is refused, as unreadable when that is trusted |
| `TrustCheck.UnresolvedIsRefused` | src/isolation.rs:443-450 | a path that does not resolve is refused as unreadable, when no part of it runs out of links |
| `TrustCheck.RefusalsInOrder` | src/isolation.rs:377-409 | the directory is judged first, then its entries, then its ancestors |
| `TrustCheck.FirstEntryIsFirst` | src/isolation.rs:386-403 | the first entry that is refused or could not be read is the answer |
| `TrustCheck.AncestorMeans` | src/isolation.rs:551-568 | of any path: a missing ancestor and one that is no directory are passed over, one that cannot be inspected is refused, and a directory is refused for its owner or its bits |
| `TrustCheck.FirstAncestorIsFirst` | src/isolation.rs:546-571 | the nearest ancestor that is refused is the answer |
| `TrustCheck.NoAncestorRefused` | src/isolation.rs:546-571 | the walk is silent if and only if no ancestor up to the root is refused |
| `TrustCheck.RefusalIsSo` | src/isolation.rs:452-479 | of whatever path, a refusal names something that is as it says: the owner, the bits and who they let in, the missing sticky bit |
| `TrustCheck.CheckIsSilentThrough` | src/isolation.rs:372-410 | the check passes if and only if the directory, the files its policies lead to and its ancestors are all trusted, in any listing order |
| `TrustCheck.CheckIsSilentExactly` | src/isolation.rs:372-410 | without links: if and only if directory, policy files and ancestors are |
| `OtherUsers.StepLeavesOthersNodes` | src/isolation.rs:481-489 | a step of another user changes no owner, mode or kind of what that user does not own, nor contents closed to it |
| `OtherUsers.StepLeavesStickyEntry` | src/isolation.rs:618-633 | in a sticky directory a user owning neither directory nor entry cannot move the entry |
| `TrustAdequacy.PathStays` | src/isolation.rs:540-616 | no step of another user moves a component of a trusted path |
| `TrustAdequacy.TrustSurvivesAStep` | src/isolation.rs:372-410 | one step leaves what is loaded and the verdict as they were |
| `TrustAdequacy.TrustSurvivesEveryRun` | src/isolation.rs:372-410 | and so does every finite sequence of steps of any number of other users |
| `TrustAdequacy.LayingThePath` | src/isolation.rs:635-637 | who may write where a path breaks off can lay the rest of it, down to a file with any text |
| `TrustAdequacy.SubstitutingTheTree` | src/isolation.rs:618-628 | who may take a component of a path out of its directory can put another tree in its place, down to a file with any text |
| `TrustAdequacy.StickyNeedsTheOwnerRule` | src/isolation.rs:574-633 | in a loosely writable ancestor, sticky or not, a foreign owner of the next component can make any text a policy |
| `TrustAdequacy.RefusalIsNeeded` | src/isolation.rs:452-489 | whenever directory, files or ancestors are not trusted: for every text, some steps of other users after which the path leads to a directory that holds that text under a loadable policy name |
| `TrustAdequacy.CheckIsAdequate` | src/isolation.rs:364-410 | the check passes if and only if no sequence of steps of other users changes which directory, entries and policy contents are loaded; and it refuses if and only if every text can be made a policy by such a sequence |
| `TrustAdequacy.CheckStaysSilent` | src/isolation.rs:364-410 | and after every such sequence it passes again |
| `LinkedPolicies.LookupStays` | src/isolation.rs:400-402 | no step of another user changes a lookup of a trusted entry, or of a missing one where they cannot add |
| `LinkedPolicies.ResolutionStays` | src/isolation.rs:400-402 | a resolution all of whose lookups are so, through links and `..`, ends as it did, at the same node, after any steps of other users |
| `LinkedPolicies.UnsettledBreaks` | src/isolation.rs:400-402 | a resolution that leads somewhere and is not settled can be cut off by another user |
| `LinkedPolicies.UnsettledTakesAnyText` | src/isolation.rs:400-402 | and where the way behind the first open lookup only goes down, a file with any text can be put at its end |
| `LinkedPolicies.LinkedPolicyExactly` | src/isolation.rs:386-403 | behind a passed check, a policy read through any links is read as the same text after all steps of other users if and only if its resolution is settled |
| `LinkedPolicies.NothingOrAnyText` | src/isolation.rs:386-403 | a policy name behind a passed check, read or dangling, whose way only goes down behind its first open lookup: settled if and only if nothing about it changes, and not settled if and only if it can be made to read as any text |
| `LinkedPolicies.DescendsToOpen` | src/isolation.rs:400-402 | which covers every path when no link says `..` |
| `LinkedPolicies.OneLinkExactly` | src/isolation.rs:400-402 | for one link to a canonical path the condition is that the ancestors of the file pass the test put to those of the directory |
| `LinkedPolicies.DanglingLinkExactly` | src/isolation.rs:397-399 | for one link to a path that breaks off, that its ancestors are trusted and others cannot add where it breaks off |
| `LinkedPolicies.SharedTargetTakesAnyText` | src/isolation.rs:386-403 | an input for both failing sides: the check passes, and every text can become the policy |
| `TrustedLoad.TrustedLoadIsStable` | src/watcher.rs:212-241 | behind a passed check, a load now and a load after any steps of other users give the same policies, ids, files and digest, or the same failure |
| `Patterns.MatchesPrefix` | src/cedar/engine.rs:206-213 | a match starts with the text before the first wildcard, and the rest matches the rest |
| `Patterns.ExactPin` | src/cedar/engine.rs:219-221 | a pattern without a wildcard matches exactly one tail |
| `Patterns.WholeTokensFirst` | src/cedar/engine.rs:191-194 | a pinning pattern with a wildcard matches only tails that start with the same complete tokens |
| `Patterns.UnpinnedTokenVaries` | src/cedar/engine.rs:211-213 | every pattern that is rejected matches two tails that differ in the token its leading text breaks off in |
| `Patterns.PinsExactly` | src/cedar/engine.rs:214-231 | a pattern is accepted if and only if all tails it matches agree on that token |
| `Patterns.TokensFuse` | src/cedar/engine.rs:124-135 | two texts joined without a space have their tokens at the seam fused into one |
| `Patterns.TailSpelledOut` | src/cedar/entities.rs:49-70 | the joined tail: empty of fewer than two arguments, and from the second on each behind one space |
| `Patterns.TailTokens` | src/cedar/entities.rs:49-70 | arguments without spaces are the tokens of their tail |
| `Lint.RunWalk` | src/cedar/engine.rs:233-272 | the walk adds to the count it is handed exactly the reads that pin nothing |
| `Lint.PatternForm` | src/cedar/engine.rs:206-231 | the test on the JSON pattern is the test on the pattern |
| `Lint.TailReadForm` | src/cedar/engine.rs:199-204 | the JSON test for the attribute holds exactly of accesses of that name |
| `Lint.EntriesAreNoOperator` | src/cedar/engine.rs:235-260 | a record literal is never mistaken for an operator, whatever its field names |
| `Lint.WalkCountsUnpinned` | src/cedar/engine.rs:198-277 | over the JSON form of any expression the walk counts the expression's unpinned reads, no more and no less; the same for the walk that goes on below a read |
| `LintSoundness.NonInterference` | src/cedar/engine.rs:187-197 | an expression in which the deep walk counts nothing evaluates to the same value or the same error for any two tails that answer its pinning tests alike |
| `LintSoundness.AnyTestCanHide` | src/cedar/engine.rs:236-255 | every test has an equivalent form in which the walk of the source counts nothing, the deep walk counts the same, and the pinning tests are the same |
| `LintSoundness.HiddenReadsInterfere` | src/cedar/engine.rs:236-255 | in particular one that tells apart two tails its pinning tests do not |
| `LintSoundness.FlaggedExactly` | src/cedar/engine.rs:147-171 | a policy, whatever its annotations and the scopes in its head, is flagged if and only if it is a permit one of whose conditions has an unpinned read |
| `LintSoundness.AnnotationsHoldNoReads` | src/cedar/engine.rs:233-272 | annotations never count, even when one is named like an operator |
| `LintSoundness.DeepFlagsMore` | src/cedar/engine.rs:160 | what the lint flags, the lint with the deep walk flags too |
| `LintSoundness.UnflaggedPermitIsPinned` | src/cedar/engine.rs:124-135 | a permit that the deep lint leaves alone cannot tell apart two tails that answer its pinning tests alike |
| `Entities.ChainedIsOnePass` | src/cedar/entities.rs:41-43 | the two chained replacements are one single-pass escaping |
| `Entities.LiteralRoundTrip` | src/cedar/entities.rs:39-43 | a literal reader consumes the quoted text up to its closing quote and returns the raw id, whatever follows, exactly for the ids a literal can hold |
| `Entities.UidRoundTrip` | src/cedar/entities.rs:32-43 | a uid is made exactly for those ids, and carries the raw id |
| `Entities.DistinctIdsGiveDistinctUids` | src/cedar/entities.rs:39-43 | distinct ids give distinct uids |
| `Entities.BuildExactly` | src/cedar/entities.rs:78-183 | the slice exists exactly when all four ids can be written, and it is the slice over the raw ids |
| `EntityReads.VariablesRead` | src/cedar/entities.rs:79-97 | principal, action and resource of both targets, and that the principal has no attributes |
| `EntityReads.CommandReads` | src/cedar/entities.rs:98-109 | what every attribute of a command evaluates to, and that there are no others |
| `EntityReads.EndpointReads` | src/cedar/entities.rs:148-153 | what every attribute of an endpoint evaluates to, and that there are no others |
| `EntityReads.CommandContextReads` | src/cedar/entities.rs:113-125 | what every context value of a command evaluates to |
| `EntityReads.EndpointContextReads` | src/cedar/entities.rs:157-163 | what every context value of an endpoint evaluates to |
| `EntityReads.ReasonReads` | src/cedar/entities.rs:123-125 | the reason is there exactly when the query has one |
| `EntityReads.PermitPathAllows` | src/cedar/engine.rs:578-632 | one permit on method and path allows an endpoint query if and only if the method is that one, the path matches and is unambiguous, and the ids can be written |
| `EntityReads.ForbidReasonDenies` | src/cedar/entities.rs:161-163 | a forbid on the reason beside it takes away exactly the queries with that reason |
| `Entities.PrincipalIsIn` | src/cedar/entities.rs:79-88 | the principal is in its caller, its session and its agent and in nothing else |
| `Entities.ResourceIsIn` | src/cedar/entities.rs:97-110 | the resource is in nothing but itself |
| `Engine.AllowMeans` | src/cedar/engine.rs:578-632 | an allow, for every set of policies: no ambiguity, writable ids, a satisfied permit, no satisfied forbid, and not one policy in error |
| `Engine.RecordedMeans` | src/decision.rs:37-88 | what every answer records: the ambiguity; that no request could be built; the errors; the ids of the satisfied forbids, or of the satisfied permits when there is none |
| `Engine.NoneErrs` | src/decision.rs:45-62 | the errors that fail an answer closed are there exactly when some policy cannot be evaluated |
| `Engine.AllowedPathIsUnambiguous` | src/cedar/engine.rs:583-618 | whatever the policies, an allowed endpoint path is one dot removal leaves alone at every decode depth and in every view |
| `PolicyPack.FirstTokenIs` | policies/10-git.cedar:25-27 | equal to the word or starting with the word and a space is the same as having it as first token |
| `PolicyPack.ArgumentInTail` | policies/10-git.cedar:76-80 | what occurs in one argument after the first occurs in the joined tail |
| `PolicyPack.SessionPolicy` | policies/00-baseline.cedar:6-13 | satisfied exactly for launches whose caller is not `session` |
| `PolicyPack.UnknownPolicy` | policies/00-baseline.cedar:17-21 | satisfied exactly for the agent `unknown` |
| `PolicyPack.ReadOnlyPolicy` | policies/10-git.cedar:28-39 | satisfied exactly for git by `claude-code` with a read-only first token |
| `PolicyPack.RewritesPolicy` | policies/10-git.cedar:50-59 | satisfied exactly when one of the three flags is an argument |
| `PolicyPack.ExecutionsPolicy` | policies/10-git.cedar:113-125 | satisfied exactly for git with `-c` among the arguments or one of the four texts in the tail |
| `PolicyPack.PackAllowsExactly` | policies/10-git.cedar:28-125 | for every command line, caller, session and agent: the pack allows if and only if the ids can be written and it is read-only git launched directly by `claude-code` without any of the flags |
| `PolicyPack.NoFlagInAnyArgument` | policies/10-git.cedar:76-80 | no forbidden text is in any single argument of an approved command line |
| `PolicyPack.ConfigInjectionIsDeniedTwice` | policies/10-git.cedar:15-17 | with `-c` as second entry the permit is not satisfied, and for git the forbid is |
| `PolicyPack.PackDeniesEndpoints` | policies/10-git.cedar:29-33 | the pack allows no endpoint request |
| `PolicyPack.StartsPin` | policies/10-git.cedar:25-27 | a text followed by a wildcard pins a token exactly when the text ends with a space |
| `PolicyPack.ShippedPermitIsPinned` | policies/10-git.cedar:28-39 | the lint leaves the shipped permit alone, with the deep walk too, and two tails that answer its tests alike are alike to it |
| `ContentDigest.Digest.AddFile` | src/cedar/engine.rs:93-100 | the stream grows by the two length-prefixed strings |
| `ContentDigest.FrameLayout` | src/cedar/engine.rs:93-100 | the layout of a frame, byte for byte, for short names and contents |
| `ContentDigest.LittleEndianRoundTrip` | src/cedar/engine.rs:96-98 | a length is read back from its little-endian word |
| `ContentDigest.ReadFilesBack` | src/cedar/engine.rs:77-83 | the list of names and contents is read back from the stream, for lengths below 2^64 |
| `ContentDigest.FramingIsInjective` | src/cedar/engine.rs:77-83 | two lists feed the same bytes if and only if they are the same list |
| `PolicyFiles.CedarName` | src/cedar/engine.rs:420-424 | a policy's file name is its stem and `.cedar` |
| `PolicyFiles.CedarEnding` | src/cedar/engine.rs:395 | exactly the names that end in `.cedar` behind at least one byte are policy files' |
| `PolicyFiles.SkippedByName` | src/cedar/engine.rs:44-53 | of the names that are text, exactly those that start with `.` or `#` are skipped |
| `PolicyFiles.SkippedAsNoText` | src/cedar/engine.rs:45-47 | and every name that is no text |
| `Loader.IdNamesItsStem` | src/cedar/engine.rs:353-354 | the stem is the text in front of an id's first colon if and only if it holds no colon |
| `Loader.IdsCollide` | src/cedar/engine.rs:431-435 | two files whose policies get the same id |
| `Loader.OrdinalsDoNotCollide` | src/cedar/engine.rs:434 | unannotated policies of one file never get the same id |
| `Sorting.SortSorts` | src/cedar/engine.rs:409 | sorting gives the same names in order |
| `Sorting.SortedOnce` | src/cedar/engine.rs:409 | there is one sorted order of given names |
| `Sorting.LeqMeans` | src/cedar/engine.rs:409 | the order: a beginning before what it begins, otherwise by the first byte that differs |
| `Loader.CollectEntries` | src/cedar/engine.rs:389-408 | the loop keeps the loadable names and stops at the first enumeration error |
| `Loader.AddParsed` | src/cedar/engine.rs:431-441 | the loop adds one policy per ordinal under its provenance id, or reports the first id that is taken |
| `Loader.LoadEntries` | src/cedar/engine.rs:377-445 | the load as it runs computes `Load` |
| `Loader.LoadIsOrderFree` | src/cedar/engine.rs:377-445 | two orders of one listing give the same files, ids, policies and digest, or the same failure up to which enumeration error is carried |
| `Loader.AddPoliciesExactly` | src/cedar/engine.rs:431-441 | a file is added if and only if its ids are distinct and new; then each of its policies stands under its own id, what was there stays, and nothing else is added |
| `Loader.AddFilesExactly` | src/cedar/engine.rs:413-442 | the files are added if and only if all are sound and all ids distinct; then every policy of every file stands under its own id, and the digest was fed exactly their frames |
| `Loader.LoadSucceedsExactly` | src/cedar/engine.rs:377-492 | a load succeeds if and only if the listing has no error, every loaded file reads and parses, all ids are distinct, there is a policy and the set validates |
| `Loader.LoadFailsBecause` | src/cedar/engine.rs:377-492 | which error a load gives: that of the listing, that of the files, no policies, or not valid |
| `Loader.EnumerationFailsAt` | src/cedar/engine.rs:389-394 | the error of the listing is its first one |
| `Loader.FileFailsAt` | src/cedar/engine.rs:413-441 | the error of the files is about the first that cannot be added: unreadable, no text, not parsed, or with an id that is taken |
| `Loader.LoadedSetIsWhole` | src/cedar/engine.rs:377-492 | what it then holds: every policy of every loaded file under its own id, and as many policies as the files hold together, at least one, validated |
| `Loader.FilesAreRead` | src/cedar/engine.rs:411-421 | what the digest is fed is each loaded name, in order, with the bytes of its file |
| `Loader.SameDigestSameFiles` | src/cedar/engine.rs:69-84 | two loads fed the digest the same bytes if and only if they loaded the same names with the same contents |
| `ReloadMachine.EveryRunKeeps` | src/watcher.rs:104-149 | over every interleaving of requests and reloads: `loaded` lines carry 1, 2, 3, ..., every other reload line carries the latest `loaded` line's generation, and the health cell shows the last reload line's outcome but for the moment between the two writes |
| `ReloadMachine.GenerationNamesTheSet` | src/cedar/engine.rs:634-647 | generation `n` is the `n`-th set adopted, and the last one adopted is deciding |
| `ReloadMachine.GuardedSetDecides` | src/cedar/engine.rs:447-492 | when only sets that pass the guards are stored, one that passes them is always deciding |
| `ReloadMachine.DecidedWithin` | src/server.rs:289-290 | the generation that decided is at least the last `loaded` line at the snapshot and at most one above the last at the record |
| `ReloadMachine.TrailNamesTheDecider` | README.md:212-213 | it is the last `loaded` line's at the record if and only if exactly as many sets were stored in between as still wait for their line, which is none or one |
| `ReloadMachine.TrailNamesTheDeciderWhenCalm` | README.md:212-213 | in particular when the windows of request and reload do not overlap |
| `ReloadMachine.TrailCanLag` | src/watcher.rs:241-248 | a request decided between a store and its line is one ahead of the trail |
| `ReloadMachine.TrailCanOvertake` | src/server.rs:289-290 | a request recorded behind a whole reload is one behind the trail |
| `PolicyWatcher.Drain` | src/watcher.rs:185-198 | for every arrival sequence: it ends within 2000 ms, and 150 ms after a lone event; it reports a cut exactly when no full quiet period ends by the ceiling, and otherwise ends with the first such period |
| `PolicyWatcher.PolicyEngine.Reload` | src/cedar/engine.rs:636-647 | a load of the directory that fails changes nothing; one that succeeds is swapped in under the next generation |
| `ReloadMachine.OneAttempt` | src/watcher.rs:221-262 | what refusing, failing and adopting each make of a machine at rest |
| `PolicyWatcher.Thread.Adopt` | src/watcher.rs:241-262 | the reload behind a passed check: both surfaces and the deciding set, for a load that succeeds and one that fails |
| `PolicyWatcher.Thread.Wake` | src/watcher.rs:173-262 | one turn of the thread: drain, the trust check on the tree it meets, the load of the directory, the record |
| `PolicyWatcher.AttemptIsAnswer` | src/watcher.rs:173-262 | in terms of the check and the load alone: a watch error changes nothing; a burst adds one line, `refused` or `failed` under the generation still deciding or `loaded` under the next one, with the health cell, the set and the generation to match |
| `PolicyWatcher.WatchedReports` | src/watcher.rs:173-263 | over any sequence of wakeups the trail grows by exactly one such line for each burst, in order |
| `PolicyWatcher.Thread.Watch` | src/watcher.rs:173-263 | the thread goes through any number of turns one after the other, and the trail grows by the reports on them |
| `ReloadMachine.ThroughIsRun` | src/watcher.rs:173-263 | which is a run of the machine |
| `PolicyWatcher.Start` | src/main.rs:172-224 | the daemon starts exactly when the check passes and the load succeeds, with generation 1, one `loaded` line and an empty health cell |
| `PolicyWatcher.EveryWatchKeeps` | src/watcher.rs:173-263 | after any wakeups the thread is at rest with trail, health cell, generation and deciding set in step |
| `PolicyWatcher.DecidingSetWasChecked` | src/watcher.rs:212-248 | the set that decides is always what a load gave behind a check that passed at the start or on that very wakeup; it holds a policy and validates |
| `PolicyWatcher.AdoptsWhatWasChecked` | src/watcher.rs:212-241 | steps of other users between a check that passed and the load behind it make no difference to what is adopted |

## Left out

- LintSoundness.NonInterference: stated for two requests that differ in the tail only, and for a count of
  zero by the deep walk. For a count of zero by the walk of the source it is false, as
  `LintSoundness.AnyTestCanHide` shows. A count above zero does not always mean that the expression tells
  tails apart (an unpinned read can be without effect), which cannot be told from the syntax.
- LintSoundness.UnflaggedPermitIsPinned: the same premise, for the same reason.
- LintSoundness.FlaggedExactly: policies are static; templates have slots in their heads and hold no reads
  there either.
- TrustAdequacy.CheckIsAdequate: premises are a canonical path and a directory without symbolic-link
  entries; `LinkedPolicies` treats links. Group and world write bits both count as open to every other
  user, an owner counts as able to write, search permission is not asked for, and a directory may be
  replaced or moved below itself, so other users are given more than the kernel gives them;
  access-control lists and inode reuse are not modelled. What other users make a policy would still have
  to be loaded: a later check refuses again.
- LinkedPolicies.NothingOrAnyText: a name that is not read and whose way goes up behind its first open
  lookup is left out; whether it can come to be read then depends on the link budget as well.
- AuditTrail.RecordsStayWhole: outside writers that append to or rewrite the log in place are not
  modelled, nor changes between the system calls of one append. Its premises are per event; what
  happens to a record without them is said by `AuditTrail.RecordIsWholeExactly`.
- PolicyWatcher.Drain: timers are ideal, the channel stays open, and an event at the very end of a wait
  counts as received. What arrives after the drain is the next wakeup's burst.
- Descriptors opened for writing before an owner or a mode changed: a step asks for the bits of the moment.
- Loader.LoadIsOrderFree: the order in which the parser hands out a file's policies is part of what the
  parser returns, and a directory does not change during one load.
- Entities.BuildExactly: refusals of the Cedar library other than of a uid (schema checks on entities,
  context and request) are not modelled, nor is the 64-bit width of `arg_count`.
- Cedar's parser, validator and full evaluator: library code. The expression type has no arithmetic, tags,
  `is` or extension functions; parsing and validation are parameters of `Loader.Load`.
- Cedar's string literals beyond `\\`, `\"` and a predicate for rejected characters.
- The lint on `args` membership against values with a slash (`src/cedar/engine.rs:279-331`): a second walk of
  the same kind, advisory only.
- JSON encoding of records: that an encoded record holds no newline is a premise, and the branch for a
  record that cannot be encoded is left out.
- SHA-256 and the hexadecimal digest: the bytes fed to the hash are modelled.
- Text of reasons, warnings and log events, and the sorting of matched ids inside a reason; ids are sets.
- Creating the log's parent directory and tightening its permissions (`src/audit.rs:195-209`), and reading
  metadata while opening: an opening succeeds readable, succeeds unreadable or fails.
- The daemon's other start-up checks (the audit log and its ancestors, the private key) come before the
  load in `src/main.rs` and can only keep it from starting.
- The file systems of the audit log and of the trust check are two models: the first has a flat name space
  of files, the second directories, owners and modes.
- Relative paths: `absolutize` is modelled from the point where the path is absolute.
- The checks on the audit log's own ancestors and on the private key, and the working-directory warnings
  (`src/isolation.rs`): the same walk, or prose.
- HTTP routing, TLS, configuration, wire formats and the webhook adapter: plumbing. `src/server.rs` only
  gives the order of evaluating and recording.
- The sort of the standard library is modelled by insertion sort, which has the same result because the
  sorted order is unique (`Sorting.SortedOnce`).
