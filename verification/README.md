# Verified models of a self-hosted RustDesk server

The repository wraps a RustDesk server: a Go API that builds custom clients through GitHub Actions, a Rust relay, and
an admin UI.  This project models the parts whose correctness is a matter of reasoning rather than of plumbing, and
proves what they promise for every input, every run and every interleaving.  `dafny verify dfyconfig.toml` checks
all of it.

Code that changes state step by step is modelled as classes and loops proved against functions or relations; the
main theorems are about those.  Protocols with crashes or concurrent calls are state machines in which every access
to a database, a shared map or a disk is one atomic step.

| File | What it models |
|---|---|
| `TagGlob.dfy`, `TagGlobMatcher.dfy` | tag patterns: parser, grammar, memoised matcher, ruleset conditions |
| `BuildLifecycle.dfy`, `BuildService.dfy` | the build row under concurrent service calls; the service methods |
| `OutputDeletion.dfy` | deletion markers, crashes and the sweeper |
| `PublicationDigest.dfy` | the bytes under the publication digest |
| `ProducerOutput.dfy` | exact validation of a producer's output directory or tree; submodule lists |
| `SetPersistence.dfy` | concurrent updates of the relay's address lists and their files |
| `CommandReplay.dfy` | stored admin commands replayed against the relay's interpreter |
| `RelayPairing.dfy`, `RelayUsage.dfy` | rendezvous with timers; the relay loop's accounting |
| `Payload.dfy` | the encrypted payload envelope |
| `BoundedCopy.dfy` | the bounded copy of a download |
| `Semver.dfy`, `SemverCompare.dfy` | precedence of versions; the comparison and when it is precedence |
| `BuildSpecJson.dfy` | the typed build spec and its canonical JSON |
| `LooseIPv4.dfy` | inet_aton spellings and the public-address verdict |
| `LoginLimiter.dfy` | the sliding-window login limiter |
| `Csv.dfy` | the CSV printer and parser of the admin UI |
| `Text.dfy`, `Octets.dfy`, `Wrappers.dfy` | splitting, joining, trimming and ordering text; base-256 numbers; options |

## What the proofs showed about the code

Each of these comes with the exact condition under which the code does what it is for.

- An edit of a draft build that was created without a release identity can read the row before dispatch and write
  after it; it then overwrites the dispatched version (`BuildService.DraftEditOverwritesDispatch`).  A dispatched
  identity can be lost exactly when such an edit is under way at the dispatch
  (`BuildLifecycle.DispatchLastsExactly`).
- A replace command whose value the relay rejects is stored all the same, and forgets the value in force when the
  commands are replayed (`CommandReplay.RejectedValueForgets`); short list names forget all but the last address
  (`CommandReplay.ShortNameForgets`).  `CommandReplay.AnyCommandStaysExact` says exactly when replay stays right.
- A parked connection can lose its place early: the timer of a connection that is already paired still removes
  whatever is parked under its uuid, and two requesters that both find nobody park one over the other and never meet
  (`RelayPairing.EarlyEviction`, `RelayPairing.MissedEachOther`; exactly when: `RelayPairing.LosesPlaceExactly`).
- Loading an address file that ends in a newline adds the empty string to the set
  (`SetPersistence.ReloadAddsTheEmptyString`; exactly when a reload changes nothing: `SetPersistence.ReloadIsExact`).
- Version comparison is no order on all accepted versions: it has cycles with core numbers beyond the int range
  (`SemverCompare.OversizedPartsCycle`) and, because the subtraction wraps around, with numbers that fit
  (`SemverCompare.WrappedDifferenceCycle`).  `SemverCompare.ComparesExactly` says exactly when two versions are
  compared by precedence.  An identifier has a different one that ties with it exactly when it is zero or a hyphen
  followed by digits within the int range (`SemverCompare.TiesExactly`).

## Model

| member | source | states |
|---|---|---|
| TagGlob.ParseClass | api/service/workflow_mapping.go:866-907 | finds a character class at the bracket exactly when the class grammar has one there, with its ranges and its end; otherwise no token starts there |
| TagGlob.SpellsUnique | api/service/workflow_mapping.go:909-953 | the pattern grammar is unambiguous: a pattern has at most one reading as a token list |
| TagGlob.BackslashUnreadable | api/service/workflow_mapping.go:909-953 | a pattern with a backslash has no reading, which justifies the early rejection |
| TagGlob.Parse | api/service/workflow_mapping.go:909-953 | succeeds exactly on the patterns that have a reading, and returns it |
| TagGlobMatcher.ParsedIsGuarded | api/service/workflow_mapping.go:909-950 | on every reading, a directory-matching `**` is directly followed by a literal slash, so the matcher's guard after `**/` never fails |
| TagGlobMatcher.StepStar | api/service/workflow_mapping.go:1000-1010 | a word is in the language of `*` or `**` and a rest exactly when the rest takes it all, or the star may take one more rune (no slash for `*`) and the same holds of the remainder |
| TagGlobMatcher.StepDirectories | api/service/workflow_mapping.go:986-999 | a word is in the language of `**/` and a rest exactly when the rest takes it all, or takes what follows some slash |
| TagGlobMatcher.StepRune | api/service/workflow_mapping.go:1011-1018 | one-rune tokens consume exactly one rune of their language |
| TagGlobMatcher.ClassMatches | api/service/workflow_mapping.go:955-965 | a class takes a rune exactly when it is no slash and lies in some range |
| TagGlobMatcher.Matcher.Match | api/service/workflow_mapping.go:967-1022 | the memoised matcher terminates for every key, answers language membership of the rest of the value in the rest of the tokens, and keeps every finished memo entry right; no key that is still being computed is ever looked up |
| TagGlobMatcher.Matcher.MatchDirectories | api/service/workflow_mapping.go:986-999 | the loop over slashes decides the `**/` case and keeps the memo right |
| TagGlobMatcher.GlobMatches | api/service/workflow_mapping.go:967-1022 | the matcher answers true exactly when the pattern has a reading and the value is in the concatenation of its token languages |
| TagGlobMatcher.NoGlobstarKeepsSlashes | api/service/workflow_mapping.go:909-1022 | without `**`, every matched value has exactly the slashes that the pattern spells out, so `*`, `?` and classes never cross a path component |
| TagGlobMatcher.PatternMatches | api/service/workflow_mapping.go:812-827 | what a ruleset pattern selects: nothing for the empty pattern and the default-branch keyword, all for the all keyword, otherwise its language over bare or qualified tag names |
| TagGlobMatcher.RefNameMatches | api/service/workflow_mapping.go:1097-1112 | a tag is selected exactly when some include selects it and no exclude does |
| TagGlobMatcher.LiteralPrefix | api/service/workflow_mapping.go:967-1022 | a prefix of ordinary runes on pattern and value never changes the verdict |
| TagGlobMatcher.QualifiedSelectsTheSame | api/service/workflow_mapping.go:812-827 | spelling a pattern as a qualified tag reference selects the same tags |
| BuildLifecycle.StepKeeps | api/service/custom_build.go:181-948 | every single database access of every method keeps the row and call invariants and loses nothing write-once |
| BuildLifecycle.RunKeeps | api/service/custom_build.go:181-948 | the same for every run, whatever the interleaving of calls |
| BuildLifecycle.DispatchKeeps | api/service/custom_build.go:599-656 | a dispatch turns an undispatched row into an active one without changing a release identity fixed at creation |
| BuildLifecycle.EditKeeps | api/service/custom_build.go:215-268 | the late write of an edit never changes the release identity of a row created with one |
| BuildLifecycle.RecordKeeps | api/service/custom_build.go:705-811 | the conditional write of the marker and digest keeps the invariants whatever happened since the read |
| BuildLifecycle.CompleteKeeps | api/service/custom_build.go:817-868 | completion happens only on a row that has a run, an artifact, a marker and a digest at the time of the write |
| BuildLifecycle.WriteOnce | api/service/custom_build.go:556-948 | between any two moments of any run: run id, artifact id, source SHA, marker, digest and stored manifest are set at most once and never change; done and failed are absorbing; pending is never re-entered; the release identity of a row created with one stays fixed (SHAs up to letter case) |
| BuildLifecycle.DoneIsPublished | api/service/custom_build.go:817-913 | every done row has positive run id, artifact id and marker and a well-formed digest; a source SHA agrees with the workflow SHA; no active row is without a run id, so the no-run failure update never applies |
| BuildLifecycle.TrackedRecordIsValid | api/service/custom_build.go:498-527 | a row created with an identity stays readable as valid provenance from its dispatch on, done rows included |
| BuildLifecycle.DispatchLastsExactly | api/service/custom_build.go:215-271 | after a dispatch, some continuation changes the dispatched identity if and only if, at the dispatch, an edit that read the row before holds another version |
| BuildLifecycle.RecordedDigestIsComputed | api/service/custom_build.go:705-811 | however a recording call succeeds, at its read, at its write or at its re-read, the stored digest equals the one that call computed |
| BuildLifecycle.CompletedDigestWasObserved | api/service/custom_build.go:345-371 | a build becomes done only if the digest the completing call saw on disk is the recorded one, up to letter case |
| BuildService.CustomBuildService.SetProvenance | api/service/custom_build.go:599-656 | a dispatch succeeds exactly for valid provenance on a pending, never dispatched row that has no release identity or the same one (SHAs up to letter case); it sets exactly the dispatch columns and the log, and is the dispatch step of the run theorems |
| BuildService.CustomBuildService.SetArtifactID | api/service/custom_build.go:556-583 | succeeds exactly on a row in progress under the run, with no artifact yet, and sets that column alone; it is the artifact step |
| BuildService.CustomBuildService.SetSourceSha | api/service/custom_build.go:661-688 | succeeds exactly for a SHA on a row in progress under the run, with none recorded and the same workflow SHA up to letter case, and sets that column alone; it is the source-SHA step |
| BuildService.CustomBuildService.UpdateNoRunFailure | api/service/custom_build.go:873-910 | succeeds exactly for a failure report on a row in progress without a run, and sets status, bounded log and size; it is the no-run failure step |
| BuildService.CustomBuildService.UpdatePendingFailure | api/service/custom_build.go:915-948 | succeeds exactly for a failure report on a pending row without a run, and sets status, bounded log and size; it is the pending failure step |
| BuildService.CustomBuildService.RecordPublishedOutput | api/service/custom_build.go:705-811 | with any other calls running between its accesses: a call that may not record changes nothing; on a published row it succeeds exactly when the stored digest is the computed one; otherwise it succeeds and the row gains exactly marker, digest and manifest if its write finds the row unpublished, and else succeeds exactly when the re-read finds the computed digest stored. A row left alone by the others is always recorded |
| BuildService.CustomBuildService.UpdateProgress | api/service/custom_build.go:817-868 | a plain report succeeds exactly on a row in progress under the run and sets status, log and size; a completion succeeds exactly when the publication is proved on disk and its write finds the row in progress with its artifact, marker and digest |
| BuildService.OthersKeep | api/service/custom_build.go:705-868 | any interleaved work of other calls keeps the invariants and leaves what this call remembers alone |
| BuildService.StoredIsComputed | api/service/published_output.go:206-211 | for stored digests, matching up to letter case is equality with a freshly computed digest |
| BuildService.ValidRecordExactly | api/service/custom_build.go:418-481 | a row reads back as provenance exactly when every identity and dispatch column is there, the SHAs are SHAs and the source SHA, if any, is the workflow SHA up to letter case |
| BuildService.HexTexts | api/service/custom_build.go:483-493 | SHAs are 40 to 64 hexadecimal digits of either case; a computed digest is 64 lower-case ones |
| BuildService.LowerIsCaseOnly | api/service/custom_build.go:418-481 | two strings fold to the same text exactly when they differ at most in the case of letters |
| BuildService.BoundedLog | api/service/custom_build.go:311-322 | the log is the last 4096 characters, or all, of the old log, a line break where both are non-empty, and the message |
| BuildService.DraftEditOverwritesDispatch | api/service/custom_build.go:215-268 | a finding: a run in which an edit of a draft, read before dispatch and written after it, overwrites the dispatched version |
| OutputDeletion.RunValid | api/service/custom_build.go:86-111 | whatever crashes and errors happen between the steps of deletion and sweep, the protocol invariant holds |
| OutputDeletion.DeletedOutputIsRemembered | api/service/build_output_cleanup.go:103-174 | in every reachable state a removed row whose output directory still exists has a well-formed marker |
| OutputDeletion.LiveOutputStays | api/service/build_output_cleanup.go:307-403 | no step of any run removes the output directory of a live row |
| OutputDeletion.SweepFinishesDeletions | api/service/build_output_cleanup.go:307-403 | after a crash anywhere in any run, one error-free sweep past the time limit, with at most 256 markers and no active deleted id, leaves neither directory nor marker for a deleted row and touches nothing of a live one |
| OutputDeletion.SweepIsSteps | api/service/build_output_cleanup.go:307-403 | sweeping one eligible id is the error-free run of the interleavable sweep steps |
| OutputDeletion.SweepExactly | api/service/build_output_cleanup.go:307-403 | the same for the sweep of the run theorems: an active or live id, a fresh marker and a marker with another content keep both marker and directory |
| OutputDeletion.OutputRoot.EnsureTombstone | api/service/build_output_cleanup.go:103-174 | on success the marker is there, an existing one unchanged; no failure removes a marker or leaves a half-written one |
| OutputDeletion.OutputRoot.Delete | api/service/custom_build.go:86-111 | for every combination of failing operations: an error leaves row and output alone; a pending cleanup means the row is gone and its marker is kept; success means row, directory and marker are gone |
| OutputDeletion.OutputRoot.SweepTombstones | api/service/build_output_cleanup.go:307-403 | a directory or marker is gone afterwards exactly if its id is among the first 256 markers listed, inactive, without a row, and its marker holds its id and is at least the time limit old; everything else stays as it was. It reports the limit exactly with more than 256 markers, and otherwise removes exactly the listed half-written markers that are old enough |
| OutputDeletion.OutputRoot.SweepOne | api/service/build_output_cleanup.go:340-403 | one listed marker: it goes exactly when the id is inactive, at least the time limit old, well formed and its row is gone, and its directory only then |
| PublicationDigest.Uint64Injective | api/service/published_output.go:192-196 | eight big-endian bytes determine the number |
| PublicationDigest.Uint64Value | api/service/published_output.go:192-196 | the eight bytes are the number in base 256, most significant first |
| PublicationDigest.StringSplits | api/service/published_output.go:187-190 | a length-prefixed string splits off any byte sequence in one way |
| PublicationDigest.HeaderSplits | api/service/published_output.go:130-154 | the identity part of the preimage splits off in one way and determines the identity |
| PublicationDigest.FilesInjective | api/service/published_output.go:155-184 | the file part determines names and contents although no file count is written |
| PublicationDigest.PreimageInjective | api/service/published_output.go:128-185 | equal preimages come from equal build, run, artifact and release ids, equal identity strings and equal file lists |
| PublicationDigest.SortedUnique | api/service/published_output.go:128-130 | name-sorted lists of the same files are equal |
| PublicationDigest.BeforeExactly | api/service/published_output.go:128-130 | one name is before another exactly when at the first difference it has ended or has the smaller byte |
| PublicationDigest.SortAscends | api/service/published_output.go:128-130 | sorting keeps the files and puts every earlier name before every later one in that order |
| PublicationDigest.ListingOrderIrrelevant | api/service/published_output.go:84-185 | the preimage does not depend on the order in which the directory lists its files |
| PublicationDigest.CheckEntries | api/service/published_output.go:84-127 | the loop accepts exactly the listings within the name, kind and size limits; its running total never wraps |
| PublicationDigest.PublishedOutputManifest | api/service/published_output.go:55-185 | succeeds exactly on a publishable directory with a valid application name, and then the hash is fed the preimage of the build and of a permutation of its files that ascends by the bytes of their names; the size answered is that of the last listed executable, or 0 |
| PublicationDigest.WriteManifest | api/service/published_output.go:128-185 | the sequence of writes into the hasher is the preimage |
| PublicationDigest.SamePreimageSameOutput | api/service/published_output.go:55-185 | two published directories with the same bytes under the hash belong to the same build and hold the same files |
| SetPersistence.StepValid | server/src/relay_server.rs:51-107 | every atomic step of a concurrent update keeps the invariant, and neither file nor set goes back |
| SetPersistence.NeverOlder | server/src/relay_server.rs:51-107 | over any run the file only moves forward through the values the set has had |
| SetPersistence.FileIsAWholeValue | server/src/relay_server.rs:51-107 | with any number of concurrent updates and no I/O error, a written file is one whole value the set really had, and after at least one update, whenever no call on the list is in progress, it is the current value |
| SetPersistence.UpdateExactly | server/src/relay_server.rs:83-107 | an update appends one value to those the set has had, address by address what was asked, and leaves the other list and all files alone |
| SetPersistence.NeverStuck | server/src/relay_server.rs:51-107 | in every reachable state with a call in progress some call can go on, so the lock is never lost |
| SetPersistence.ReloadAddsTheEmptyString | server/src/relay_server.rs:110-136 | a finding: for entries that are one clean word or empty, reloading a written file gives the set plus the empty string left by the final newline, so the set itself exactly when it holds that already |
| SetPersistence.ReloadIsExact | server/src/relay_server.rs:53-136 | for all sets: a written file reloads to the same set if and only if the set holds the empty string and every entry is free of newlines and its own first word |
| SetPersistence.SplitFileText | server/src/relay_server.rs:53-81 | the lines of a written file are the entries, followed by one empty line |
| SetPersistence.IpList.WriteSetToFile | server/src/relay_server.rs:53-79 | the file becomes a complete listing of the set without repetition |
| SetPersistence.IpList.SetInsert | server/src/relay_server.rs:83-91 | an address is in the set afterwards exactly if it was before or is a field of the argument between bars; the file lists the result |
| SetPersistence.IpList.SetRemove | server/src/relay_server.rs:95-107 | an address is in the set afterwards exactly if the argument is not `all`, it was there before and is no field of the argument; the file lists the result |
| CommandReplay.CommandStore.PersistCmd | api/service/serverCmd.go:52-76 | the table becomes what the store rule says: removals delete the matching add, adds are kept once, anything else replaces by name and moves to the end |
| CommandReplay.PersistMembers | api/service/serverCmd.go:52-76 | which rows the table has afterwards: a removal takes away the add of the same list name, target and option; an add is there; any other command is the one row of its target and name; an empty command or option changes nothing |
| CommandReplay.StoredIsLean | api/service/serverCmd.go:52-76 | after any history no row is a removal, empty or twice there, a target has one row for a name that does not add, and every row was sent |
| CommandReplay.RemovePairsAdd | api/service/serverCmd.go:52-76 | the row deleted for a removal is an add to the same list, for every name with the suffix |
| CommandReplay.WhatIsSent | server/src/relay_server.rs:236-341 | what each long and short command name makes the relay do with a one-word argument |
| CommandReplay.ReplayDescribes | server/src/relay_server.rs:213-341 | replaying stored rows on a fresh server yields the state that the rows describe: the added addresses and, per setting, the last accepted value |
| CommandReplay.PersistDescribes | api/service/serverCmd.go:52-77 | after one more command the rows describe the server exactly when the command keeps the value in force |
| CommandReplay.ReplayStaysExact | api/service/serverCmd.go:52-83 | if replay was exact before a command, it is exact after it if and only if the command sets no field of this server, or its value is accepted, or the value in force comes from another row |
| CommandReplay.ReplayRebuilds | api/service/serverCmd.go:52-83 | after any history of plain commands with accepted values, replaying the stored rows in id order on a fresh server gives the state of the whole history, also when different aliases set the same field |
| CommandReplay.AnyCommandStaysExact | api/service/serverCmd.go:52-83 | for every command, short names, several addresses and `all` included: exact replay stays exact if and only if the rows left by storing it say the same as before about everything it does not concern and, unless it is stored after them, say already what it does |
| CommandReplay.ReplayMeans | server/src/relay_server.rs:213-341 | for any rows, an address is in a list after replay exactly when the last row that concerns it adds it, and a setting has the last value given |
| CommandReplay.ShortNameForgets | api/service/serverCmd.go:52-77 | a finding: under a short list name a second address replaces the first, which replay then loses |
| CommandReplay.RejectedValueForgets | api/service/serverCmd.go:52-77 | a finding: a rejected value under a stored name loses the value in force on replay |
| RelayPairing.RunValid | server/src/relay_server.rs:470-506 | the pairing invariant holds over all interleavings of arriving, parking, waking, closing and time |
| RelayPairing.RelaysAreProper | server/src/relay_server.rs:470-506 | every relay joins two distinct connections that asked for the same uuid; no connection is in two relays, and none is both relayed and parked |
| RelayPairing.TheNextOnePairs | server/src/relay_server.rs:470-506 | in every reachable state a new connection for a uuid takes the one parked under it into a relay; with none there it can park, and the next one takes it |
| RelayPairing.ParkedAtMostThirtySeconds | server/src/relay_server.rs:470-506 | every parked connection has its own sleeping task for that uuid and has been parked for at most 30 seconds |
| RelayPairing.LosesPlaceExactly | server/src/relay_server.rs:470-506 | in every reachable state a parked connection can lose its place before its own 30 seconds, unpaired, if and only if another task for its uuid has found nobody and is about to park, or went to sleep earlier |
| RelayPairing.TimerTakesAway | server/src/relay_server.rs:495-505 | an earlier timer for the uuid fires first, however many other timers fire before it |
| RelayPairing.WakeEvictsBySharedUuid | server/src/relay_server.rs:495-505 | a timer that fires takes a parked connection away before its time if and only if it shares its uuid and went to sleep earlier |
| RelayPairing.MissedEachOther | server/src/relay_server.rs:480-503 | a finding: two requesters of one uuid that both find nobody park one over the other and never meet |
| RelayPairing.EarlyEviction | server/src/relay_server.rs:495-505 | a finding: a run in which a connection is evicted after 20 seconds |
| RelayUsage.RunRelay | server/src/relay_server.rs:508-610 | for every sequence of loop turns: the total is 8 times the bytes received from both sides, and the blacklist limiter is charged 8 times the bytes that came after a lookup that found the address blacklisted or after a downgrade, the own limiter the rest; the loop stops exactly at the turn that ends the connection, and reports exactly after the turns a second or more apart that go on |
| RelayUsage.SlowBitsAreBytes | server/src/relay_server.rs:530-608 | while the loop goes on, the bits charged to the blacklist limiter are 8 times the bytes that came after a lookup that found the address blacklisted or after a downgrade |
| RelayUsage.NextReport | server/src/relay_server.rs:560-608 | an interval ends with its bits over its milliseconds, rounded down, the running maximum, and a downgrade exactly if there was one or, after the start check, the total exceeds threshold times time |
| RelayUsage.TotalsAgree | server/src/relay_server.rs:516-608 | at every report the total is 8 times the bytes received from both sides so far and the sum of all interval totals, and the speed is the rounded one of its interval |
| RelayUsage.AverageBelowHighest | server/src/relay_server.rs:342-364 | the printed average never exceeds the recorded highest interval speed, although every interval speed is rounded down |
| RelayUsage.NothingGoesBack | server/src/relay_server.rs:516-608 | the highest speed never falls, bounds every interval speed so far, and a downgrade lasts |
| RelayUsage.HighestWasReached | server/src/relay_server.rs:560-608 | the highest speed was the speed of some interval |
| RelayUsage.DowngradeWasCaused | server/src/relay_server.rs:560-608 | a report shows a downgrade exactly when some report up to it was over the threshold after the start check |
| Csv.JsonToCsv | admin-ui/src/utils/file.js:36-49 | the text is a header line of keys and one line of quoted cells per object |
| Csv.ParseCsvRows | admin-ui/src/utils/file.js:55-95 | the loop with its five variables computes the row scanner |
| Csv.ScanRow | admin-ui/src/utils/file.js:55-95 | a written row, whichever line break ends it, scans to the values of its fields: trimmed without quotes, and with quotes as they are, commas, quotes and line breaks included |
| Csv.ParseWritten | admin-ui/src/utils/file.js:55-95 | parsing any text of rows with plain, quoted and mixed fields and any of the three line breaks gives the values of the fields, less the rows with nothing but empty ones; section 2 of RFC 4180 |
| Csv.JsTrimExactly | admin-ui/src/utils/file.js:61-65 | trimming cuts white space off both ends and no more |
| Csv.ParsePrint | admin-ui/src/utils/file.js:36-95 | parsing printed text gives the trimmed header keys and exactly the printed rows, less those whose fields are all empty, for arbitrary values and keys without quotes, commas and line breaks |
| Payload.CbcRoundTrip | api/service/github_build_config.go:250-270 | chained decryption undoes chained encryption over any number of blocks; section 6.2 of NIST SP 800-38A |
| Payload.CbcOnto | api/service/github_build_config.go:250-270 | every ciphertext is the encryption of what it decrypts to |
| Payload.CbcChains | api/service/github_build_config.go:185-190 | block by block: each ciphertext block encrypts its plaintext block combined with the ciphertext block before it, the first with the initialization vector |
| Payload.PaddedIff | api/service/github_build_config.go:250-270 | a text is the padding of exactly the text left when its last byte counts that many equal bytes; section 6.3 of RFC 5652 |
| Payload.StripPadding | api/service/github_build_config.go:259-270 | the padding check answers exactly the text whose padding is the input |
| Payload.CryptBlocks | api/service/github_build_config.go:185-190 | the block-by-block loop computes CBC in either direction |
| Payload.EncryptPayload | api/service/github_build_config.go:159-203 | the envelope is magic, salt, ciphertext and tag, with keys from 100000 rounds of derivation; no passphrase, no payload |
| Payload.DecryptCbc | api/service/github_build_config.go:250-270 | answers a text exactly when the ciphertext decrypts to its padding |
| Payload.EnvelopeParts | api/service/github_build_config.go:208-248 | the envelope splits back into salt, ciphertext and tag at the offsets the decrypter uses |
| Payload.SealedOpens | api/service/github_build_config.go:208-248 | a payload with the right layout and tag is emitted for a text exactly when its ciphertext decrypts to the padding of that text |
| Payload.DecryptPayload | api/service/github_build_config.go:208-248 | accepts exactly the envelopes that encryption emits for some salt, and legacy payloads with well-formed padding; nothing with the magic falls back to the legacy path |
| Payload.RoundTrip | api/service/github_build_config.go:159-248 | for every plaintext, non-empty passphrase and salt, the payload opens to the plaintext and to nothing else |
| LoginLimiter.LoginLimiter.constructor | api/utils/login_limiter.go:53-71 | a fresh limiter shows the empty history, with a 5 minute window and a 30 minute ban where the policy leaves them zero |
| LoginLimiter.LoginLimiter.IsBanned | api/utils/login_limiter.go:208-218 | answers the ban record at that time and drops it once expired |
| LoginLimiter.LoginLimiter.PruneAttempts | api/utils/login_limiter.go:229-242 | keeps exactly the attempts after the cutoff, and no empty list |
| LoginLimiter.LoginLimiter.CheckSecurityStatus | api/utils/login_limiter.go:176-192 | in terms of the history of failures and resets alone: both answers are no with captchas and bans off; with bans off a captcha is required exactly if the history holds as many failures in the window since the last reset as the threshold says; otherwise the address is banned exactly if some failure reached the ban threshold in its window and its ban has not passed |
| LoginLimiter.FoldTells | api/utils/login_limiter.go:84-192 | after any history the recorded bans and failures are those that the history says stand: not made under a ban, and with no reset or ban since |
| LoginLimiter.CaptchaOnly | api/utils/login_limiter.go:84-192 | with bans off the standing failures are those since the last reset |
| LoginLimiter.AnswerMeans | api/utils/login_limiter.go:176-192 | both answers, for every policy, in terms of the history alone |
| LoginLimiter.LoginLimiter.CountFailure | api/utils/login_limiter.go:84-109 | what a failure does to the kept state of its address, and nothing to the others: nothing while banned, otherwise pruning, the new attempt, and the ban at the threshold |
| LoginLimiter.LoginLimiter.RecordFailedAttempt | api/utils/login_limiter.go:84-109 | adds one failure to the history that decides every answer; a banned address holds no attempts and kept attempts stay below the ban threshold |
| LoginLimiter.LoginLimiter.RemoveAttempts | api/utils/login_limiter.go:165-173 | adds one reset to the history that the pruned state shows |
| LoginLimiter.LoginLimiter.CleanupExpired | api/utils/login_limiter.go:252-271 | may run at any moment: the history shown, and so every later answer, is unchanged |
| LoginLimiter.FailureShows | api/utils/login_limiter.go:84-109 | for every address, the kept state after a failure shows the full history after it |
| LoginLimiter.StillShows | api/utils/login_limiter.go:229-242 | pruning at any cutoff up to the window and dropping expired bans lose nothing that can still matter |
| Semver.TotalOrder | api/service/github_build_config.go:647-693 | on accepted versions precedence is antisymmetric, transitive, and zero only on equal strings; it is the order of section 11 of Semantic Versioning 2.0.0 |
| Semver.PrecedesExactly | api/service/github_build_config.go:647-693 | one version precedes another exactly when at the first position where they differ it ends or has the earlier identifier: numbers in numeric order, then words in text order, then no prerelease |
| Semver.KeyExactly | api/service/github_build_config.go:647-693 | the positions of a version are its core parts, then its prerelease identifiers, or their absence |
| Semver.KeyInjective | api/utils/tools.go:24-50 | accepted versions with the same precedence key are the same string |
| SemverCompare.CompareSemver | api/service/github_build_config.go:647-693 | for all strings the loop has the sign of the recursive comparison, with 64-bit subtraction |
| SemverCompare.ComparePrerelease | api/service/github_build_config.go:703-732 | the same for prerelease lists |
| SemverCompare.ComparesExactly | api/service/github_build_config.go:647-693 | two accepted versions are compared by precedence if and only if the first core parts that differ agree, or with equal cores their identifier lists agree |
| SemverCompare.CorePartExactly | api/service/github_build_config.go:668-681 | two core parts are ordered as numbers if and only if both fit an int, or they are equally long, or the shorter happens to be first as text |
| SemverCompare.IdentifierExactly | api/service/github_build_config.go:710-728 | two different identifiers are ordered by precedence if and only if a condition on their digits, lengths and leading hyphens holds; it names the wrap-around of the subtraction |
| SemverCompare.ListsExactly | api/service/github_build_config.go:703-732 | the same for identifier lists, with the case of two identifiers that tie |
| SemverCompare.ReadIdentifier | api/service/github_build_config.go:734-739 | Atoi reads exactly the digit strings that fit an int and the hyphen-numbers in range |
| SemverCompare.FittingVersions | api/service/github_build_config.go:647-693 | accepted versions whose numbers fit an int and that have no hyphen-number are compared by precedence |
| SemverCompare.CatalogOrderUnique | api/service/version_catalog.go:600-602 | a catalog of such versions has one order that is sorted by the comparison, whatever the sorting algorithm and initial order |
| SemverCompare.TiesExactly | api/service/github_build_config.go:703-732 | an identifier ties with some different accepted one if and only if it is zero or a hyphen followed by digits within the int range |
| SemverCompare.OversizedPartsCycle | api/service/github_build_config.go:647-693 | a finding: three accepted versions, one with a core part beyond the int range, form a cycle |
| SemverCompare.WrappedDifferenceCycle | api/service/github_build_config.go:703-732 | a finding: three accepted versions with every number in the int range form a cycle, because the subtraction wraps around |
| LooseIPv4.PartIsSpelling | api/service/public_host_policy.go:320-341 | a part is accepted exactly when it is a decimal, octal or hexadecimal spelling of a 64-bit number, which is the result |
| LooseIPv4.EveryFormSpells | api/service/public_host_policy.go:320-341 | every number has a spelling in each form, with either case of the prefix and of hexadecimal digits and any number of leading zeros where the base allows them |
| LooseIPv4.OrIsSum | api/service/public_host_policy.go:276-315 | on disjoint bits a shifted or is a sum |
| LooseIPv4.RawIsAssemble | api/service/public_host_policy.go:276-315 | shift-and-or of parts in range is their base-256 sum, a 32-bit number |
| LooseIPv4.ParseLooseIPv4 | api/service/public_host_policy.go:276-315 | accepts exactly the hosts that spell a 32-bit address, and returns its octets |
| LooseIPv4.DenotesOne | api/service/public_host_policy.go:276-315 | a host spells at most one address |
| LooseIPv4.EverySpellingDenotes | api/service/public_host_policy.go:276-315 | every choice of one to four parts in range and of a form for each part gives a host that spells the assembled address |
| LooseIPv4.EveryShape | api/service/public_host_policy.go:276-315 | every 32-bit address is assembled from one, two, three and four parts |
| LooseIPv4.SpellingsAgree | api/service/public_host_policy.go:214-338 | two spellings of one address are parsed to the same octets |
| LooseIPv4.BlocksAreOctets | api/service/public_host_policy.go:105-120 | the table of refused IPv4 blocks refuses exactly the octet ranges its rows name |
| LooseIPv4.ContainsAnyPrefix | api/service/public_host_policy.go:234-241 | answers true exactly when some prefix contains the address |
| LooseIPv4.IsPublicLiteralIPv4 | api/service/public_host_policy.go:214-231 | the verdict on an IPv4 literal as a condition on its octets |
| ProducerOutput.CheckFile | api/service/producer_manifest.go:427-467 | one entry passes exactly when it is a declared file with the declared size and digest, or the declared private file, and the total stays at most 2^30; the unsigned arithmetic never wraps |
| ProducerOutput.LastDeclarationWins | api/service/producer_manifest.go:414-467 | of several declarations of a name the last one counts |
| ProducerOutput.CountMeansExact | api/service/producer_manifest.go:414-416 | distinct allowed names as many as the declarations are exactly the declared names, and nothing is declared twice |
| ProducerOutput.ValidateProducerManifestOutput | api/service/producer_manifest.go:401-470 | succeeds exactly when the directory holds exactly the declared and private files, each as declared; the total is the exact sum of sizes, at most 2^30 |
| ProducerOutput.ValidateNestedProducerManifestOutput | api/service/producer_manifest.go:472-566 | the same for the tree walker, which counts the names seen at the end |
| ProducerOutput.TreeDelivers | api/service/producer_manifest.go:472-566 | in an accepted tree every declared file is present with the declared size and digest |
| ProducerOutput.Overflows | api/service/producer_manifest.go:440-467 | stopping at an entry is right: either some entry is not allowed or the whole sum exceeds the limit |
| ProducerOutput.ValidateProducerSubmodules | api/service/producer_manifest.go:235-255 | accepts exactly the lists of valid submodules in which of any two paths the earlier one is less at their first difference, so the duplicate test never decides |
| ProducerOutput.SafePathExactly | api/service/producer_manifest.go:239-241 | a safe path is one or more parts between slashes, none empty or a dot name, without backslashes, control characters or white space around it |
| ProducerOutput.SubmodulesCanonical | api/service/producer_manifest.go:235-255 | an accepted list is determined by its submodules |
| BuildSpecJson.StringNamesDiffer | api/service/custom_build_spec.go:147-165 | no two string fields share a JSON name |
| BuildSpecJson.TablesDiffer | api/service/custom_build_spec.go:147-196 | no string field shares a JSON name with a flag |
| BuildSpecJson.ValidateKnownBuildFields | api/service/custom_build_spec.go:742-770 | accepts exactly the forms whose names are all record fields or in the tables, never `custom_txt` |
| BuildSpecJson.ParseBuildSpec | api/service/custom_build_spec.go:650-733 | accepts exactly the known, well-typed and valid forms, and reads every field, its presence and every flag |
| BuildSpecJson.ValidateFields | api/service/custom_build_spec.go:650-733 | the checks in the order of the parser accept exactly the specs that meet every condition on their fields |
| BuildSpecJson.KeyExactly | api/service/custom_build_spec.go:650-733 | a key loses exactly the line breaks at its end |
| BuildSpecJson.PersistedJSON | api/service/custom_build_spec.go:607-632 | writes exactly the valid specs; the object holds the non-empty or authored texts and the flags with a value, and nothing else |
| BuildSpecJson.ValidateBuildSpec | api/service/custom_build_spec.go:1068-1135 | the checks in their order accept exactly the valid specs: platform, app id, scope and fields |
| BuildSpecJson.ReadBack | api/service/custom_build_spec.go:607-733 | reading a persisted object gives back every text (the key without line breaks at its end), the written texts as authored, and every flag including authored false |
| BuildSpecJson.PersistParse | api/service/custom_build_spec.go:607-733 | parsing the persisted form of a valid spec gives the spec back if and only if its non-empty texts are authored, its key has no trailing line break and its app id is valid |
| BuildSpecJson.ParsedIsCanonical | api/service/custom_build_spec.go:650-733 | every parsed spec meets that condition |
| BuildSpecJson.NormalizeCustomBuild | api/service/custom_build_spec.go:512-596 | succeeds exactly when record, form and spec are valid, with the parsed spec and its persisted form |
| BuildSpecJson.NormalizeTwice | api/service/custom_build_spec.go:512-596 | normalizing a persisted form succeeds with the same spec and the same persisted form, and with nothing else |
| BuildSpecJson.NormalizeCustomBuildJSON | api/service/custom_build_spec.go:489-506 | the same on stored text; no text is kept as no text |
| BuildSpecJson.CanonicalizeTwice | api/service/custom_build_spec.go:449-509 | canonical text is a fixed point of canonicalization, for every accepted text |
| BoundedCopy.CopyContextBounded | api/service/github_build_config.go:1418-1459 | ends for every reader and writer, never takes more than one buffer past the limit, and copies a prefix of the source. Success means the source ended or the count exceeds the limit, with no cancelled context, failed or short write or hundred empty reads on the way; failure has one of these causes, a failed read or a negative limit |
| BoundedCopy.WithinLimitIsWhole | api/service/github_build_config.go:1418-1459 | after a successful copy the count is within the limit exactly when the source is, and then the copy is the whole source |

## Assumptions

- Build ids are never reused, outputs are written only for rows that exist, and clocks never go back.
- Timers of the relay fire on time: time does not pass the deadline of a sleeping connection before it wakes.
- A guarded update or read of the database is one atomic step; so is an access to a shared map and a file rename.
- KDF, MAC, block cipher and base64 are functions with the stated output lengths; the cipher is a permutation of
  blocks for every key, and base64 and the JSON of string and boolean members decode what they encode.
- Directory listings name each entry once, and a nil result of RemoveAll means that the directory is gone: the sweeper
  relies on it, `Delete` looks again.

## Left out

- GitHub HTTP requests, retries, pagination and error messages: their results are inputs.
- Database queries, migrations and the list, info and delete services of users, groups, peers and audit logs.
- SHA-256, HMAC, PBKDF2, AES and JSON, URL, IDNA and regular-expression libraries: abstract functions or parameters.
- Real file systems: symbolic links, permissions and fsync appear only as outcomes of a step.
- `copyContextBounded` is modelled for a buffer of 32 KiB with reads and writes as arbitrary inputs; timing is not.
- SweepBuildOutputTemps: its other loops over temporary names, nested directories and protected snapshots; only the
  marker sweep is a protocol.
- Recognising file names by regular expression: listings arrive with their entries already recognised.
- SetPersistence: I/O errors while writing a list file, after which the file keeps an older value.
- CommandReplay: the commands that change no state, and the text the relay answers.
- RelayUsage.RunRelay: the 64-bit width of the counters, and the throttling delays of the limiters.
- RelayPairing: keys, licences and the transport of a relayed pair.
- LoginLimiter: captchas, and the capture of the ban reason; the mutex makes every method one step.
- LooseIPv4.IsPublicLiteralIPv4: the IPv6 tables and zones, and netip's own parser, which runs first.
- BuildSpecJson.NormalizeCustomBuild: native custom_txt encoding and the dispatch parameters are not modelled; the checks
  on single values (URLs, hosts, key material, company name) are arbitrary predicates of the value, so the configured
  public origin is taken not to change between two normalizations.
- BuildSpecJson.NormalizeCustomBuildJSON: custom_txt and the dispatch parameters, as for NormalizeCustomBuild.
- ProducerOutput: the manifest's own shape checks beyond its submodule list, and the expected file names per platform.
- BuildLifecycle: UpdateValidated and the creation methods appear as steps only, with their format checks as inputs.
- Payload: the JSON of the plaintext, and the random source of salts.
- The Vue admin UI apart from its CSV functions, the offline kit, the Windows builder and the CLI setup.
