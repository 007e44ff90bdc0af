# Verified model of the server's stateful core

This project models the parts of the chat server whose correctness rests on ordering, on bookkeeping or on
arithmetic, and proves what they promise. Source code that changes things step by step is a class or a loop here;
each such method is proved equal to a function on values, and the properties are proved of that function for all
inputs and all runs. `dafny verify dfyconfig.toml` checks everything.

**Erasing an account** (`RelationalStore`, `ErasureEffects`, `ErasureRows`, `Erasure`). Tables are sets of rows, every `DELETE` is one
step of a `Session` that keeps the whole history of the database. A statement is *guarded* when the rows that point at
what it deletes were cleared before; a guarded statement leaves no dangling row. Every method keeps the fact that each
step of the history was safe, so a purge can be cut off after any statement. What each purge does is also said
declaratively, in one stroke, and the statement-by-statement methods are proved to end exactly there; and row by row, in
columns of the database before: a row is gone afterwards exactly when it belonged to what was erased. Tables are
numbered in the order in which the source clears them, so clearing a scope is a loop over numbers.

**Installing the web client** (`StringOrder`, `VersionTags`, `Manifest`, `Fetcher`, `InstallLifecycle`, `StaticClient`).
The disk is a map from tags to directories, a marker and a quarantine. Hash, HMAC and key epoch are constructors, so
different inputs give different digests. Everything that can go wrong outside (no release, broken archive, a write
that fails half-way, a move that fails, files changed by others) is part of a `World` that is different at every call.

**Saving artifacts** (`PayloadMerge`, `ArtifactUpdates`). The deep merge of a partial payload, against the merge patch of
section 2 of RFC 7396; and many writers that read, merge and compare-and-set in any interleaving, legacy clients that
name no revision among them.

**Exports** (`TextLayout`, `Paginator`, `SafeUrl`, `Escaping`, `Sanitizer`,
`HtmlReader`). Word wrap and page breaks of the PDF export
under any additive glyph widths; the URL check, the escaping and the allow-list transducer of the HTML export over
parser events, and a reader of the text it writes.

**Ranges and streams** (`ByteRanges`, `Streaming`). Both parsers of the `Range` header on text, against section 2.1 of
RFC 7233, and the loops that send a slice of a body however it is chunked or read.

**Caches** (`OrderedDict`, `ChecksumCache`, `LruCache`). Objects that carry their history of calls; what they hold and
when a hit is guaranteed is proved of every history.

**CI tools** (`Fixpoint`, `Chains`, `AuditNames`, `TrendMerge`). The bounded dataflow passes of the fail-open audit
against derivations and against chains of statements, and the deduplicating, capped merge of the performance history.

## What the proofs say about the code

Where the code and what is written about it differ, the model follows the code.

- Pruning is documented to retain the most recent versions, but sorts tags as strings: build 99 sorts above build 170,
  and minor 9 above minor 10 (`VersionTags.StringOrderWitness`). A tag that sorts lower is the older version exactly
  when the two differ in stage or the first number that differs has no more digits in it
  (`VersionTags.SortedBelowIsOlder`); so pruning keeps the newest exactly when that holds between the installed
  versions on the two sides of the cut (`Fetcher.PruningKeepsTheNewest`).
- Purging a server is documented to remove its threads. A thread has a conversation of its own as container
  (src/core/threads/manager/creation.py:68-74), so a purge removes exactly the threads that hang on a channel's
  conversation; the others stay, and keep their containers from the sweep of orphans
  (`ErasureEffects.ThreadsAfterServers`).
- `ensure_active` checks the directory of the canonical tag. A marker that names the same version in another spelling
  is never checked (`InstallLifecycle.OtherSpellingIsNotChecked`), so a tampered version can stay active under it
  (`InstallLifecycle.OtherSpellingStaysAsItIs`); every version has such a spelling
  (`VersionTags.EveryVersionHasAnotherSpelling`). What a call has to find for the active version to verify afterwards,
  in either spelling, is `Promising` in `InstallLifecycle.EnsuringVerifies`. The manager itself never writes another
  spelling (`InstallLifecycle.RunKeepsSpelling`).
- The manifest records names with slashes for backslashes, but opens what it recorded. An archive member with a
  backslash in its name is accepted and then never verifies (`Manifest.BackslashIsMissing`); the version is
  quarantined and fetched again at every call (`InstallLifecycle.UnkeptNeverSettles`). A fresh manifest verifies exactly
  when every recorded name holds what was recorded for it (`Manifest.FreshVerifies`, `Manifest.KeepsItself`).
- A file injected under a name the manifest vouches for breaks verification; the exact condition is in
  `InstallLifecycle.InstalledVerifies` and `InstallLifecycle.ReissueVerifies`.
- Re-signing is documented to happen only for a proven key migration, so that a tampered version is fetched again and
  never signed. What the repair goes by is authenticated by nothing: it goes through exactly when the epoch marker is
  some other text, the files match the list beside them, there is something to sign and the three writes succeed
  (`Manifest.RepairGoesThrough`). It was a key migration exactly when the seal is an HMAC of that very list
  (`Manifest.RepairOfMigration`). Any files with a list of them and made-up texts for seal and epoch are signed as they
  are, stay live, and verify from then on (`Manifest.ForgeryIsSigned`, `InstallLifecycle.ForgedMigrationGoesLive`). A
  file that is not on the list is seen neither by the check (`Manifest.WriteIntoVerified`) nor by the repair, which
  signs it (`Manifest.UnlistedFileIsSigned`).
- Quarantining is documented never to leave tampered bytes at the live path. A tampered file stays there exactly when
  there is no key, or the version passes the check, or the check raises, or the repair goes through or crashes, or else
  the move fails, the file resists deletion, and no archive arrives or the file is not cleared away for it either
  (`InstallLifecycle.TamperedFileStays`, with `InstallLifecycle.UntrustedMeans` for the first half in terms of the
  files; `InstallLifecycle.TamperedScriptStays`). A seal that is not ASCII makes the check raise, and then nothing is
  quarantined at all (`InstallLifecycle.UnreadableSealStays`).
- The deep merge is that of RFC 7396 exactly when the patch *lands cleanly*: its objects that meet no object in the base
  hold no nulls. The same condition decides whether merging twice is merging once (`PayloadMerge.AgreesWithMergePatch`,
  `PayloadMerge.MergedTwice`, `PayloadMerge.NullSurvives`).
- A commit replaces the very row its patch was merged into exactly when the client named the revision of its snapshot
  and no legacy write came in between (`ArtifactUpdates.CommitIsLossless`). The compare-and-set on the revision column
  is documented to leave no race, but a client that names no revision writes without moving it, and is then overwritten
  by one that read before it and names the revision it read (`ArtifactUpdates.LegacyWriteIsLost`). Updates are lossless
  as long as all clients that send a payload name a revision, and none one that did not exist when its request began
  (`ArtifactUpdates.HonestRunIsSerial`, `ArtifactUpdates.NamingAheadLosesAnUpdate`). Every update sets `updated_at`, so
  an accepted one that names a revision always moves it.
- The URL check refuses bare fragments such as `#top`, since they must then start with an accepted scheme
  (`SafeUrl.RelativeIsAccepted`).
- The media parser says it mirrors the router's, but only the media parser trims. They differ on the same text exactly
  when white space stands alone in it: before the dash of a suffix, after a closing dash, or as the whole text
  (`ByteRanges.ParsersDiffer`, `ByteRanges.TrimmingMatters`). Section 2.1 of RFC 7233 calls a range whose last position is below its first invalid
  and to be ignored; the router answers 416 to it, like to a range that cannot be satisfied.
- The audit makes five passes, as "five hops is past any real derivation". What counts is not hops but how often a
  chain of statements turns back, that is, goes on with a statement that stands no later: a name is found exactly when
  some chain to it turns back fewer than five times, and the five passes find all there is exactly when every name has
  such a chain (`AuditNames.WhatIsFound`). Five hops are safe in any order (`AuditNames.FiveHopsAreFound`), but no fixed
  number of passes is enough for all functions (`AuditNames.LongChainIsMissed`, `AuditNames.LongChainTurnsBack`).
- Merging the same CI snapshot again changes nothing exactly when it brings few enough new runs of each job, counted
  before the merge (`TrendMerge.MergedTwiceByCounting`); a snapshot with one run too many of a job does not settle (`TrendMerge.BurstDoesNotSettle`).

## Model

| member | source | states |
|---|---|---|
| RelationalStore.GuardedKeepsIntact | src/core/erasure.py:73-134 | a statement whose children were cleared before it leaves no dangling row, for every child-to-parent link and any database |
| RelationalStore.StepErases | src/core/erasure.py:153-184 | one more DELETE of a scope is one more table of its declarative effect, as long as the tables its subselect reads are untouched |
| RelationalStore.ErasedTwice | src/core/erasure.py:137-147 | erasing for one set of keys and then another is erasing for both at once |
| ErasureEffects.TurnIsGuarded | src/core/erasure.py:153-184 | when the tables of a scope are cleared in the code's order, each statement comes after those for its children |
| ErasureEffects.OrphansAfterErasing | src/core/erasure.py:266-296 | deleting conversations orphans no other conversation: the orphans left are the earlier ones minus those deleted |
| ErasureEffects.OrphansAfterServers | src/core/erasure.py:73-134 | purging servers orphans no conversation |
| ErasureEffects.ThreadsAfterServers | src/core/erasure.py:73-134 | of the threads of purged servers those with a container of their own stay, and their containers are no orphans; all go exactly when each hangs on a channel's conversation |
| ErasureEffects.OrphansAfterUser | src/core/erasure.py:199-235 | purging a user's conversations orphans none: the orphans left are the earlier ones minus those deleted |
| ErasureEffects.SharedConversationKept | src/core/erasure.py:199-235 | a conversation with somebody else in it, not the container of a thread the user owns, keeps its row, messages, pins and everybody else's seats |
| ErasureEffects.SharedMessageRowsKept | src/core/erasure.py:199-235 | and the receipts and attachments of its messages |
| ErasureEffects.DoomedConversationGone | src/core/erasure.py:199-235 | a conversation the user was alone in, or a container of the user's threads, goes with its messages, seats, pins and threads |
| ErasureEffects.DoomedMessageRowsGone | src/core/erasure.py:153-184 | and with the receipts and attachments of its messages |
| ErasureEffects.UserSeatsGone | src/core/erasure.py:199-235 | no seat of the user is left in any conversation or thread, and no thread of the user |
| ErasureEffects.UserErasedLeavesNoResidue | src/core/erasure.py:370-390 | after the whole erasure no server, seat, thread, upload or attachment of the user is left, although later phases follow earlier ones |
| ErasureEffects.UserErasedAddsNoOrphan | src/core/erasure.py:370-390 | the whole erasure adds no orphaned conversation: those left are exactly the earlier ones it has not erased |
| ErasureEffects.SweptIsClean | src/core/erasure.py:408-441 | one sweep, in the code's order, leaves no orphaned upload, server or conversation |
| ErasureEffects.SweptTwice | src/core/erasure.py:408-441 | a second sweep changes nothing |
| ErasureEffects.ServersPurgedTwice | src/core/erasure.py:137-147 | purging servers one after the other is purging them together |
| ErasureEffects.MediaPurgedTwice | src/core/erasure.py:312-364 | purging the media of users one after the other is purging it together |
| ErasureRows.ConversationRow | src/core/erasure.py:153-184 | deleting conversations takes exactly their rows, messages, seats, pins and threads, the receipts and attachments of those messages and the messages and members of those threads |
| ErasureRows.ServersPurgedRow | src/core/erasure.py:73-134 | purging servers takes exactly what points at them, by the columns of each table, and the conversations their channels point at with all that is theirs |
| ErasureRows.ChannelConversationGone | src/core/erasure.py:108-114 | of a conversation that a channel of the purged server points at no row, message, seat, pin or thread is left, and no receipt or attachment of its messages |
| ErasureRows.OtherConversationStays | src/core/erasure.py:108-114 | a conversation that no such channel points at keeps its row, messages, seats, pins and threads |
| ErasureRows.UserConversationsRow | src/core/erasure.py:199-235 | purging a user's conversations takes exactly the user's seats and threads, and the conversations that the user started a thread in or was alone in |
| ErasureRows.MediaRow | src/core/erasure.py:312-364 | purging the media of users takes exactly their uploads with locks and tombstones, and the attachments of their messages |
| ErasureRows.UserErasedRow | src/core/erasure.py:370-390 | exactly which rows the whole erasure takes, said of the database before its first phase |
| ErasureRows.SweptRow | src/core/erasure.py:408-441 | exactly which rows a sweep takes, said of the database before it |
| ErasureRows.ConversationRowsHaveTheirs | src/core/erasure.py:153-184 | what no dangling row means for the tables of a conversation: each row has its conversation, message or thread |
| ErasureRows.ServerRowsHaveTheirs | src/core/erasure.py:73-134 | and for the tables of a server: each row has its server |
| ErasureRows.HangingRowsHaveTheirs | src/core/erasure.py:73-134 | and for the rows that hang on a member, a channel, a webhook or an upload |
| Erasure.NoDanglingRowEver | src/core/erasure.py:73-134 | in the history of any session that began without a dangling row there is none after any single statement |
| Erasure.Session.Execute | src/core/erasure.py:30-56 | one statement is one step of the history; on a missing optional table it does nothing |
| Erasure.Session.DeleteConversation | src/core/erasure.py:153-184 | the nine statements together take exactly the rows of that conversation, every step safe |
| Erasure.Session.PurgeServerRecursive | src/core/erasure.py:73-134 | the whole cascade takes exactly the rows of that server and of every conversation that one of its channels points at, every step safe |
| Erasure.Session.PurgeOwnedServers | src/core/erasure.py:137-147 | the servers returned are exactly those the user owned, and all are purged |
| Erasure.Session.PurgeUserConversations | src/core/erasure.py:199-235 | the conversations returned are exactly the doomed ones, and the loops that look at a shrinking database take exactly the rows that go with the user, said of the database before |
| Erasure.Session.PurgeOrphanedConversations | src/core/erasure.py:280-296 | returns exactly the orphans, takes exactly the rows of conversations without a seat and without a thread, and leaves no orphan |
| Erasure.Session.PurgeUserMedia | src/core/erasure.py:312-364 | exactly the attachments of the user's messages and the uploads with their locks and tombstones are gone, and the paths returned are exactly theirs |
| Erasure.Session.EraseUserResidue | src/core/erasure.py:370-390 | exactly the rows the three phases take, and what they return, in terms of the database before |
| Erasure.Session.SweepOrphanedServers | src/core/erasure.py:393-405 | returns and purges exactly the servers whose owner does not exist |
| Erasure.Session.SweepOrphans | src/core/erasure.py:408-441 | takes exactly the rows of strays and deserted conversations and ends in a clean database; the lists returned in terms of the database before; three empty lists on a clean one |
| Erasure.PathsMean | src/core/erasure.py:312-364 | the paths returned are those of the uploads of these users that have one |
| VersionTags.ParseOfFormat | src/utils/common_utils/utils/version/core.py:63-121 | a formatted version parses back to itself |
| VersionTags.FormatInjective | src/utils/common_utils/utils/version/core.py:111-121 | different versions have different tags |
| VersionTags.ParseExactly | src/utils/common_utils/utils/version/core.py:63-108 | exactly which texts are versions and which version each of them is: white space around, a stage letter in either case, three numbers, build and major at least 1 |
| VersionTags.CompareIsTotalOrder | src/utils/common_utils/utils/version/core.py:145-173 | the comparison is a total order that is zero on equal versions only |
| VersionTags.TagOrder | src/static_client/fetcher.py:453-454 | string order of any two tags is stage, then digit-by-digit order of the first number that differs |
| VersionTags.SortedBelowIsOlder | src/static_client/fetcher.py:453-454 | of any two tags the one that sorts lower is the older version exactly when they differ in stage or the first number that differs has no more digits in it |
| VersionTags.StringOrderWitness | src/static_client/fetcher.py:453-454 | build 99 sorts above the newer build 170, and minor 9 above minor 10 |
| VersionTags.EveryVersionHasAnotherSpelling | src/utils/common_utils/utils/version/core.py:63-108 | a leading zero gives another tag that parses to the same version and is not the one the manager writes |
| StringOrder.Sort | src/static_client/fetcher.py:404-418 | a loop that sorts a set of names strictly ascending, with exactly its elements |
| Manifest.TamperEvident | src/static_client/manifest.py:125-174 | a directory with a genuine seal verifies exactly when the manifest is the one sealed and every recorded name holds what was recorded for it |
| Manifest.KeepsItself | src/static_client/manifest.py:86-105 | every recorded name holds what was recorded exactly when every name with a backslash has a twin with slashes holding what the last of its twins holds |
| Manifest.TwinsInOrder | src/static_client/manifest.py:94-103 | names recorded alike sort the same as paths and as strings, so the same file is recorded last |
| Manifest.FreshVerifies | src/static_client/manifest.py:86-122 | a fresh manifest verifies under the key that signed it exactly when every recorded name holds what was recorded; always if no name holds a backslash |
| Manifest.BackslashIsMissing | src/static_client/manifest.py:101-162 | a fresh directory with assets\x.js in it verifies as missing |
| Manifest.WriteAfterSigning | src/static_client/manifest.py:36-41 | after a later write a signed directory verifies exactly when every recorded name holds what was recorded, and neither manifest nor seal changed |
| Manifest.WriteIntoVerified | src/static_client/manifest.py:125-174 | the same for text written into any directory that verifies |
| Manifest.RewritesKeepVerifying | src/static_client/manifest.py:36-41 | no number of config.js rewrites changes whether a signed directory verifies |
| Manifest.RepairGoesThrough | src/static_client/manager.py:383-413 | a repair goes through exactly when there is a foreign epoch marker, the list matches the files, there is something to sign and all writes succeed, whoever wrote them; and crashes exactly on an unreadable marker or list |
| Manifest.RepairSigns | src/static_client/manifest.py:207-231 | after it the directory is signed under the new key and verifies exactly when the files keep their recorded names |
| Manifest.RepairOfMigration | src/static_client/manager.py:383-391 | a repair that went through was a proven migration exactly when the seal is an HMAC of the list that is there |
| Manifest.ForgeryIsSigned | src/static_client/manager.py:383-413 | any files with a list of them and made-up seal and epoch are a seal mismatch, no key ever sealed them, and the repair signs them exactly when they are not empty and keep their recorded names |
| Manifest.UnlistedFileIsSigned | src/static_client/manifest.py:177-231 | wherever a repair goes through it goes through with an unlisted file added |
| Manifest.MigrationIsRepaired | src/static_client/manager.py:383-413 | a key change over an untouched install, config.js rewrites included, is a seal mismatch, and is repaired exactly when the install is not empty and keeps its recorded names |
| Manifest.VerifyManifestDetailed | src/static_client/manifest.py:125-174 | the file-by-file check returns the status that the first deviation calls for, or raises on a seal or manifest it cannot read |
| Manifest.VerifyExactly | src/static_client/manifest.py:125-174 | exactly when each of the six answers is given, in terms of the files and of the first entry that deviates |
| Manifest.TamperingIsFound | src/static_client/manifest.py:125-174 | one changed or missing file of a signed directory without backslashes is found as what it is |
| Manifest.GenerateManifest | src/static_client/manifest.py:86-105 | records every file but the excluded ones with its hash, slashes for backslashes, later twins over earlier ones |
| Manifest.MaybeRepairKeyMigration | src/static_client/manager.py:383-413 | the guarded repair step by step, a write that fails half-way included |
| Fetcher.SafeMemberStaysInside | src/static_client/fetcher.py:88-137 | a member that is not refused, absolute paths and drive letters included, lands below the target at its own parts and never leaves it on the way |
| Fetcher.RefusedExactly | src/static_client/fetcher.py:106-113 | exactly which members are refused: absolute on either platform, a drive letter, two dots standing alone between slashes, links |
| Fetcher.SkippedExactly | src/static_client/fetcher.py:104-105 | exactly which entries are skipped: those without a name and directories |
| Fetcher.PartsMean | src/static_client/fetcher.py:109-109 | the parts of a name are what stands between slashes, without dots that stand alone |
| Fetcher.ClashExactly | src/static_client/fetcher.py:121-122 | two members are in each other's way exactly when one is a directory on the path of the other |
| Fetcher.UnpackMeans | src/static_client/fetcher.py:88-137 | extraction succeeds exactly when every name is safe and clear of the others, the bytes fit the budget and the file system holds; then the directory is the archive; either way the bytes written fit the budget |
| Fetcher.UnpackedFits | src/static_client/fetcher.py:88-137 | the directory never holds more than the bytes written, whether or not extraction succeeds |
| Fetcher.SafeExtractZip | src/static_client/fetcher.py:88-137 | the loops do what is modelled, and the bytes counted as they reach the disk fit the budget and bound what the directory holds, even when extraction fails |
| Fetcher.RetainedMeans | src/static_client/fetcher.py:441-472 | pruning keeps every kept version, at most max(max_total, kept) in all and as many as that allows, and drops only names below every retained non-kept one |
| Fetcher.InstalledExactly | src/static_client/fetcher.py:404-418 | the installed versions are exactly the directories whose names are versions, in whatever spelling |
| Fetcher.DroppedAgainstRetained | src/static_client/fetcher.py:441-472 | a dropped version is older than one retained by choice exactly when they differ in stage or the first number that differs has no more digits in it |
| Fetcher.RetainedByRank | src/static_client/fetcher.py:441-472 | of the versions not kept on purpose exactly those with few enough names above them are retained |
| Fetcher.PruningKeepsTheNewest | src/static_client/fetcher.py:441-472 | everything dropped is older than everything retained by choice exactly when any two installed versions between which the cut falls are in order; for canonical tags, by stage or number of digits |
| Fetcher.PruneOldVersions | src/static_client/fetcher.py:441-472 | the loops remove exactly the installed versions that are neither retained nor stuck, and report exactly those |
| InstallLifecycle.MarkerNeverGoesBack | src/static_client/manager.py:248-328 | one call moves a marker that parses only to a version at least as high |
| InstallLifecycle.WhichReleaseIsTaken | src/static_client/manager.py:248-328 | a call takes up the first candidate that is not older than the current version and is the current one or old enough: an unknown release time counts as old enough, and so does any without automatic updates; the current one is kept, another installed |
| InstallLifecycle.BelowMinAgeExactly | src/static_client/manager.py:195-210 | that no release is old enough is answered exactly when every candidate is older than the current version, or younger than the minimal age and not the current one |
| InstallLifecycle.NewestThatIsOldEnough | src/static_client/manager.py:212-223 | with candidates newest first, what is installed is not older than the current version, and every newer release is too young |
| InstallLifecycle.NothingToLookAt | src/static_client/manager.py:225-248 | the answers of a disabled manager, of one that cannot reach the release list and of an empty list |
| InstallLifecycle.InstallLeaves | src/static_client/manager.py:415-492 | what a finished install leaves: file by file the archive with manifest, seal, epoch and injected file; of the other versions those with fewer than four others above them, and whatever is no version or resists |
| InstallLifecycle.KeepingAnswers | src/static_client/manager.py:270-318 | what is answered for the current release, and that a repair signs it and nothing else |
| InstallLifecycle.MarkerNeverGoesBackOverRun | src/static_client/manager.py:248-328 | over any run of calls, rewrites and outside changes the marker, once it parses, never moves lower |
| InstallLifecycle.InstalledVerifies | src/static_client/manager.py:466-492 | a finished install verifies exactly when there was something to sign, manifest and seal were written, and with the injected file every recorded name holds what was recorded |
| InstallLifecycle.EnsuringVerifies | src/static_client/manager.py:212-328 | from any disk, whatever the marker, a call without an error leaves the active version verifying exactly when what it found was promising |
| InstallLifecycle.OrdinaryIsTrustworthy | src/static_client/manager.py:415-492 | an install from an archive without backslashes, not empty, with config.js as the injected file, is trustworthy |
| InstallLifecycle.UnkeptNeverSettles | src/static_client/manager.py:270-328 | a version whose recorded names do not hold what was recorded is untrusted again right after its install |
| InstallLifecycle.EveryQuietCallVerifies | src/static_client/manager.py:212-328 | the same at the end of any run, whatever failed or was tampered with on the way; if the run began with a marker as the manager spells it, exactly when the version looked after verifies |
| InstallLifecycle.RunKeepsSpelling | src/static_client/manager.py:476-476 | no call, rewrite or outside change to the versions makes the manager write a marker in another spelling |
| InstallLifecycle.OtherSpellingIsNotChecked | src/static_client/manager.py:270-328 | for a marker in another spelling a call that installs nothing leaves the active version as it found it |
| InstallLifecycle.OtherSpellingStaysAsItIs | src/static_client/manager.py:270-328 | such a disk for every version: a call without an error after which the active version does not verify |
| InstallLifecycle.InstallingSucceeds | src/static_client/manager.py:415-492 | the exact condition under which an install goes through, the clearing of the old version, the marker and a template that formats included |
| InstallLifecycle.IdleCallSparesOthers | src/static_client/manager.py:212-328 | a call that installs nothing, failed or not, leaves the marker and every version but that of the release it settled on unchanged |
| InstallLifecycle.QuarantineMeans | src/static_client/manager.py:330-381 | quarantining adds one directory under a name not taken, overwrites none, and takes the version off the live path; if the move fails only what resists deletion stays |
| InstallLifecycle.QuarantineName | src/static_client/manager.py:330-381 | the name in quarantine: tag, time and status, and the first number that is free if that is taken; and the note left beside the files |
| InstallLifecycle.UntrustedAfter | src/static_client/manager.py:298-381 | in every case, what is in quarantine and what is under the tag afterwards: what remains of the untrusted bytes, or else only what the archive puts there |
| InstallLifecycle.TamperedFileStays | src/static_client/manager.py:270-381 | the exact condition, in every case, under which a file that the archive does not bring is still live after the check |
| InstallLifecycle.UntrustedMeans | src/static_client/manager.py:270-318 | when a version is left alone: it verifies or the check raises, or there is a seal mismatch and marker, list and files are as a repair wants them or cannot be read |
| InstallLifecycle.ForgedMigrationGoesLive | src/static_client/manager.py:383-413 | a disk for every version: the call signs tampered files and reports that nothing was to be done, and the active version verifies |
| InstallLifecycle.TamperedScriptStays | src/static_client/manager.py:330-381 | a disk and a world in which it is |
| InstallLifecycle.UnreadableSealStays | src/static_client/manifest.py:139-148 | a seal that is not UTF-8 or not ASCII makes the call raise and leaves the disk as it was |
| InstallLifecycle.SameKeyTamperIsQuarantined | src/static_client/manager.py:383-413 | under an unchanged key a version that fails the check is never signed over but quarantined as found |
| InstallLifecycle.EnsuringSettles | src/static_client/manager.py:212-328 | a call without an error, repeated in the same world, changes nothing and says so exactly when the version it looked after verifies in the end |
| InstallLifecycle.ReissueVerifies | src/static_client/manager.py:519-541 | a rewrite keeps any verifying active version verifying exactly when the injected file is neither manifest nor seal and is not listed with other content |
| StaticClient.StaticClientManager.FetchAndInstall | src/static_client/manager.py:415-492 | the method's new state and outcome are the modelled install, a template that does not format (src/static_client/manager.py:87-96) included, with the bookkeeping fields set only on success |
| StaticClient.StaticClientManager.QuarantineUntrustedInstall | src/static_client/manager.py:330-381 | the search for a free name terminates and the new state is the modelled quarantine |
| StaticClient.StaticClientManager.EnsureActive | src/static_client/manager.py:212-328 | the method's new state and outcome are the modelled call, whose choice of release is `InstallLifecycle.WhichReleaseIsTaken` |
| StaticClient.StaticClientManager.ReissueRuntimeConfig | src/static_client/manager.py:519-541 | rewrites the injected file of the active version and nothing else, and raises when the template does not format |
| StaticClient.StaticClientManager.MaybeCheck | src/static_client/manager.py:562-579 | calls through only when the interval has passed, with the check time on record |
| PayloadMerge.DeepMergePayload | src/api/routes/artifacts_helpers.py:148-168 | the in-place loop, in any key order, gives the declarative merge |
| PayloadMerge.AgreesWithMergePatch | src/api/routes/artifacts_helpers.py:148-168 | it is MergePatch of section 2 of RFC 7396 exactly when the patch lands cleanly |
| PayloadMerge.NullSurvives | src/api/routes/artifacts_helpers.py:148-168 | {} merged with {"a":{"b":null}} keeps the null that the RFC strips |
| PayloadMerge.MergedTwice | src/api/routes/artifacts_helpers.py:148-168 | merging twice is merging once exactly when the patch lands cleanly |
| PayloadMerge.MergesCommute | src/api/routes/artifacts_helpers.py:148-168 | two patches without a common leaf path commute exactly when they meet cleanly |
| PayloadMerge.CleanMeetsCleanly | src/api/routes/artifacts_helpers.py:148-168 | patches that both land cleanly do commute |
| ArtifactUpdates.CountedRun | src/core/artifacts/repository.py:186-254 | in any interleaving each commit replaces the row that the commits before it left, and its snapshot is the row that some number of them left |
| ArtifactUpdates.RevisionCounts | src/core/artifacts/repository.py:231-254 | the revision is the start plus the number of commits that named one |
| ArtifactUpdates.OneCommitPerRevision | src/api/routes/artifacts.py:969-1006 | of several writers naming the same revision at most one commits, legacy writers or not |
| ArtifactUpdates.CommitIsLossless | src/api/routes/artifacts.py:876-1006 | nothing came between the snapshot and the write of a commit exactly when it named the revision of its snapshot and no legacy write came in between |
| ArtifactUpdates.CommitAmongNamed | src/api/routes/artifacts.py:969-979 | where no legacy write comes in between, a commit replaces the very row its patch was merged into exactly when the named revision is that of its snapshot |
| ArtifactUpdates.LosslessRunIsSerial | src/api/routes/artifacts.py:876-939 | for any clients, when every commit was lossless the payload is the left fold of the committed patches |
| ArtifactUpdates.HonestRunIsSerial | src/api/routes/artifacts.py:876-1006 | and that is so in any interleaving of honest writers, each commit merging into the payload at commit time |
| ArtifactUpdates.NamingAheadLosesAnUpdate | src/api/routes/artifacts.py:969-1006 | a client that names a revision ahead of its snapshot overwrites another's update |
| ArtifactUpdates.LegacyWriteIsLost | src/api/routes/artifacts.py:1000-1006 | a legacy write between the snapshot and the write of another client is overwritten, though both are told that they succeeded |
| ArtifactUpdates.WriteAnswers | src/api/routes/artifacts.py:969-1006 | in any state a write is answered Updated exactly when it appended its commit or had nothing to set, Conflict exactly when the row has another revision than the one named, NotFound exactly when it is gone; nothing changes otherwise |
| ArtifactUpdates.ToldIsCommitted | src/api/routes/artifacts.py:969-1006 | over any run, a writer that is told of success has its request in the log for good |
| ArtifactUpdates.ArtifactTable.Update | src/core/artifacts/repository.py:231-254 | the compare-and-set: columns and revision move together or not at all; without a revision the columns alone |
| ArtifactUpdates.ArtifactTable.UpdateArtifact | src/api/routes/artifacts.py:869-1016 | of an uninterrupted request exactly when each answer is given, legacy guard and size limit included, and that the row changes only, and how, when the answer is success; it is one read step and one write or reject step of the state machine |
| TextLayout.PdfWrap | src/api/routes/artifacts_export.py:350-375 | the nested loops terminate and produce the recursive definition's lines |
| TextLayout.HardSplit | src/api/routes/artifacts_export.py:367-373 | the nested loops cut an over-long word into the modelled pieces |
| TextLayout.PiecesAreLongest | src/api/routes/artifacts_export.py:367-373 | no piece would fit with one more character of the next |
| TextLayout.EveryLineFits | src/api/routes/artifacts_export.py:350-375 | every line fits the width or is one character at most |
| TextLayout.NoTextIsLost | src/api/routes/artifacts_export.py:350-375 | the lines joined, spaces aside, are the text, spaces and line ends aside |
| TextLayout.ParagraphsApart | src/api/routes/artifacts_export.py:350-375 | paragraphs wrap independently and blank lines survive |
| TextLayout.GreedyIsMinimal | src/api/routes/artifacts_export.py:350-375 | for words that fit, the result breaks at spaces into fitting lines and no such breaking has fewer |
| TextLayout.GreedyStaysAhead | src/api/routes/artifacts_export.py:350-375 | a narrower start never costs lines, and a fresh line costs at most one |
| Paginator.DrawLines | src/api/routes/artifacts_export.py:378-395 | the drawing loop leaves exactly the modelled marks and cursor |
| Paginator.DrawnOnceInOrder | src/api/routes/artifacts_export.py:378-395 | every non-empty line is drawn once, in order, cut to 4096 characters |
| Paginator.ShownExactly | src/api/routes/artifacts_export.py:389-391 | what is drawn of a line is its first 4096 characters, or all of it |
| Paginator.NothingInTheMargins | src/api/routes/artifacts_export.py:378-395 | nothing is drawn in the top or bottom margin |
| Paginator.NoOverlap | src/api/routes/artifacts_export.py:378-395 | marks already drawn and new ones keep at least a line's distance, across page breaks too |
| Paginator.RowByPages | src/api/routes/artifacts_export.py:378-395 | the page and height of any line, from any starting height, by quotient and remainder |
| Paginator.RowsThatFit | src/api/routes/artifacts_export.py:385-394 | from any height the page takes some number of rows |
| Paginator.DrawDocument | src/api/routes/artifacts_export.py:398-427 | the wrapped title and the wrapped text are drawn in order, the title at 15 points from the top and the text at 10 from 6 below it, never overlap and stay inside the margins |
| SafeUrl.AcceptedIsSafe | src/api/routes/artifacts_export.py:97-122 | an accepted URL has no control characters and no dangerous scheme, needs a welcome scheme if it has "://", and is accepted again unchanged |
| SafeUrl.AcceptedExactly | src/api/routes/artifacts_export.py:97-122 | for every value exactly when it is accepted, and as what: without its junk, none of the four schemes in any case, and either one of the three welcome schemes or neither "://" nor a leading # |
| SafeUrl.CleanedCharByChar | src/api/routes/artifacts_export.py:97-102 | the junk taken out is exactly every control character, space and DEL |
| SafeUrl.JunkChangesNothing | src/api/routes/artifacts_export.py:97-122 | control characters hidden anywhere do not change the verdict |
| SafeUrl.RelativeIsAccepted | src/api/routes/artifacts_export.py:106-122 | without "://" exactly the four schemes and bare fragments are refused |
| Escaping.EscapeIsInert | src/api/routes/artifacts_export.py:164-190 | escaped text holds nothing that could open a tag or end an attribute |
| Escaping.UnescapeOfEscape | src/api/routes/artifacts_export.py:164-190 | reading escaped text back gives the text |
| Sanitizer.OutputIsQuietlyWritten | src/api/routes/artifacts_export.py:142-190 | the output is what the events wrote while every recent past had closed as many dropped elements as it opened |
| Sanitizer.DepthIsLargestBalance | src/api/routes/artifacts_export.py:140-182 | the drop depth is the largest balance of any recent past |
| Sanitizer.TextIsQuietData | src/api/routes/artifacts_export.py:184-187 | the text is exactly the data seen at depth 0, in order |
| Sanitizer.OnlyAllowedComesOut | src/api/routes/artifacts_export.py:142-182 | only allowed tags, no event handlers or styles, only accepted URLs |
| Sanitizer.AttributeSurvives | src/api/routes/artifacts_export.py:153-167 | exactly which attributes survive and with what value |
| Sanitizer.SurvivorsExactly | src/api/routes/artifacts_export.py:153-167 | and a tag comes out with those of its attributes that survive |
| Sanitizer.LinkIsKept | src/api/routes/artifacts_export.py:142-171 | where nothing is dropped an allowed tag keeps every href or src whose URL is accepted |
| Sanitizer.RestComesOut | src/api/routes/artifacts_export.py:173-187 | and allowed end tags, save those of void elements, and all text come out |
| Sanitizer.ShiftMeans | src/api/routes/artifacts_export.py:140-182 | exactly the seven elements whose content is dropped move the drop depth, up when opened and down when closed |
| Sanitizer.SanitizingTwice | src/api/routes/artifacts_export.py:142-190 | sanitising the rendered output, read again with neighbouring texts run together and void tags as start and end, changes not a character |
| HtmlReader.OutputReads | src/api/routes/artifacts_export.py:142-190 | the text written reads back, tag by tag, as the pieces written: no data becomes markup and no markup is lost |
| HtmlReader.SanitizingTheText | src/api/routes/artifacts_export.py:193-212 | sanitising the text the sanitiser wrote changes not a character of it, for all events with names as a lexer delivers them |
| Sanitizer.AllowlistHtmlSanitizer.HandleStarttag | src/api/routes/artifacts_export.py:142-171 | the handler keeps output and depth equal to the modelled run |
| Sanitizer.AllowlistHtmlSanitizer.HandleEndtag | src/api/routes/artifacts_export.py:173-182 | the same for end tags |
| Sanitizer.AllowlistHtmlSanitizer.HandleData | src/api/routes/artifacts_export.py:184-187 | the same for text |
| Sanitizer.SanitizeRichHtml | src/api/routes/artifacts_export.py:193-212 | the whole step, escaping everything when the fragment cannot be parsed |
| ByteRanges.MediaTrims | src/api/media_serving.py:26-57 | the media parser is the router's on trimmed text, the full body standing for 416 |
| ByteRanges.ParsersDiffer | src/api/media_serving.py:26-57 | the two parsers differ on the same text exactly when white space stands alone in it, so never on trimmed text |
| ByteRanges.TrimmingMatters | src/static_client/router.py:354-382 | a header on which they differ |
| ByteRanges.PartialIsInside | src/static_client/router.py:354-382 | a partial answer has 0 <= start <= end < size, for any text and size |
| ByteRanges.PartialIsInsideMedia | src/api/media_serving.py:26-57 | the same for the media parser, and only the unit bytes is served |
| ByteRanges.SuffixInParts | src/static_client/router.py:365-374 | every text that begins with a dash, well-formed or not: 416 unless a positive number follows |
| ByteRanges.BoundedInParts | src/static_client/router.py:375-382 | every other text: 416 unless the numbers before and after the first dash can be read, absent ones standing for the ends, and name a position of the body |
| ByteRanges.SeveralRangesAreIgnored | src/static_client/router.py:362-364 | several ranges get the full body from either parser |
| ByteRanges.ReadIntExactly | src/static_client/router.py:367-377 | exactly which texts are read as which integer: white space around, a sign, digits with single underscores between them, at most 4300 |
| ByteRanges.RangeMeansItsPositions | src/static_client/router.py:354-382 | every well-formed range selects exactly the positions section 2.1 of RFC 7233 gives it, and 416 is answered exactly when there are none, save a suffix of an empty body; a number of more than 4300 digits gets 416 |
| ByteRanges.MediaRangeMeansItsPositions | src/api/media_serving.py:26-57 | the same positions from the media parser, the full body when there are none or a number is too long |
| Streaming.IterateChunks | src/api/media_serving.py:474-493 | for every chunking the bytes yielded are the slice, in non-empty parts |
| Streaming.IterateFile | src/api/media_serving.py:456-473 | for every schedule of short reads the bytes yielded are the slice, in parts of at most 65536 |
| Streaming.SliceIs | src/api/media_serving.py:446-495 | the slice is body[skip..skip+limit], cut off at the end of the body |
| Streaming.ServeAttachment | src/api/media_serving.py:395-499 | what is sent is as long as the declared Content-Length and is the range of the header |
| Streaming.ServeGenerator | src/api/media_serving.py:395-401 | a stream without seek never sees the range header and is sent whole, in any chunking |
| Streaming.SendFile | src/static_client/router.py:795-856 | status, length and bytes for every header, If-Range and HEAD |
| Streaming.AskedIsSent | src/api/media_serving.py:395-499 | every position asked for is sent, at its place |
| ChecksumCache.NeverOverfull | src/api/routes/avatars.py:59-143 | after any history the cache holds at most maxsize entries, each key once |
| ChecksumCache.AnswersAreLatest | src/api/routes/avatars.py:80-91 | a read answers only with the value last written and not popped, within its time to live |
| ChecksumCache.HitGuaranteed | src/api/routes/avatars.py:59-143 | with a clock that never goes back, a key used with fewer than maxsize other keys read or written since, and not expired, is always a hit |
| ChecksumCache.BoundedChecksumCache.Get | src/api/routes/avatars.py:80-91 | one more event of the history; the answer is the modelled one or the default |
| ChecksumCache.BoundedChecksumCache.GetItem | src/api/routes/avatars.py:93-101 | raises exactly when the key is not there afterwards |
| ChecksumCache.BoundedChecksumCache.Set | src/api/routes/avatars.py:103-112 | one more write of the history, purge and eviction loops included; when the cache was full nothing expired is left |
| ChecksumCache.BoundedChecksumCache.PurgeExpired | src/api/routes/avatars.py:62-78 | the scan drops exactly the expired entries, then the oldest down to the bound |
| ChecksumCache.BoundedChecksumCache.Contains | src/api/routes/avatars.py:114-126 | answers whether a read would hit, which is whether the key is still there afterwards |
| ChecksumCache.BoundedChecksumCache.Pop | src/api/routes/avatars.py:128-133 | hands out the value held, which is the one last written, or the default |
| ChecksumCache.BoundedChecksumCache.Count | src/api/routes/avatars.py:139-143 | counts exactly the live entries, at most maxsize |
| LruCache.NeverOverfull | src/api/lru_cache.py:15-41 | after any history at most maxsize entries, each key once |
| LruCache.HoldsOnlyWhatWasWritten | src/api/lru_cache.py:15-41 | whatever the cache answers is the value last written and not popped |
| LruCache.HitExactly | src/api/lru_cache.py:15-41 | without pops since its last use a key is there exactly when fewer than maxsize distinct other keys were used since |
| LruCache.HitGuaranteed | src/api/lru_cache.py:15-41 | whatever else is popped, fewer than maxsize other keys read or written since guarantee a hit |
| LruCache.LRUCache.Get | src/api/lru_cache.py:20-25 | answers the value held or the default and is one more event of the history |
| LruCache.LRUCache.Set | src/api/lru_cache.py:27-33 | one more write of the history, eviction included |
| Fixpoint.ShortDerivationsAreFound | ci-tooling/audit_failopen.py:1722-1794 | whatever the statement order, k passes find everything derivable in k hops |
| Fixpoint.PassesGrow | ci-tooling/audit_failopen.py:1722-1794 | the names only grow |
| Fixpoint.EveryNameIsDerived | ci-tooling/audit_failopen.py:1722-1794 | every name found has a derivation |
| Fixpoint.SettledIsLeastFixpoint | ci-tooling/audit_failopen.py:1722-1794 | the result is the least closed set of names exactly when one more pass changes nothing |
| Fixpoint.BreakingEarlyIsExact | ci-tooling/audit_failopen.py:1722-1794 | breaking out early leaves the least fixpoint |
| Fixpoint.OrderDoesNotMatter | ci-tooling/audit_failopen.py:1722-1794 | the same statements in another order, both settled, give the same names |
| Chains.FoundExactly | ci-tooling/audit_failopen.py:1722-1794 | a listing is found in k passes exactly when some chain of statements to it turns back fewer than k times |
| Chains.RowFoundExactly | ci-tooling/audit_failopen.py:1722-1794 | the same for rows |
| Chains.EnoughPasses | ci-tooling/audit_failopen.py:1722-1794 | k passes reach the least fixpoint exactly when every name with a chain has one that turns back fewer than k times |
| Chains.DerivableByChain | ci-tooling/audit_failopen.py:1722-1794 | a name is derivable in so many hops exactly by a chain of at most so many statements |
| AuditNames.BindingIsMonotone | ci-tooling/audit_failopen.py:1739-1790 | the audit's rules are monotone: knowing more listings never loses a name |
| AuditNames.BindingIsAdditive | ci-tooling/audit_failopen.py:1739-1790 | each rule of the audit fires unasked or because of a single name it reads |
| AuditNames.AssignedListings | ci-tooling/audit_failopen.py:1747-1763 | which names an assignment makes listings, by the names of calls: exactly its targets, if the value is fetched, or reads a listing and is a comprehension, a display or a fold |
| AuditNames.AssignedRows | ci-tooling/audit_failopen.py:1764-1774 | which it makes rows: exactly its targets, if the value is an element or the next of what reads a listing |
| AuditNames.AwaitedAlike | ci-tooling/audit_failopen.py:1659-1670 | an awaited value binds what the value binds |
| AuditNames.LoopBinds | ci-tooling/audit_failopen.py:1775-1790 | what a loop over a listing binds: its target is a row, and exactly the names that its body appends to are listings |
| AuditNames.ReadsExactly | ci-tooling/audit_failopen.py:1706-1712 | the names an expression reads are exactly those loaded somewhere inside it |
| AuditNames.WhatIsFound | ci-tooling/audit_failopen.py:1722-1794 | exactly which names the five passes find, and exactly when that is all there is to find, said of the statements |
| AuditNames.FiveHopsAreFound | ci-tooling/audit_failopen.py:1735-1735 | whatever is derivable in five hops is found in any order, and whatever is found is derivable |
| AuditNames.VisitNode | ci-tooling/audit_failopen.py:1736-1790 | the in-place updates at one node, and `changed` exactly when a name was added |
| AuditNames.CollectionAndRowNames | ci-tooling/audit_failopen.py:1722-1794 | with its early break, the loop finds what five passes find |
| AuditNames.LongChainIsMissed | ci-tooling/audit_failopen.py:1735-1735 | for any number of passes a chain one hop longer, written backwards, is missed, though one pass finds it written forwards |
| AuditNames.LongChainTurnsBack | ci-tooling/audit_failopen.py:1735-1735 | its last name has a chain that turns back as often as there are passes and none that does so less, so the passes stop short of the least fixpoint |
| TrendMerge.FreshIsNew | ci-tooling/trend_publish.py:150-160 | what is appended has new keys only, each once |
| TrendMerge.FreshCovers | ci-tooling/trend_publish.py:150-160 | and no key of the snapshot is left out |
| TrendMerge.AppendedExactly | ci-tooling/trend_publish.py:88-99 | a run is appended exactly when none of the history and none before it in the snapshot has the same job and the same id, the pipeline or else the timestamp, said of the fields |
| TrendMerge.RunsOfJob | ci-tooling/trend_publish.py:162-168 | which runs belong to a job, an absent job being "unknown" |
| TrendMerge.JobsAsTheyCame | ci-tooling/trend_publish.py:162-168 | the jobs stand in the order in which they came |
| TrendMerge.EachJobKeepsItsNewest | ci-tooling/trend_publish.py:162-168 | each job keeps its newest runs, at most so many, in the order they had |
| TrendMerge.KeysStayUnique | ci-tooling/trend_publish.py:126-175 | keys stay unique if they were, and none is invented |
| TrendMerge.CappedTwice | ci-tooling/trend_publish.py:162-168 | capping what is capped changes nothing |
| TrendMerge.MergedTwice | ci-tooling/trend_publish.py:126-175 | merging a snapshot twice is merging it once exactly when all its runs survive the cap |
| TrendMerge.MergedTwiceByCounting | ci-tooling/trend_publish.py:126-175 | and that is exactly when, counted in the history and the snapshot, few enough runs come after each known key and few enough keys are new |
| TrendMerge.CiSnapshotMergesOnce | ci-tooling/trend_publish.py:126-175 | with one run a job into a capped history it always is |
| TrendMerge.BurstDoesNotSettle | ci-tooling/trend_publish.py:126-175 | with one run too many of a job it is not |
| TrendMerge.Merge | ci-tooling/trend_publish.py:126-175 | the loops over sets, lists and the per-job dictionary give the modelled merge with 200 runs a job; without a readable snapshot nothing is written |

## Left out

- HTTP plumbing: routing, response headers other than status and length, CORS, compression, logging, authentication and the permission checks of artifact scopes, which are settled branch by branch.
- Libraries: SQL execution, `requests`, zip decoding, JSON text, HMAC and SHA-256 (injective constructors here), glyph metrics (any additive widths here), the rendering of the PDF itself.
- SQL: tables are sets of rows with primary keys; the thread tables are all there or all missing, and so are the webhook tables; transaction aborts are not modelled.
- Links: only the child-to-parent links the deletions themselves show; `srv_channels.conversation_id`, category links and thumbnails are not among them.
- Erasure.Session.PurgeUserMedia: the fallback branch of `purge_user_media`, not the branch that hands over to the media domain.
- Malformed manifests: shapes other than a listing are one constructor that raises and one that does not; a signed manifest whose hashes are no ASCII text is among the former.
- Archive members: their bytes count as text, so a manifest file that comes in an archive is text like any other.
- Install directory: quarantined directories are named as in the source but have no modification times; a move that fails leaves nothing in quarantine; the injected file's name is taken as it is configured; a file that cannot be written, or whose text cannot be encoded, is left as it was.
- Artifacts: the other columns, so that a legacy request without a payload changes nothing here; whether a request is authorised and whether its payload is over the size limit are inputs; numbers in a payload are integers.
- ArtifactUpdates.ArtifactTable.UpdateArtifact: states a request that nobody interleaves with; interleavings are the state machine's events.
- Version numbers: numerals of more than 4300 digits, which Python does not convert, are numbers like any other.
- Text: letters are lowered in ASCII only, and white space and digits are those of Latin-1, as header values are; in URL and tag checks no other letter can matter.
- TextLayout.GreedyIsMinimal: speaks of single-spaced paragraphs whose words fit; for over-long words a hard split is forced and only `TextLayout.EveryLineFits` and `TextLayout.PiecesAreLongest` apply.
- Sanitizer.SanitizingTwice: reads the output back as the pieces written; `HtmlReader.SanitizingTheText` speaks of its text.
- HTML: the lexer is an event stream on input; `HtmlReader.Read` reads only what the sanitiser writes, quoted attributes and the five character references included.
- Streams: exceptions raised while a body is being read, and closing the stream.
- Caches: every method holds one lock in the source and is one step here; `maxsize` is not negative.
- ChecksumCache.HitGuaranteed: counts reads of other keys that miss as uses, and goes one way only, since expired entries of others make room earlier.
- Trend entries: job, pipeline and timestamp are text, empty when absent or falsy; reading and writing the file are not modelled.
- Audit: of the syntax tree the parts the dataflow looks at; the other sweeps and their heuristics are left out.
- Glue: configuration, start-up, background loops, mail, status probes, HTML trend pages, ODT templates and default avatars.
