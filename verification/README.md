# A model of ThinkingFace, in Dafny

ThinkingFace is a self-hosted hub for models and datasets: a Go backend over git, an object
bucket and a database, and a web UI. This project models its most intricate logic and proves
properties of it. `dafny verify dfyconfig.toml` checks everything.

| file | what it models |
|---|---|
| LfsProtocol, LfsLoss | uploads, dedup links, unlinks and the LFS collectors as small steps over bucket, rows, links and locks; how a link loses its bytes |
| BlobLedger, BlobLoss, BlobOrigins, BlobRepairs | blob collection against any number of push pipelines, with the deletion ledger, its repair and its prune, parked jobs and a clock; how a blob is lost; what must have happened before bytes, ledger rows and index entries come and go; what a push, a repair and a gc run come to alone |
| ObjectKeys, Collector | content-addressed keys; the LFS passes of `thinkingface gc` and what they report |
| Resync | the cross-check of index, git and storage, its repairs and its verdict |
| Accounts, Sessions, SessionOrigins | the administrator's account writes; session cookies and every kind of revocation; who may do what to an account, and what each request does alone |
| PagedList | the offset-paged listing hook |
| Delimited, DelimitedTexts, FormulaEscapes, Tabular, Previews | printing and splitting delimited text; the text of other writers; cells that look like formulas; the preview table; what it shows of texts as they come |
| CodeLines | splitting a highlighted tree into lines |
| PythonInts, ChunkedReader, CutShort | the integers a chunk size may be written as; lazy decoding of a chunked request body; a body whose stream ends too early |
| Notes, NoteDestinations, NoteFences, NoteSpans | the rewrite of `run:` links in Markdown source; the grammar of destinations and definitions; fenced blocks; where its code spans and fences are those of CommonMark |
| UnifiedDiff, DiffHeaders | reading a unified diff into numbered rows; which lines are headers, and the lines before them |
| Decimals, DuckdbValues, DecimalColumns | printing and reading numbers, clocks, intervals and decimals; which DECIMAL columns tell their cells apart |
| Base64, Base64Texts | encoding bytes and decoding a prefix of them; the alphabet, the bits, and which texts decode |
| Sorting, RunGrouping, RunSelection | the grouped, sorted run table; the runs a page opens with |
| JsObjects | plain JavaScript objects: own properties, and the names their prototype answers for |
| JsText, Sequences, Options | the string operations, the regrouping of sequences and the optional value the others share |

A concurrent part is a state machine: `Apply` is one step of one actor, `Run` any interleaving,
and the theorems quantify over all runs. A loop or an object that the source updates in place is
a method or a class here, proved equal to a function of its inputs or of its old state; the
lemmas are about that function.

## What the code does otherwise than it says

Each is a lemma with the exact condition or a concrete run beside it.

- A collector cut off after it removed an LFS object's bytes leaves the row. LinkLFSObjects trusts
  rows and does not ask the bucket, so a later pushed pointer links a repository to missing bytes
  (`LfsLoss.InterruptedDeleteLosesALinkedObject`).
- Dropping a deleted branch's index takes no ref lock, and a ref lock does not reach another
  process. Dropping or replacing the index under a running push of a damaged ref lets a prune
  forget a blob that the push then indexes (`BlobLoss.DropUnderAPushLosesABlob`,
  `BlobLoss.ReplaceUnderAPushLosesABlob`).
- An account update can answer `last_admin` with an earlier write committed, although the comment
  above the handler excludes it (`Accounts.RefusedUpdateIsHalfDoneExactlyWhen`).
- A revocation does not stop a password change that has already shown the old password, nor an
  administrator's reset of their own password, which shows none: both sign their caller in
  afterwards and write over another administrator's reset; an update that also restores its
  caller undoes a suspension (`Sessions.RevocationIsOutlivedExactlyByOwnChanges`,
  `Sessions.OwnResetOutlivesARevocation`, `Sessions.OwnUpdateUndoesASuspension`).
- A reload called from a callback of an older render asks for that render's offset in the list
  now on screen, which can be a page that no render asked for
  (`PagedList.ReloadIsRightExactlyWhenFresh`, `PagedList.StaleReloadShowsAnotherPage`).
- A preview loses the column named `__proto__`, and an export prints an inherited function where
  a row lacks a column named `toString` (`Tabular.ColumnsAreKeptExactlyWhen`,
  `Delimited.OwnRoundTrip`).
- A lone CR ends a CSV record, against the comment beside the branch; a table that ends in one
  empty field, or begins with a byte order mark, does not read back
  (`Delimited.LoneCrEndsTheRecord`, `Delimited.PrintedTableReadsBack`).
- A reference definition whose destination has an unbalanced `)` loses what follows it
  (`Notes.DefinitionKeepsItsTextExactlyWhenBalanced`).
- Code spans are looked for line by line, without regard to backslashes, and a backtick fence is
  one whatever follows it. So a link inside a span of two lines is rewritten, and links after an
  escaped backtick or after such a fence are not
  (`NoteSpans.LinesKeepTheirSpansExactlyWhenApart`, `NoteSpans.EscapesMatterExactlyWhen`,
  `NoteSpans.FencesAgreeExactlyWhen`).
- A DECIMAL cell becomes a number if its unscaled digits are a safe integer, and two cells of one
  column can then show the same number (`DecimalColumns.TellsApartExactlyWhen`).

## Model

| member | source | states |
|---|---|---|
| `LfsProtocol.InvStep` | backend/internal/store/gc.go:138-167 | every step of an upload, a dedup link, an unlink, a collector or a failure keeps: each linked oid has its row and its bytes, locks exclude one another, and an open transaction may rely on what it checked under its lock; a link step may begin only on rows whose bytes are there |
| `LfsProtocol.BackedRunsAreSafe` | backend/cmd/thinkingface/gc.go:205-245 | in every interleaving whose link steps begin on rows with bytes, every linked oid keeps its bytes |
| `LfsProtocol.LinkIsSafeExactlyWhenBacked` | backend/internal/store/files.go:326-401 | letting LinkLFSObjects begin is safe through every continuation if and only if the rows it is entitled to have their bytes; unlike RecordLFSObject it does not ask the bucket |
| `LfsProtocol.RowsBackedBacksLinks` | backend/internal/store/files.go:356-388 | while every row nobody is deleting has its bytes, the row locks alone make every link step safe |
| `LfsProtocol.RowsBackedStep` | backend/internal/store/gc.go:157-166 | every step keeps rows backed if and only if it is not the cutting off of a tracked object's delete after its bytes went and before its row did |
| `LfsProtocol.UninterruptedRunsAreSafe` | backend/cmd/thinkingface/gc.go:262-305 | with no delete cut off in that window, every linked oid has its bytes in every interleaving of uploads, links, unlinks, failures and collectors |
| `LfsProtocol.EmptyIsSafe` | backend/cmd/thinkingface/gc.go:205-214 | the invariants hold of an empty instance, so the theorems cover every reachable state |
| `LfsProtocol.LinksAreEarned` | backend/internal/store/files.go:302-388 | over every run: a repository gains a link to an oid only through an upload of its own whose bytes are then found in the bucket at the recorded size, or through a pointer of its own that declares the size the oid's row has at that moment |
| `LfsProtocol.LinkTakesAllItEarned` | backend/internal/store/files.go:371-400 | whatever runs between, the commit links exactly the oids whose recorded size was declared when their rows were locked |
| `LfsProtocol.RowsAreFound` | backend/internal/store/files.go:262-286 | over every run: a row is written only with a size at which its bytes were then found in the bucket |
| `LfsProtocol.OnlyCollectorsTakeAway` | backend/internal/store/gc.go:138-167 | over every run: bytes stay as they were put and a row keeps its size, unless a collector claims the oid while nothing is linked to it and then takes the bytes; the row never goes first |
| `LfsProtocol.LinksStay` | backend/internal/store/files.go:318-325 | over every run a link stays until it is taken away by name |
| `LfsLoss.PhantomRow` | backend/internal/store/gc.go:157-160 | a run that reaches a row whose bytes are gone: upload, unlink, and a collector that dies between the bucket and its commit |
| `LfsLoss.InterruptedDeleteLosesALinkedObject` | backend/internal/store/files.go:312-316 | after such a delete, a pointer that declares the recorded size is linked to an oid whose bytes are nowhere |
| `BlobLedger.InvStep` | backend/internal/store/gc.go:333-392 | every step of gc runs, push pipelines (any number on one ref), repairs, crashes, parked and retried jobs and ref deletions keeps: an indexed sha whose bytes are missing has its ledger row, and somebody owes its ref a repair that will read that row; a prune keeps it if it is harmless |
| `BlobLedger.RunsWithoutPruneKeep` | backend/cmd/thinkingface/gc.go:17-32 | so it holds over every run without a prune, with no assumption on timing at all |
| `BlobLedger.IndexesLostBlob` | backend/internal/syncer/syncer.go:458-492 | a pipeline that has settled a blob that is gone and unrecorded goes on to index it whatever else its tree holds |
| `BlobLedger.PruneIsSafeExactlyWhenHarmless` | backend/internal/store/gc.go:474-491 | a prune keeps the promise through every continuation if and only if no running pipeline has settled a missing blob whose row it takes |
| `BlobLedger.TimelyPruneIsHarmless` | backend/cmd/thinkingface/gc.go:34-44 | a prune a full grace old is harmless if settling blobs and collecting together stay within the grace |
| `BlobLedger.TimelyRunsKeepThePromise` | backend/cmd/thinkingface/gc.go:323-407 | over every run that keeps that timing, and in which a ref's index is neither dropped nor replaced by another pipeline while one is settling its blobs, a missing indexed sha has its ledger row and somebody who owes the repair |
| `BlobLedger.NothingOwedNothingMissing` | backend/internal/store/gc.go:425-472 | from an empty instance over such a run: a ref to which nobody owes a repair, parked jobs included, has all of its indexed bytes |
| `BlobLedger.FinishSettles` | backend/internal/syncer/syncer.go:660-668 | a repair that finishes settles whatever its ref owed when it selected, jobs parked by then included, so any later push of the ref answers them |
| `BlobLedger.YoungBlobsStay` | backend/cmd/thinkingface/gc.go:33 | over every run that no gc was already in: a blob, indexed or not, is still there, as written, a day after it was written |
| `BlobOrigins.BytesGoByCollection` | backend/internal/store/gc.go:333-392 | over every run: a blob's bytes go only where one gc run listed it, found it over a day old and named by no ref, wrote its intent down, looked again and found no ref that names it, and then removed it |
| `BlobOrigins.NamesComeByPushes` | backend/internal/syncer/syncer.go:458-492 | over every run: a ref comes to name a blob only where a pipeline that began to push a tree with it replaces the index, having published the blob or found it indexed when it began |
| `BlobOrigins.OnlyItsOwnRef` | backend/internal/store/files.go:122-146 | a step changes the index of the one ref it pushes or deletes |
| `BlobOrigins.RowsComeByIntent` | backend/internal/store/gc.go:342-349 | over every run: a ledger row is written, with the time, where a gc run intends to remove a blob it has screened |
| `BlobOrigins.RowsGoByRepairOrPrune` | backend/internal/store/gc.go:425-491 | over every run: a ledger row goes only where a repair that found its blob in the index of the ref it was started for has put it back, or where a prune finds it older than asked and named by no ref |
| `BlobRepairs.PushAloneStoresItsTree` | backend/internal/syncer/syncer.go:458-502 | a push that nobody holds a blob of can go to its end by its own steps, whatever its ref had lost before: the ref then names the new tree and no other ref a different one, every blob of the tree is stored, exactly their ledger rows are gone, and nobody owes the ref a repair |
| `BlobRepairs.RepairAloneSettles` | backend/internal/store/gc.go:425-472 | so can its repair: exactly the blobs of its ref that the ledger names come back and leave the ledger |
| `BlobRepairs.CollectionAloneTakes` | backend/internal/store/gc.go:333-392 | a gc run can take any blob over a day old that no ref names, if nobody holds it; its ledger row, with the time, stays |
| `BlobRepairs.CollectorsBackOff` | backend/internal/store/gc.go:358-383 | a collector that finds its ledger row taken, or its blob named by a ref, ends and leaves bytes and ledger as they are |
| `BlobRepairs.FailedRemovalEnds` | backend/internal/store/gc.go:385-387 | where storage fails the blob is gone or not; the ledger row stays and the collector is done |
| `BlobRepairs.ParkedJobsWait` | backend/internal/store/jobs.go:377-396 | a parked job stays parked through every step but an operator's retry and the repair of a later push of its ref |
| `BlobRepairs.HeldRowsStand` | backend/internal/store/gc.go:400-407 | as long as a repair holds a ledger row, no step of anybody takes its lock, changes the row or removes the bytes it stands for |
| `BlobLoss.DropUnderAPushLosesABlob` | backend/internal/store/files.go:122-146 | a ref's index dropped under its own running pipeline: with pushes and collectors instantaneous, an object over a day old collected by gc, and every prune a full grace old, a run ends with an indexed blob gone, unrecorded, and owed by nobody |
| `BlobLoss.ReplaceUnderAPushLosesABlob` | backend/internal/syncer/reflock.go:18-33 | two pipelines on one ref, which the lock of one process does not exclude across two, end the same way when one replaces the index while the other is settling blobs |
| `ObjectKeys.BaseOfSharded` | backend/internal/storage/layout.go:17-22 | the last path element of a content-addressed key is the identifier the key was made of |
| `ObjectKeys.BaseOfAnyKey` | backend/internal/store/gc.go:66 | path.Base of any key: slashes at the end do not count, of nothing but slashes it is one, of nothing a dot |
| `ObjectKeys.ShardedInjective` | backend/internal/storage/layout.go:17-22 | so two identifiers never share a key |
| `Collector.OrphanedRows` | backend/internal/store/gc.go:114-122 | exactly the rows no repository references, each once |
| `Collector.UntrackedObjects` | backend/internal/store/gc.go:95-109 | exactly the listed objects at the canonical key of an oid without a row and older than the cutoff |
| `Collector.CandidatesAreDisjoint` | backend/cmd/thinkingface/gc.go:175-203 | no key is a candidate of both LFS passes, whatever was listed |
| `Collector.Tally` | backend/cmd/thinkingface/gc.go:224-245 | every candidate is counted once, as deleted, skipped or failed |
| `Collector.TallyAddsUp` | backend/cmd/thinkingface/gc.go:236-245 | each count is the number of candidates with that fate, and the bytes are the sizes of the deleted ones summed |
| `Collector.SweepMeaning` | backend/cmd/thinkingface/gc.go:224-245 | a sweep that re-checks each candidate against the state it has reached deletes exactly the candidates deletable at the start, and reports them so |
| `Collector.OrphanDeleteIsARun` | backend/internal/store/gc.go:208-224 | what one orphan delete does to bucket and rows is a run of the concurrent protocol's own steps |
| `Collector.Instance.DeleteOrphaned` | backend/internal/store/gc.go:208-224 | re-checks the row and its links; deletes bytes, then row; a refused delete leaves both |
| `Collector.Instance.DeleteUntracked` | backend/internal/store/gc.go:271-286 | deletes an object only if it still has no row, and leaves the rows as they were either way |
| `Collector.Instance.CollectUnreferenced` | backend/cmd/thinkingface/gc.go:215-255 | over any snapshot, however stale: deletes, skips or fails each candidate by the live rows and links, moves nothing else, and in a dry run moves nothing |
| `Collector.Instance.SweepOrphans` | backend/cmd/thinkingface/gc.go:224-245 | the deleting loop is the candidate-by-candidate sweep |
| `Collector.Instance.CollectUntracked` | backend/cmd/thinkingface/gc.go:279-321 | removes exactly the candidates that still have no row and that the bucket lets go, and leaves every row |
| `Collector.Instance.CollectLfs` | backend/cmd/thinkingface/gc.go:175-203 | with nobody else moving, both passes remove exactly the garbage the bucket lets go and keep everything else |
| `Collector.LinkedObjectsAreSpared` | backend/internal/store/gc.go:208-286 | however stale the listings and whatever the candidates, an oid that is linked now keeps its row and its bytes through both passes |
| `Collector.FullRunLeavesTheLinkedSet` | backend/cmd/thinkingface/gc.go:128-172 | after a failure-free run over an instance whose objects without a row are past their grace, rows and stored oids are the linked set, and no other lfs/ key is left |
| `Resync.DiffIndex` | backend/cmd/thinkingface/resync.go:172-195 | the loops over the by-path map and the seen set compute the three lists in listing order |
| `Resync.DiffHolds` | backend/cmd/thinkingface/resync.go:172-195 | what each list says of one path, even when paths repeat |
| `Resync.DiffRepairsTheIndex` | backend/cmd/thinkingface/resync.go:154-165 | dropping Extra from the index and taking Missing and Changed from the tree gives the tree's map |
| `Resync.DiffNamesWhatDiffers` | backend/cmd/thinkingface/resync.go:172-213 | with unique tree paths a path is listed if and only if tree and index differ there |
| `Resync.NothingToReportExactlyWhenEqual` | backend/cmd/thinkingface/resync.go:165 | with unique tree paths the total is zero if and only if the two maps are equal |
| `Resync.ResyncRun.ListMissing` | backend/cmd/thinkingface/resync.go:138-152 | the indexed files whose LFS object or blob is not stored |
| `Resync.ResyncRun.CheckObjects` | backend/cmd/thinkingface/resync.go:453-480 | reports each missing object; with --yes publishes blobs again, remembers them and counts failures; LFS objects are only reported |
| `Resync.ResyncRun.CheckIndex` | backend/cmd/thinkingface/resync.go:493-518 | reports a drifted ref once and queues its sync with --yes |
| `Resync.ResyncRun.Run` | backend/cmd/thinkingface/resync.go:354-385 | the run is the fold of its checks over the refs, and its verdict ranks unread refs, failed repairs, open findings, agreement |
| `Resync.RunIsAccounted` | backend/cmd/thinkingface/resync.go:235-255 | after every run unrepaired() is the number of findings left open (so never negative), and failures are exactly the repairs tried in vain |
| `Resync.DryRunReportsExactlyWhatIsWrong` | backend/cmd/thinkingface/resync.go:267-281 | a dry run changes nothing and has no finding exactly when every ref it read is sound |
| `Resync.DryVerdictIsAgreeExactlyWhenAllAgrees` | backend/cmd/thinkingface/resync.go:372-385 | a dry run ends well if and only if every ref could be read, every indexed file has its object, and every index equals its tree |
| `Resync.RepairedRunSettlesEveryRef` | backend/cmd/thinkingface/resync.go:453-518 | after a --yes run without a failed repair every indexed blob of every ref read is stored and every drifted ref is queued |
| `Resync.RunReportsFailures` | backend/cmd/thinkingface/resync.go:453-518 | a --yes run counts no failed repair if and only if no ref is the first to carry a missing blob that its own repository cannot publish and every drifted ref can be queued; its blobs are then those of the start and all those the refs carry |
| `Resync.RepairVerdictIsAgreeExactlyWhen` | backend/cmd/thinkingface/resync.go:372-385 | a --yes run ends well if and only if every ref could be read, every indexed blob missing at the start can be published out of the first ref that carries it, every drifted ref can be queued, and no indexed LFS object is lost |
| `Resync.RepairVerdictRanksWhatWentWrong` | backend/cmd/thinkingface/resync.go:372-385 | and which of the other verdicts it ends with: an unread ref, a repair that failed, or a finding no repair was for |
| `Accounts.StoreKeepsAnAdmin` | backend/internal/store/users.go:320-367 | none of the three kinds of store write leaves an instance without a usable administrator |
| `Accounts.Store.SetUserAdmin` | backend/internal/store/users.go:344-367 | sets the flag, or refuses to take it from the last usable administrator |
| `Accounts.Store.SetUserGate` | backend/internal/store/users.go:431-466 | a no-op if already so; closing revokes the sessions in the same write or is refused; opening touches nothing else |
| `Accounts.Store.UpdateUserPassword` | backend/internal/store/users.go:289-295 | writes hash and next epoch together and answers that epoch |
| `Accounts.Store.AdminUpdate` | backend/internal/api/admin.go:182-377 | which refusal, an unrecognised approval value included, which writes in which order, and whose cookie comes back, for every request |
| `Accounts.RefusedBeforehandExactlyWhen` | backend/internal/api/admin.go:191-261 | which answer each request gets before any write: a malformed one whether or not its account exists, then an unknown account, then whoever would lock themselves out, and the hashing last |
| `Accounts.PerformedIsTheUpdate` | backend/internal/api/admin.go:275-352 | the writes an update decides on from the account it loaded, made one by one with nobody between them, are the handler's, refusals included |
| `Accounts.RefusedUpdateIsHalfDoneExactlyWhen` | backend/internal/api/admin.go:265-344 | a last_admin refusal leaves an earlier write committed for exactly the listed requests, and for no other |
| `Accounts.RefusalGrantsAdmin` | backend/internal/api/admin.go:178-181 | a concrete refused request after which the administrator flag is granted, against the comment |
| `Accounts.GuardOverreachesExactlyWhen` | backend/internal/store/users.go:320-334 | demoting is refused without need exactly for an unusable administrator beside the last usable one |
| `Sessions.EpochCounts` | backend/internal/api/auth.go:106-166 | over every run an account's epoch grows by exactly its revocations, and between two of them its password stands and nothing locks it |
| `Sessions.CookieLivesUntilRevoked` | backend/internal/api/auth.go:472-577 | a cookie whose epoch was read in a state authenticates at the end of any run from it if and only if it was issued, has not expired, and no revocation of the account happened since the read |
| `Sessions.SessionsKeepTheirPassword` | backend/internal/api/auth.go:849-868 | no session outlives the password it was opened with |
| `Sessions.InvRun` | backend/internal/api/auth.go:472-486 | nobody ever holds an epoch its account has not reached |
| `Sessions.DeadCookiesStayDead` | backend/internal/api/admin.go:296-362 | a cookie refused for its epoch is refused for good, through restores, admissions and later logins |
| `Sessions.ChangeKeepsOnlyItsCaller` | backend/internal/api/auth.go:806-868 | a password change signs its caller in at the new epoch and every earlier cookie out, whatever runs between the write and the signature short of another revocation |
| `Sessions.OpensExactlyWhenHolding` | backend/internal/api/admin.go:182-364 | left to itself a request in flight can open a session if and only if it holds the current epoch on an open account, a proven password on an open account, or an administrator's reset of their own password on an account that is open or that the same update opens |
| `Sessions.RevocationIsOutlivedExactlyByOwnChanges` | backend/internal/api/admin.go:347-364 | of the requests in flight for an account when its sessions are revoked, exactly the password changes that have shown the old password and the administrators' resets of their own password, on an account left open or opened by the same update, can still open a session |
| `Sessions.ProvenChangeBeatsAReset` | backend/internal/api/auth.go:849-864 | a run in which such a change writes over an administrator's reset that was already under way and leaves a live cookie |
| `Sessions.OwnResetOutlivesARevocation` | backend/internal/api/admin.go:182-364 | a run in which an administrator's reset of their own password, begun with their cookie, writes its hash and leaves a live cookie after a revocation, with no password shown |
| `Sessions.OwnUpdateUndoesASuspension` | backend/internal/api/admin.go:296-364 | a run in which such an update, begun before another administrator suspends its caller, restores the account and leaves its caller signed in |
| `SessionOrigins.ChangesAreByRight` | backend/internal/api/auth.go:85-157 | over every run: a session, another password, a revocation or another standing comes about only where its right was shown in the state then reached: the account's password, its own live cookie, an administrator's live cookie with an update that asks for it, the operator, or signing up |
| `SessionOrigins.StrangersStayOut` | backend/internal/api/auth.go:228-265 | from a state without a request or a current cookie of an account, and while nobody signs it up or shows its password of the moment, no cookie of it ever authenticates, whatever else is done to it |
| `SessionOrigins.SignInWorksExactlyWhenKnown` | backend/internal/api/auth.go:499-574 | a sign-in leaves a live cookie if and only if it shows the password of an open account, and otherwise no trace |
| `SessionOrigins.SignUpSignsInExactlyWhenOpen` | backend/internal/api/auth.go:578-646 | a new account has no rights and its own password, and is signed in unless it has to be admitted first |
| `SessionOrigins.ChangeWorksExactlyWhenKnown` | backend/internal/api/auth.go:806-847 | a password change reaches its write if and only if it has a live cookie and shows the old password |
| `SessionOrigins.ChangeLeavesTheNewPassword` | backend/internal/api/auth.go:849-868 | and then leaves the new password, the next epoch and its caller's cookie, and everything else as it was |
| `SessionOrigins.LogoutEndsEverySession` | backend/internal/api/auth.go:871-887 | with a live cookie it ends every session of the account and of no other; without one it does nothing |
| `SessionOrigins.UpdateBegins` | backend/internal/api/admin.go:182-264 | an update gets as far as its writes if and only if an administrator's live cookie asks for it and it is not refused beforehand |
| `SessionOrigins.UpdateAloneIsTheHandler` | backend/internal/api/admin.go:265-364 | left alone it does to the accounts what the handler does, and goes on to a cookie exactly when it reset its caller's own password |
| `SessionOrigins.CommandsReachEveryAccount` | backend/cmd/thinkingface/admincli.go:107-175 | a reset takes the account's sessions away and nobody else's; a promotion takes none |
| `SessionOrigins.TheDeadLeaveNothing` | backend/internal/api/auth.go:806-868 | a request that dies between two of its steps leaves accounts, cookies and other requests as they were |
| `SessionOrigins.CookiesRunOut` | backend/internal/api/auth.go:472-482 | once its lifetime has passed a cookie is dead, whatever was done to the account |
| `PagedList.UsePagedList.Effect` | frontend/hooks/use-paged-list.ts:249-258 | a changed render cancels the old effect, takes the next ticket and turns loading on |
| `PagedList.UsePagedList.Render` | frontend/hooks/use-paged-list.ts:159-164 | changed inputs rewind the offset before anything is fetched; the same window fetches nothing |
| `PagedList.UsePagedList.ReloadFrom` | frontend/hooks/use-paged-list.ts:217-222 | a reload asks for the offset its callback was created with, in the list on screen, and nothing cancels it |
| `PagedList.UsePagedList.Completed` | frontend/hooks/use-paged-list.ts:222-234 | an answer is written only if its effect stands and its ticket is the newest; only the current effect clears loading |
| `PagedList.InvStep` | frontend/hooks/use-paged-list.ts:217-260 | the hook's invariant over every event |
| `PagedList.NewestRequestWins` | frontend/hooks/use-paged-list.ts:219-258 | over every order of events: written tickets rise, no answer is written once a newer ticket is out, loading is on exactly while the current effect's fetch is out, and at rest the newest ticket's answer is shown |
| `PagedList.ScreenFollowsTheUser` | frontend/hooks/use-paged-list.ts:149-222 | over every run the window is the page asked for last, back or forward, rewound by a new list; one fetch for every change of it and every reload, and no other |
| `PagedList.QuietScreenShowsItsWindow` | frontend/hooks/use-paged-list.ts:243-258 | with every reload called at the offset it was created with, what is shown at rest is the page the user asked for last |
| `PagedList.ReloadIsRightExactlyWhenFresh` | frontend/hooks/use-paged-list.ts:260 | a reload on a screen at rest asks for the list on screen, and leaves the right page if and only if its callback was created at the offset on screen |
| `PagedList.StaleReloadShowsAnotherPage` | frontend/hooks/use-paged-list.ts:199-222 | a run of paging, searching and reloading from the earlier page, after which the pager stands on the first page and a later page of the new list is shown |
| `PagedList.ChangedInputsRewind` | frontend/hooks/use-paged-list.ts:153-164 | changed inputs ask for the first page of the new list in one fetch |
| `Delimited.SplitDelimitedRecords` | frontend/lib/tabular.ts:105-174 | the character loop computes the records of the automaton |
| `Delimited.ToCsv` | frontend/lib/tabular.ts:303-309 | the printed lines, joined by newlines, where a column a row does not own is answered by the prototype |
| `Delimited.PrintedTableReadsBack` | frontend/lib/tabular.ts:105-174 | for every delimiter but a quote and the line ends: any printed table splits back into itself if and only if its text does not begin with a byte order mark and its last record is not one empty field |
| `Delimited.TableScan` | frontend/lib/tabular.ts:105-174 | for every such delimiter and from any resting state of the splitter a printed table adds its own records, for all contents including quotes, delimiters, CR and LF |
| `DelimitedTexts.DocumentsAreSplit` | frontend/lib/tabular.ts:96-174 | for every such delimiter: text with fields quoted or bare, quotes inside bare fields, text after a closing quote, LF, CRLF or CR line ends, a last line with or without one, a quote never closed and a byte order mark splits into exactly the values it means |
| `DelimitedTexts.EveryTextIsADocument` | frontend/lib/tabular.ts:105-174 | and every text is such a text, so what the splitter answers is settled for all of them |
| `Delimited.BomIsLost` | frontend/lib/tabular.ts:294-296 | a table that begins with a byte order mark comes back with its first field one character short |
| `Delimited.CsvRoundTrip` | frontend/lib/tabular.ts:303-352 | toCsv and the splitter return the header and the printed cells, formula escape applied, if and only if a condition on columns and rows a caller can check holds |
| `Delimited.OwnRoundTrip` | frontend/lib/tabular.ts:303-316 | they return what the rows themselves hold if and only if, besides, no column of a row is an inherited name the row does not own |
| `Delimited.InheritedNamesLeak` | frontend/lib/tabular.ts:306-316 | a row without a column toString prints the inherited function |
| `Delimited.RecordsHaveFields` | frontend/lib/tabular.ts:113-122 | no record is ever without a field |
| `Delimited.LoneCrEndsTheRecord` | frontend/lib/tabular.ts:150-159 | a lone CR ends the record, against the comment beside it |
| `FormulaEscapes.EscapedExactlyWhenFormula` | frontend/lib/tabular.ts:318-353 | a cell gets an apostrophe if and only if it begins with one of the six characters and is not a number; any other is written as it is |
| `FormulaEscapes.PlainExactlyWhenNumber` | frontend/lib/tabular.ts:336 | what counts as a number: a sign or none, digits before or behind a point or both, an exponent or none |
| `FormulaEscapes.NoCellIsAFormula` | frontend/lib/tabular.ts:318-342 | so no cell of an export begins like a formula, but for numbers |
| `FormulaEscapes.CellsAreWritten` | frontend/lib/tabular.ts:311-316 | a text is written as itself, any other value as its rendering, a null or a missing cell as nothing |
| `JsText.TrimOf` | frontend/lib/tabular.ts:281 | trim takes exactly the white space at the two ends |
| `JsText.SpacesAre` | frontend/lib/exp-notes.ts:61 | which characters are white space |
| `Tabular.FreeSpelling` | frontend/lib/tabular.ts:284-287 | the suffix loop ends, at the first spelling not taken |
| `Tabular.UniqueColumnNames` | frontend/lib/tabular.ts:277-292 | distinct names, each the first free spelling of its trimmed or positional base |
| `Tabular.RowOf` | frontend/lib/tabular.ts:202-208 | column j holds field j or null, for every column but one named __proto__, which is not there and whose missing field takes the row's prototype away |
| `Tabular.ColumnsAreKeptExactlyWhen` | frontend/lib/tabular.ts:202-207 | a row keeps every column's cell if and only if no column is named __proto__ |
| `Tabular.ProtoColumnIsLost` | frontend/lib/tabular.ts:202-207 | a record of two fields under a header that begins with __proto__ becomes a row of one |
| `Tabular.FillRows` | frontend/lib/tabular.ts:195-209 | keeps the non-blank records up to the cap, counts exactly the kept ones of wrong width, and tells whether it stopped |
| `Tabular.ParseDelimited` | frontend/lib/tabular.ts:176-215 | which refusal or which preview each text gets: no rows, too many columns, ragged rows, or the table, a column named __proto__ included |
| `Tabular.CleanHeaderIsKept` | frontend/lib/tabular.ts:277-292 | a header of distinct, trimmed, non-blank names is kept as it is |
| `Tabular.ExportPreviewsWhole` | frontend/lib/tabular.ts:176-215 | an export within the limits previews with its own columns and as many rows, nothing malformed, nothing cut, and shows a cell if and only if its column is not named __proto__ |
| `Previews.DistinctNamesAreGiven` | frontend/lib/tabular.ts:277-292 | columns that ask for different names, a blank one for column_ and its position, are called what they ask for |
| `Previews.RepeatsAreNumbered` | frontend/lib/tabular.ts:284-287 | columns that all ask for one name are called it, then it with _2, _3 and so on |
| `Previews.EmptyLinesAreSkipped` | frontend/lib/tabular.ts:189-196 | a line without content anywhere in a printed table makes no difference to its preview |
| `Previews.PreviewIsDecided` | frontend/lib/tabular.ts:176-215 | for a table of any size: refused for more than 512 columns, or for ragged lines if over two and over a tenth; else a row for each of the first 50,000 lines, the ragged ones counted, and whether there were more |
| `Previews.NoPreviewExactlyWhenEmpty` | frontend/lib/tabular.ts:182-183 | there is no table exactly when every line is empty |
| `CodeLines.Builder.AppendNode` | frontend/lib/code-lines.ts:69-88 | pushing onto the shared lines glues the node's own lines to them, at any depth |
| `CodeLines.SplitHastLines` | frontend/lib/code-lines.ts:91-98 | the lines of the tree, the last one dropped when empty and not alone |
| `CodeLines.CountLines` | frontend/lib/code-lines.ts:101-107 | one line a newline, plus an unterminated last one |
| `CodeLines.SplitKeepsAll` | frontend/lib/code-lines.ts:69-88 | rejoining the lines with newlines gives every character back with its whole chain of enclosing elements |
| `CodeLines.SplitAllClean` | frontend/lib/code-lines.ts:76-86 | no line holds a newline, an empty text or an empty element |
| `CodeLines.RejoinCounts` | frontend/lib/code-lines.ts:96-107 | what rejoined lines have in newlines and in a last newline |
| `CodeLines.LinesKeepTheTree` | frontend/lib/code-lines.ts:69-107 | for any tree: lines rejoin to its characters and their ancestors up to one trailing newline, are clean, and number what the counter says for its non-empty text |
| `ChunkedReader.Stream.ReadLine` | scripts/gcs-host-proxy.py:75-88 | takes through the next line feed, or what is left |
| `ChunkedReader.Chunked.Read` | scripts/gcs-host-proxy.py:73-93 | the loop decodes chunks until it has enough, hands out that many bytes and keeps the rest, or fails on a malformed size line |
| `ChunkedReader.Chunked.DrainToEmptyLine` | scripts/gcs-host-proxy.py:83-84 | consumes trailer lines through the empty one |
| `ChunkedReader.SizeLine` | scripts/gcs-host-proxy.py:75-76 | a size line announces the number its hex digits spell, in either letter case, with any leading zeros and whatever extension follows |
| `PythonInts.IntReadsExactlyWhen` | scripts/gcs-host-proxy.py:76 | int(text, 16) answers v exactly for the texts that are v written down: blanks, a sign, a prefix, digits with single underscores between them; every other text is an error |
| `PythonInts.DigitsReadExactlyWhen` | scripts/gcs-host-proxy.py:76 | hex digits are read as the number they spell once single underscores are left out, and nothing else is read |
| `ChunkedReader.TrailersDrain` | scripts/gcs-host-proxy.py:78-84 | any well-formed trailers are consumed exactly, and nothing of what follows |
| `ChunkedReader.PumpStands` | scripts/gcs-host-proxy.py:74-88 | decoding ahead keeps the reader in front of the same body and the same bytes after the message |
| `ChunkedReader.ReadTakesASlice` | scripts/gcs-host-proxy.py:73-93 | one read of any size takes the next min(size, remaining) bytes of the body |
| `ChunkedReader.ReadsTakeSlices` | scripts/gcs-host-proxy.py:65-93 | any sequence of reads returns consecutive slices of the body, and after a short one the stream stands at the byte after the message |
| `ChunkedReader.FreshReaderStands` | scripts/gcs-host-proxy.py:68-71 | a new reader over any well-formed message (section 4.1 of RFC 7230) stands before its whole body |
| `CutShort.WhatArrivedIsRead` | scripts/gcs-host-proxy.py:73-93 | wherever the stream ends inside a well-formed message, reading to the end does not fail and hands out exactly the bytes of the body that arrived |
| `Notes.ReadRunDestination` | frontend/lib/exp-notes.ts:41-70 | reads the destination that stands at a position, escapes and nested parentheses included; the scan ends |
| `NoteDestinations.DestinationIsReadExactlyWhen` | frontend/lib/exp-notes.ts:41-70 | for any text: what is read at a position is exactly a bare destination, with its escapes undone, that ends at white space, an unopened parenthesis or the end, or what angle brackets enclose on one line |
| `NoteDestinations.BlanksArePassed` | frontend/lib/exp-notes.ts:80-81 | behind a link's bracket exactly the spaces and tabs are passed over |
| `NoteDestinations.FirstLinkIsRewritten` | frontend/lib/exp-notes.ts:73-95 | the first link to a run becomes the text up to its destination, the link of the decoded name in angle brackets, and the rest rewritten from the destination's end on |
| `NoteDestinations.DefinitionIsReadExactlyWhen` | frontend/lib/exp-notes.ts:102-106 | a line is taken for a reference definition if and only if it is at most three spaces, a bracketed label, a colon, blanks, a destination and a tail on the same line |
| `Notes.RewriteInline` | frontend/lib/exp-notes.ts:73-95 | the scan with its cursor and its restart writes the pieces of the prose in order |
| `Notes.InlineIsExact` | frontend/lib/exp-notes.ts:73-95 | in any prose: laid end to end the pieces are the text, a changed piece is exactly a destination that names a run after its bracket, and every such bracket outside another destination is found |
| `Notes.CloseRun` | frontend/lib/exp-notes.ts:119-128 | the search with its skipping finds the next run of exactly n backticks, or that there is none |
| `Notes.CodeSpansAreFound` | frontend/lib/exp-notes.ts:110-138 | within one line, ignoring backslash escapes, the segments are the code spans: each opens with a run of n backticks and closes at the next run of exactly n, and no other run has a partner |
| `Notes.RewriteProse` | frontend/lib/exp-notes.ts:110-138 | the loop over spans writes prose rewritten and code as it stands |
| `Notes.RewriteLine` | frontend/lib/exp-notes.ts:102-139 | a definition that names a run has its destination replaced; any other line goes through the spans |
| `Notes.ProseIsExact` | frontend/lib/exp-notes.ts:102-139 | off definition lines, code spans come out verbatim and prose changes only in destinations that name runs |
| `NoteDestinations.DefinitionIsRewritten` | frontend/lib/exp-notes.ts:102-108 | a definition line keeps its head and its tail around the link of its name; one whose name decodes to nothing is prose |
| `Notes.RewriteRunLinks` | frontend/lib/exp-notes.ts:146-170 | the fence carried across lines decides which lines are rewritten; the early return changes nothing |
| `NoteFences.OpensExactlyWhenMarked` | frontend/lib/exp-notes.ts:153-164 | a line opens a fence of n of a character if and only if it begins with at most three spaces and exactly n, three or more, of that backtick or tilde |
| `NoteFences.ClosesExactlyWhenEnding` | frontend/lib/exp-notes.ts:155-161 | a line closes a fence if and only if it is such a marker of the same character, at least as long, and white space |
| `NoteFences.BlocksAreKept` | frontend/lib/exp-notes.ts:150-166 | a block comes out as it went in, first and last lines included, and behind it the rewriting goes on |
| `NoteFences.OtherLinesAreRewritten` | frontend/lib/exp-notes.ts:163-166 | a line outside blocks that opens none is rewritten |
| `Notes.NoRunLinkNoChange` | frontend/lib/exp-notes.ts:147 | notes without the scheme come out as they are, so the early return is an optimisation only |
| `Notes.NotesKeepTheirLines` | frontend/lib/exp-notes.ts:148-169 | if links hold no newline, the output has the input's lines one for one and every fenced line unchanged |
| `Notes.DefinitionKeepsItsTextExactlyWhenBalanced` | frontend/lib/exp-notes.ts:103-108 | a rewritten definition line loses no text if and only if its destination is in angle brackets or closes no parenthesis it did not open |
| `Notes.DefinitionCanLoseText` | frontend/lib/exp-notes.ts:103-108 | a concrete definition line that loses text |
| `NoteSpans.SpansAreItsCode` | frontend/lib/exp-notes.ts:110-138 | the spans spoken of below are the code segments the rewrite copies |
| `NoteSpans.LinesKeepTheirSpansExactlyWhenApart` | frontend/lib/exp-notes.ts:148-169 | for any lines: the code spans of the lines joined are the lines' own, where they stand, if and only if no run of backticks that its line leaves as text has a run of its length in a later line |
| `NoteSpans.ApartExactlyWhenNoSpanCrosses` | frontend/lib/exp-notes.ts:148-169 | that is, if and only if no code span of the lines joined crosses the end of a line |
| `NoteSpans.SpanAcrossLinesIsRewritten` | frontend/lib/exp-notes.ts:148-169 | notes of two lines that are one code span, and whose rewrite replaces the link in it |
| `NoteSpans.EscapesMatterExactlyWhen` | frontend/lib/exp-notes.ts:110-138 | for any text: the spans found are those found with backslash escapes heeded if and only if no run met after an odd number of backslashes closes, with or without its first backtick |
| `NoteSpans.EscapedTickIsTakenForCode` | frontend/lib/exp-notes.ts:110-138 | a line without a code span once escapes are heeded, whose link is left as it is |
| `NoteSpans.FencesAgreeExactlyWhen` | frontend/lib/exp-notes.ts:153-166 | for any lines: every line is inside or outside the fences of section 4.5 of CommonMark 0.31 as it is here if and only if no line met outside them opens a backtick fence with another backtick after it |
| `NoteSpans.TickedInfoHidesALink` | frontend/lib/exp-notes.ts:153-166 | notes without a fenced block that come out as they are, a link to a run included |
| `UnifiedDiff.ParseLine` | frontend/lib/diff.ts:63-104 | one line's row and how the numbering moves |
| `UnifiedDiff.ParseUnifiedDiff` | frontend/lib/diff.ts:50-106 | the loop yields one row a patch line, a final newline beginning none |
| `UnifiedDiff.HeaderTextReads` | frontend/lib/diff.ts:40 | any printed hunk header, counts omitted or not, any heading, reads back as its two starts |
| `DiffHeaders.HeaderIsReadExactlyWhen` | frontend/lib/diff.ts:40 | a line is a hunk header with these starts if and only if it has the form of one |
| `DiffHeaders.PreambleIsUnnumbered` | frontend/lib/diff.ts:42-49 | lines before the first header get no numbers, whatever they look like, and change nothing of what follows |
| `DiffHeaders.LinesOfADiff` | frontend/lib/diff.ts:50-62 | a diff has the same lines with a final newline and without |
| `UnifiedDiff.RenderedDiffReadsBack` | frontend/lib/diff.ts:50-106 | any rendered diff, over any number of hunks and no-newline notes, parses to its own rows with the numbers its hunks stand at |
| `UnifiedDiff.ParsedRowsShowTheirLines` | frontend/lib/diff.ts:19-31 | every deleted or context row shows line oldLine of the old side, every added or context row line newLine of the new one |
| `UnifiedDiff.ParsedRowsApply` | frontend/lib/diff.ts:42-49 | the parsed rows alone, applied to the old side, give the new side |
| `DuckdbValues.TicksReadBack` | frontend/lib/duckdb-values.ts:84-102 | for every integer and every unit the printed clock reads back as that tick count; minutes and seconds are two digits below 60 and the fraction ends in no zero |
| `DuckdbValues.IntervalReadsBack` | frontend/lib/duckdb-values.ts:113-125 | years and months come back from the ISO text, days and milliseconds as their sum |
| `DuckdbValues.EmptyHalvesAreLeftOut` | frontend/lib/duckdb-values.ts:113-122 | a half that is nothing is not written, and an interval of nothing is P0M |
| `DuckdbValues.DecimalIsExact` | frontend/lib/duckdb-values.ts:267-285 | the text denotes exactly the unscaled integer times 10^-scale, for positive, zero and negative scales, and shows all scale places |
| `DuckdbValues.ScaleReadsBack` | frontend/lib/duckdb-values.ts:216-220 | the scale is read out of the column's type string |
| `DuckdbValues.DecimalCellIsExact` | frontend/lib/duckdb-values.ts:232-285 | the text of a DECIMAL cell is its value for any precision and scale, and it stays a text exactly beyond the safe integers |
| `DecimalColumns.TellsApartExactlyWhen` | frontend/lib/duckdb-values.ts:260-285 | for every DECIMAL(precision, scale): any two different cells shown as numbers are different numbers if and only if the precision is at most 15 or the scale is zero |
| `DecimalColumns.NumberIsNearest` | frontend/lib/duckdb-values.ts:281-284 | the number a cell is shown as has 53 bits and is the nearest to its value, the even one of two |
| `DecimalColumns.NumberCellExactlyWhen` | frontend/lib/duckdb-values.ts:260-285 | a cell that fits its column is shown as a number if and only if its unscaled integer is safe |
| `DecimalColumns.SafeCellsMeet` | frontend/lib/duckdb-values.ts:281-284 | at every scale from 1 to 38 two neighbouring cells with safe unscaled integers are shown as the same number |
| `DecimalColumns.TwoCellsOneNumber` | frontend/lib/duckdb-values.ts:281-284 | in a DECIMAL(16,1) column 900719925474098.2 and 900719925474098.3 are |
| `Decimals.ValueOfDecimal` | frontend/lib/duckdb-values.ts:93-100 | printed digits denote the number printed |
| `Base64.BytesToBase64` | frontend/lib/duckdb-values.ts:293-301 | encoding through chunks of any size is encoding the whole |
| `Base64Texts.AlphabetIsInOrder` | frontend/lib/duckdb-values.ts:293-301 | the letters are those of table 1 of RFC 4648, in order |
| `Base64Texts.GroupsAreTheirBits` | frontend/lib/cell-value.ts:182-188 | a group's letters are the bits of its bytes, padded groups without the bits that fill no byte |
| `Base64Texts.DecodesExactlyWhenPadded` | frontend/lib/cell-value.ts:186-192 | decoding succeeds exactly for whole groups of letters with padding nowhere but at the end |
| `Base64.GroupsBack` | frontend/lib/cell-value.ts:182-188 | decoding the first whole groups of an encoding gives three bytes a group, or all there are |
| `Base64.DecodePrefix` | frontend/lib/cell-value.ts:178-194 | what is decoded: enough whole groups, cut to maxBytes; nothing where nothing is usable or it is not base64 |
| `Base64.PrefixOfEncoded` | frontend/lib/cell-value.ts:178-194 | decodePrefix of bytesToBase64 is the first maxBytes bytes, or all there are, for any non-empty bytes |
| `Base64.ByteLengthIsExact` | frontend/lib/cell-value.ts:172-175 | the computed length is the number of bytes, padded or not |
| `Base64.WrappedDecodesTheSame` | frontend/lib/cell-value.ts:160-162 | text wrapped by any white space, in either alphabet, decodes and measures the same once normalised |
| `RunGrouping.ComparisonIsPreorder` | frontend/lib/run-grouping.ts:187-199 | compareRuns is a total preorder for every column and direction, given that localeCompare is one |
| `RunGrouping.MissingComesLast` | frontend/lib/run-grouping.ts:181-192 | a run without a value comes after every run with one, in both directions |
| `RunGrouping.ComparesRight` | frontend/lib/run-grouping.ts:187-199 | for every column and direction, which of two runs may stand first: ascending the smaller value, descending the larger, ties by name, a missing value last |
| `RunGrouping.GroupRuns` | frontend/lib/run-grouping.ts:41-60 | the map of groups and the list of rows stay in step |
| `RunGrouping.GroupsAreATable` | frontend/lib/run-grouping.ts:36-60 | every run is in one row; a row is a lone run or all runs of a group in order; rows stand where their first runs stood |
| `RunGrouping.SortedTableIsRight` | frontend/lib/run-grouping.ts:207-221 | the sorted table is the runs rearranged, each group whole and sorted, rows ordered by their first runs, and its first run a least run |
| `RunGrouping.SortedTableReadsInOrder` | frontend/lib/run-grouping.ts:207-221 | the rows by their first runs, and the runs of every row, stand in that order |
| `RunGrouping.SortedTableHasEachGroupOnce` | frontend/lib/run-grouping.ts:212-221 | so every declared group is contiguous |
| `RunSelection.TakeFills` | frontend/lib/exp-workspace.ts:157-162 | adding a list up to a cap leaves exactly min(cap, all) names, or what was there |
| `RunSelection.DefaultRunSelection` | frontend/lib/exp-workspace.ts:150-176 | the four steps, in order, on one set |
| `RunSelection.SelectionIsRight` | frontend/lib/exp-workspace.ts:133-176 | with unique names: a subsequence of the runs, none archived, non-empty whenever a run is active, at most max(limit, 5), and of an exact size in every case |
| `RunSelection.BestIsSelectedExactlyWhen` | frontend/lib/exp-workspace.ts:139-143 | the best-ranked run is selected if and only if the limit is over three, or over the number of running runs, or it is among the first running ones |
| `RunSelection.RecentRunsComeFirst` | frontend/lib/exp-workspace.ts:126-170 | without a goal a run is passed over only for runs heard from no earlier, or, if it is not running, for one that is |
| `RunSelection.BetterRunsComeFirst` | frontend/lib/exp-workspace.ts:135-168 | with one, of two runs that have a value and are not running, one is selected without the other only if its value is no worse |
| `RunSelection.RankedFirstIsBest` | frontend/lib/exp-workspace.ts:91-105 | no active run has a better value of the goal metric than the first ranked one |

## Left out

- LfsProtocol.InvStep: the early return of RecordLFSObject for an oid already linked changes nothing and is no step; what counts as a declared size comes from the pointers and is a parameter.
- BlobLedger.TimelyRunsKeepThePromise: that nobody drops or replaces an index under a pipeline settling blobs is a condition on the run, since the code does not see to it; the runs of BlobLoss show what becomes of a blob otherwise.
- BlobLedger.FinishSettles: that the queue retries, or that an operator returns to a parked job, is an event that may happen and no promise.
- BlobLedger.InvStep: a prune takes the rows that are free at that moment; the database would let it wait for a locked row, which is the same prune a step later.
- Collector.Instance.Delete: a key the bucket refuses is refused through the run and keeps its bytes; a failure after the bytes went is a step of LfsProtocol.
- Collector.Instance.CollectLfs: the blob and staging passes have the same loop with other filters, and what is hard about blobs is in BlobLedger; the staging grace is left out with them.
- Resync.ResyncRun.Run: repositories are flattened to their refs, a blob that a ref's repository cannot publish, or a ref that cannot be queued, stays so through the run, and the numbers of repositories and refs checked are not kept.
- Resync.RepairedRunSettlesEveryRef: the listing taken at the start is the bucket; a collector beside the run is not modelled.
- Accounts.Store.AdminUpdate: authorisation, rate limits and lost connections come before or between the writes and are not modelled; here an update runs alone, and Sessions lets others come between its writes.
- Sessions.CookieLivesUntilRevoked: signatures do not forge and password hashes are compared as values; access tokens and SSH keys are independent credentials and are left out, as is a password change made with a token, which leaves no cookie.
- PagedList.NewestRequestWins: what a failed read shows is one value; the re-rendering of its message in another language is left out.
- Delimited.SplitDelimitedRecords: characters are Dafny's, not UTF-16 units, here and in the other text modules; none of the branches looks inside a character.
- Delimited.ToCsv: of what a row inherits, the names of Object.prototype itself; how a nested value is rendered is given.
- Tabular.ParseDelimited: the JSON Lines preview has the same shape around a JSON parser and is left out.
- CodeLines.SplitHastLines: what an element carries besides its children is one opaque mark; plainCodeLines and the highlighter are left out.
- ChunkedReader.Chunked.Read: the stream is in memory and a read of it is never short; _LimitedReader is left out as one branch.
- NoteSpans.EscapesMatterExactlyWhen: HTML tags and autolinks, which in CommonMark bind as tightly as code spans, and where a paragraph ends; a closing fence here may be followed by any white space.
- Notes.RewriteRunLinks: decoding percent escapes and building the URL are total functions given from outside.
- UnifiedDiff.ParseUnifiedDiff: line numbers are unbounded, where the source's are floating-point integers.
- DecimalColumns.TellsApartExactlyWhen: a number is its nearest 53-bit binary fraction, ties to even; that of a DECIMAL is far from the ends of the exponent range.
- DuckdbValues.TicksReadBack: a count given as a number is taken after its truncation to an integer.
- Base64.DecodePrefix: an environment without atob, and white space inside the text, which normalising removes first.
- RunGrouping.SortedTableIsRight: started_at is taken as parsed; a date that does not parse would make the comparison inconsistent.
- RunSelection.SelectionIsRight: a run's best value is given, and updated_at is taken as parsed.
- The sidebar's grouping repeats RunGrouping with another comparison; folding nested run configuration and the repository list's filters and paging were not modelled.
- HTTP, SQL, git, the write-ahead log, webhooks, flags, printed reports and logging appear as steps that succeed or fail, or not at all.
- React rendering, charts, dictionaries and DuckDB sessions are not part of this model.
