# Behaviour of the academy platform, modelled and proved

Dafny models of the parts of the platform whose correctness does not show in any single function,
with the properties they keep. `dafny verify dfyconfig.toml` checks everything.

* **Live-session sweep** (`LiveSessionRows`, `SweepProtocol`, `SweepOnce`, `SweepPass`, `SweepTask`, `SweepTiming`, `ClassEnd`). Every replica
  samples the media server once a minute and ends sessions whose publisher is gone. `LiveSessionRows`
  has the SQL statements, `SweepProtocol` any number of sweepers racing with each other, the teacher and an
  administrator over one session, `SweepTask` one tick as it changes the database, `SweepTiming` what the
  fifteen-minute window means for one sweeper, and `ClassEnd` what a teacher's own end of class records.
* **Data-key rotation** (`SecretBox`, `SecretRewrap`, `KeyRotation`, `FailedStartup`, `ForeignKeys`, `RolloutRun`). Startup authenticates every stored
  secret, then moves each under the current key by compare-and-swap. `SecretRewrap` is that scan over the mutable
  tables, with other replicas' writes before every one of its statements; `KeyRotation` is the staged rollout
  over a fleet that boots, scans, serves, writes and crashes in any order; `FailedStartup` is a startup that
  meets an unreadable secret in a fleet with any keys and any rows, and `ForeignKeys` which keys make it safe.
* **API client** (`Utf8`, `Percent`, `QueryPaths`, `BoundedReaders`, `ReadThrough`). The percent encoder over UTF-8
  (section 3 of RFC 3629, sections 2.1 and 2.3 of RFC 3986), the query parser and path builders, the bounded
  body readers, and the native read-through cache with its retry after a 401.
* **Markdown links** (`MarkdownUrls`). The link allowlist against the scheme states of the basic URL parser
  (section 4.4 of the WHATWG URL Standard), and the event rewriting.
* **Quizzes** (`SortedIds`, `Quiz`), **cover hash** (`CoverHash`), **breakout rooms** (`Breakout`, `BreakoutLinks`) and
  **menu selection** (`Selection`).

Where the source changes state step by step, so does the model: the database of the sweep, the secret
tables, the HTTP client with its cache and the breakout client are classes, and the loops of the readers,
path builders, quiz checks and hash are loops, each proved against a function that the lemmas are about.
The outside world (probe verdicts, transaction times, chunk sequences, HTTP replies, other replicas' writes,
nonces) enters as parameters over which every statement is universal.

## What the code does differently from its description

Each of these has a concrete input or run, and the exact condition, proved for all inputs.

1. *A publisher that returned between the probe and the write is not cut off.* It is, with a single sweeper and a database
   that answers at once (`SweepProtocol.ReturnedPublisherIsCutOff`), and even when a second sweeper has seen it and not
   yet committed (`SeenPublisherIsCutOff`). The UPDATE spares a session exactly when the last committed clock write is no older than
   its own timestamp minus the window (`UpdateSparesIff`); a lone sweeper's re-check therefore sees nothing that happened after its
   probe (`LoneRecheckSeesOnlyItsProbe`). Refreshes that did commit are honoured for a full window exactly when commits do not
   lag, since `now()` is the time a transaction begins (`HonoursRefreshesIffNoLag`); with lag `L`, for the window minus `L`.
2. *Only continuous, confirmed absence ends a session.* An inconclusive probe leaves the clock running, so after a media-server
   outage one inactive sample can end a session (`SweepTiming.OneInactiveSampleCanEnd`); exactly which visit ends
   it is `EndsExactlyWhen`. At the real cadence it is the fifteenth or sixteenth tick from the newest refresh
   (`EndsAtFifteenthOrSixteenthTick`; both occur, `FifteenthTickCanEnd`). The assertion that four intervals fit in the
   window guarantees four samples between only with the calls' latency added (`FourBetweenIff`).
3. *A session is swept once.* A PATCH can put an ended session back to scheduled. Its old clock survives, so once live again it is
   ended by the first inactive sample and finalized a second time (`SweepProtocol.RescheduledSessionIsSweptAgain`).
   Sessions are swept at most once, from their creation and from any ended state on, exactly if none is put back
   (`SweepOnce.SweptOnceIff`, `SweptAgainIff`), and always at most once per scheduled-to-live transition. If the teacher ends such a class,
   the first end time stays on record and attendance is closed at it: whoever joined since is credited with
   nothing (`ClassEnd.SecondClassKeepsFirstEnd`, exactly when: `ClassEnd.LastSegmentCountsIff`).
4. *Breakout updates arrive while open.* The server announces drafts with the same event while closed, and redrafting closes its layout while
   clients stay open (`Breakout.RedraftLeavesClientsOpen`). A client that joins agrees with one that missed nothing, then and
   after any later commands, exactly as `Breakout.HydratedAgreesLaterIff` says; the statement covers events that
   queue up between its subscription and its snapshot.
5. *A closed client has no assignment.* Events queued before the snapshot are delivered after it, so a client can end closed and
   in a room (`BreakoutLinks.JoinsClosedInARoom`; exactly when: `ClosedMeansUnassignedIff`).
   *A client knows its room.* One that was moved to the main room while away still believes to be in its old one when it is back
   (`ReturnsToAStaleRoom`), and so does one that never disconnects when a new draft leaves it out
   (`StaysInAStaleRoom`). `RightThroughoutIff` says exactly when a client is right throughout a run.
6. *A validated short-answer key is meaningful.* Validation lets blank accepted entries stand beside a real one
   (`Quiz.BlankBesideAnswerIsValid`); an empty reply is then correct, exactly when some accepted entry is blank
   (`BlankReplyIsCorrectIff`).
7. *A successful read is cached.* A body over 4 MiB is silently not stored and the older entry remains
   (`ReadThrough.OversizedBodyKeepsOlderEntry`, exactly when: `DeliveredIsCachedIff`). *Signing out clears the account's entries.*
   One can be there again afterwards exactly if a fetch for the account was waiting for the server at that moment
   (`OutlivesSignOutIff`).
8. *The preflight avoids a partially rotated database, also when a key is mistyped.* It stops a startup on any row that is unreadable when it
   begins and left alone (`FailedStartup.LockedRowStopsStartup`). It does not see what others write behind it: startups with given keys
   never fail on a row after the preflight, and never leave a partly rotated table, exactly if every other
   replica's current key is one of their two keys (`ForeignKeys.NeverFailsLateIff`; otherwise `LockedBehindPreflight`). Nor does it see a
   mistyped current key beside the right previous one: the startup completes, and replicas that were serving can
   no longer read the rows it moved (`MistypedKeyLocksOut`). They can exactly if the startup's current key is one
   of their two keys (`NeverLocksOutIff`).
9. *One replica's successful scan permits dropping the old key.* The runbook warns that it does not; `KeyRotation.EarlyDropLosesASecret`
   is a run that shows it, and `KeyRotation.DropIsSafeIff` says when it is safe.
10. *Network-path references are refused, local ones kept.* A tab or newline that the URL parser drops, between the two
    slashes, lets a network path through (`MarkdownUrls.TabBetweenSlashes`; exactly when: `NetworkPathAllowedIff`). Conversely a
    control character from DEL on before two slashes makes a path of the parser's refused (`ControlBeforeSlashes`); every other string
    without a colon that is no network path passes through (`RelativeToParserPasses`).

## Model

| member | source | states |
|---|---|---|
| SweepProtocol.RowStep | crates/backend/src/db/live_sessions.rs:335-395 | every step of every actor keeps: a live session has a start, the clock never precedes the start, and each sweeper in mid-pass works on a session that has started |
| SweepProtocol.RefreshStep | crates/backend/src/db/live_sessions.rs:335-363 | the clock always holds the refresh committed last, or the start of the session before any, however transactions overlap; each refresh commits at most `lag` after its timestamp |
| SweepProtocol.SweepEndsOnlyAbandoned | crates/backend/src/main.rs:657-715 | in every run with any number of sweepers, a sweep ends a session only when every committed refresh lies more than the window less the commit lag back, and only later than its start plus the window |
| SweepProtocol.HonoursRefreshesIffNoLag | crates/backend/src/db/live_sessions.rs:333-343 | no sweep ends a session within a full window of the commit of a refresh, over all runs, if and only if transactions commit with no delay; this is about committed refreshes, not about a publisher that is back |
| SweepProtocol.UpdateSparesIff | crates/backend/src/db/live_sessions.rs:366-395 | over all runs, an ending UPDATE spares a live session, returned publisher or not, if and only if the last committed clock write is no older than its own timestamp minus the window; otherwise the session is ended |
| SweepProtocol.ReturnedPublisherIsCutOff | crates/backend/src/main.rs:674-690 | for every lag, zero included, a run of one sweeper that ends a session whose publisher came back between its probe and its UPDATE |
| SweepProtocol.SeenPublisherIsCutOff | crates/backend/src/main.rs:657-690 | for every lag, a run in which another sweeper has already seen the returned publisher and the session is ended all the same |
| SweepProtocol.ReturnedPublisherIsNeverSafe | crates/backend/src/main.rs:676-679 | the promise to spare a returned publisher fails at every lag |
| SweepProtocol.LoneRecheckSeesOnlyItsProbe | crates/backend/src/db/live_sessions.rs:366-395 | with one sweeper, nothing after its probe can move the clock: the re-check spares the session exactly when its timestamp is within the window of the clock as it stood at the probe |
| SweepProtocol.PublishingSessionSurvives | crates/backend/src/main.rs:577-584 | in every run in which no probe says inactive, no sweep ever ends the session, whatever its age and even when every clock refresh fails |
| SweepProtocol.CountStep | crates/backend/src/main.rs:679-731 | every step keeps: finalizations done plus finalizations owed never exceed sweep endings, and endings never exceed the times the session went live |
| SweepProtocol.FinalizedOncePerSpell | crates/backend/src/main.rs:690-731 | over every run and all sweepers, attendance is finalized at most once per ending and a session is swept at most once per time it goes live |
| SweepProtocol.FinalizedOnce | crates/backend/src/main.rs:690-731 | a session never put back to scheduled is swept and finalized at most once, ever |
| SweepProtocol.RescheduledSessionIsSweptAgain | crates/backend/src/handlers/live_sessions.rs:970-976 | a run in which a PATCH reschedules an ended session: going live again, it is ended at once on its old clock and finalized a second time |
| SweepOnce.SweptOnceIff | crates/backend/src/main.rs:690-731 | over all runs, with any commit lag, every session is swept at most once if and only if none is put back to scheduled |
| SweepOnce.SweptAgainIff | crates/backend/src/handlers/live_sessions.rs:970-976 | from every reachable ended state, some run sweeps the session once more if and only if rescheduling is admitted |
| SweepOnce.StaysOver | crates/backend/src/main.rs:690-731 | from any state in which it is over, a session nobody reschedules stays over; no further sweep ends it, and only finalizations already owed are still done |
| SweepOnce.AnyLateUpdateReclaims | crates/backend/src/main.rs:674-715 | with any number of sweepers: whichever of them commits an UPDATE stamped more than a window after the last clock write, the session is over from then on, however the rest interleaves |
| SweepProtocol.AbandonedRun | crates/backend/src/main.rs:613-690 | an actual run reaches an ending UPDATE exactly one window after a refresh stamped at its start, with the refresh committed as late as the lag allows |
| SweepProtocol.SweepAndFinalize | crates/backend/src/main.rs:674-731 | an idle sweeper that finds no publisher on a session whose window has passed can always complete: the session ends and attendance is finalized once more |
| LiveSessionRows.GoingLive | crates/backend/src/db/live_sessions.rs:225-260 | only what is over is refused; the first start is kept, the path is the new one, end and clock stay |
| LiveSessionRows.EndingClass | crates/backend/src/db/live_sessions.rs:262-290 | only a class that never began or was called off is refused; the first end is kept, start, clock and path stay |
| LiveSessionRows.SeededThenEnded | crates/backend/src/db/live_sessions.rs:345-395 | the two calls for an absent publisher, in times alone: the clock that runs is kept, an unset one starts at the start, and the session ends exactly if it is live and more than fifteen minutes have passed |
| SweepPass.PassIsVisit | crates/backend/src/main.rs:622-733 | an undisturbed pass of the racing sweepers does to the row what a visit of the tick does, for every verdict, and finalizes exactly if it ended the session |
| SweepPass.RefreshesAreSeen | crates/backend/src/main.rs:657-672 | in every run without an active probe nothing ever refreshes the clock: it is unset or at the start |
| ClassEnd.EndingAgainChangesNothing | crates/backend/src/db/live_sessions.rs:262-290 | in every reachable state, ending an ended class leaves its row as it is, whether teacher or sweep ended it |
| ClassEnd.NoEndBeforeTheEnd | crates/backend/src/db/live_sessions.rs:225-290 | over every run without rescheduling, a session that has not ended has no end time on record |
| ClassEnd.LastSegmentCountsIff | crates/backend/src/handlers/live_sessions.rs:1366-1373 | an attendee who joined since any earlier end is credited up to the teacher's end if and only if there was no earlier end, and otherwise with nothing |
| ClassEnd.LastSegmentCounts | crates/backend/src/db/attendance.rs:93-145 | over every run without rescheduling, the teacher's end adds to every open attendance the time since it joined, to within half a second |
| ClassEnd.SecondClassKeepsFirstEnd | crates/backend/src/handlers/live_sessions.rs:1346-1373 | a run in which a class ended, rescheduled and held again keeps its first end time, and a full minute attended counts as zero |
| SweepTask.SecondsAreRounded | crates/backend/src/db/attendance.rs:129-132 | a span is credited in whole seconds to within half a second, halves up, and not at all when it is empty or negative |
| SweepTask.PathlessIsReclaimed | crates/backend/src/main.rs:648-656 | a live session without a path is ended by the first visit past fifteen minutes since its clock or start, whatever a probe would say, and by no earlier one |
| SweepTask.FailedCalls | crates/backend/src/main.rs:630-733 | an inconclusive probe or a failed call leaves undone exactly what it would have done |
| SweepTask.ClosedOnce | crates/backend/src/db/attendance.rs:107-145 | finalizing twice, by the teacher's handler and by a sweep, is the same as finalizing once, and never lowers the recorded time |
| SweepTask.Database.ListLiveForSweep | crates/backend/src/db/live_sessions.rs:314-331 | lists exactly the live sessions, each once |
| SweepTask.Database.MarkPublisherSeen | crates/backend/src/db/live_sessions.rs:335-343 | sets one session's clock, whatever its status, and changes nothing else |
| SweepTask.Database.SeedPublisherAbsence | crates/backend/src/db/live_sessions.rs:350-363 | starts a clock that is unset, from the session's start if it has one, and never moves a clock that runs |
| SweepTask.Database.EndIfPublisherGone | crates/backend/src/db/live_sessions.rs:370-395 | ends the session and says so exactly when it is live with its clock more than the window old; otherwise changes nothing |
| SweepTask.Database.FinalizeOpenForSession | crates/backend/src/db/attendance.rs:107-145 | closes every open attendance row of the session, adding the time since it joined to within half a second, and leaves all other rows as they were |
| SweepTask.Database.VisitSession | crates/backend/src/main.rs:622-733 | one candidate's visit, with any verdict and any call failing: its row and attendance become those of the specification, everything else stays |
| SweepTask.Database.Sweep | crates/backend/src/main.rs:605-734 | a tick treats sessions independently: every live one is visited once, the others keep their rows; the open attendance of exactly the sessions it ended is closed with the time since joining added, to within half a second, and no other row changes |
| SweepTiming.ClockIsLastSeen | crates/backend/src/db/live_sessions.rs:333-363 | while a session survives a history of visits, with calls at any times and any of them failing, the time absence is measured from is its newest successful refresh, or its initial clock |
| SweepTiming.EndsExactlyWhen | crates/backend/src/main.rs:651-731 | after any history, the next visit ends a live session if and only if it finds nobody, gets as far as the UPDATE, and that begins more than the window after the newest refresh began; the recorded end is its time |
| SweepTiming.FirstTooLateEnds | crates/backend/src/main.rs:674-731 | of visits without a refresh, the first whose UPDATE begins past the window ends the session, no other one does, and nothing later changes its recorded end |
| SweepTiming.EndsAtFifteenthOrSixteenthTick | crates/backend/src/main.rs:599-612 | at ticks 60 s apart with calls less than that after them, a session is never ended before the fifteenth tick from its newest refresh, and always by one from the sixteenth on that confirms absence |
| SweepTiming.FifteenthTickCanEnd | crates/backend/src/main.rs:599-612 | with the refresh 20 ms after its tick, the fifteenth tick ends the session exactly if its UPDATE begins more than 20 ms after its own |
| SweepTiming.FourInactiveSamplesBetween | crates/backend/src/main.rs:600-608 | if four intervals and the latency of calls fit in the window, at least four samples, all inactive, lie between the newest refresh and the tick that ends the session, in every conclusive history |
| SweepTiming.FourBetweenIff | crates/backend/src/main.rs:600-608 | for every interval and latency, that guarantee holds over all histories if and only if four intervals and the latency fit in the window |
| SweepTiming.OneInactiveSampleCanEnd | crates/backend/src/main.rs:630-656 | a history of one active, fifteen inconclusive and one inactive sample that ends the session |
| SweepTiming.AbandonedSessionIsReclaimed | crates/backend/src/main.rs:674-690 | seen from one sweeper: once the publisher is gone for good, a session has been ended by the first visit that confirms absence past the window, at most the gap between confirmed visits plus the latency after the window closed, whatever fails in between; others can only end it sooner (`SweepOnce.AnyLateUpdateReclaims`) |
| SecretBox.RewrapKeepsSecret | crates/backend/src/services/secret_box.rs:92-133 | rewrapping fails exactly on what cannot be opened, and otherwise yields a value under the current key that opens to the same secret |
| SecretRewrap.SecretTable.Interfere | crates/backend/src/db/secret_migration.rs:167-169 | other replicas' writes, whatever they are, never make the table differ from what they alone would have made of it by more than this startup's own moves under the current key |
| SecretRewrap.SecretTable.NextPage | crates/backend/src/db/secret_migration.rs:32-49 | after others have written, a page is at most 500 rows, in id order, with no row beyond the cursor skipped |
| SecretRewrap.SecretTable.Preflight | crates/backend/src/db/secret_migration.rs:91-165 | with others writing between the pages: writes nothing; succeeds only if every row left alone can be opened, having counted each of those once; fails only on a row that cannot be opened at that moment |
| SecretRewrap.SecretTable.TrySwap | crates/backend/src/db/secret_migration.rs:191-217 | with others writing before the UPDATE and before the re-read, writes exactly when the row still holds what was read; otherwise reports its present value or its absence; rows the others leave alone stay as they are |
| SecretRewrap.SecretTable.RewrapRow | crates/backend/src/db/secret_migration.rs:170-221 | four attempts under arbitrary writes by others: writes at most this row, once, and only its present secret under the current key; fails only on a value it cannot open or when every attempt lost its swap; on a row left alone the outcome is determined |
| SecretRewrap.PageDone | crates/backend/src/db/secret_migration.rs:50-57 | dealing with a page takes the scan from its old cursor to the end of the page: every row passed is settled, and the counts add up, with others writing throughout |
| SecretRewrap.PageAdvances | crates/backend/src/db/secret_migration.rs:50-57 | a page covers exactly the rows between the old cursor and the new one, so paging visits each row once and ends |
| SecretRewrap.SecretTable.RewrapPage | crates/backend/src/db/secret_migration.rs:53-56 | with others writing throughout, exactly the stale rows of the page that were left alone are written, and end under the current key with nothing else changed; a failure is on a touched row or on one that could not be opened |
| SecretRewrap.SecretTable.RewrapAll | crates/backend/src/db/secret_migration.rs:31-57 | the same for the whole table: of the rows left alone exactly the stale ones are written, all end under the current key, and the count is the number of rows written |
| SecretRewrap.RewrapStoredSecrets | crates/backend/src/db/secret_migration.rs:21-89 | with others writing to both tables throughout and any keys: an unreadable row left alone in either table means failure with nothing written; a failure after the preflight is on a row touched since the beginning and, if all that the others write can be opened, comes only of losing four swaps on it; no secret is ever changed; success settles every row. With nobody else writing: converges exactly if all is readable, with exact counts, and otherwise changes nothing |
| SecretRewrap.NeverLockedSince | crates/backend/src/db/secret_migration.rs:91-165 | after a preflight under concurrent writes that can be opened, no row is unreadable at any later moment, touched or not |
| KeyRotation.RowsStep | ops/README.md:181-201 | every step of the rollout keeps every stored value readable in its stage and equal to the application's last write |
| KeyRotation.PagesStep | crates/backend/src/db/secret_migration.rs:167-221 | whatever a scan holds in its page, read before others' writes or re-read after a lost swap, stays readable to it |
| KeyRotation.SweptStep | ops/README.md:194-196 | in the convergence stage every step keeps each scan's progress: rows behind its cursor are under the new key or still pending in its page |
| KeyRotation.ConvergenceStep | ops/README.md:194-199 | once a convergence scan has completed, no step brings an old-key row back |
| KeyRotation.RewrapHeadWrites | crates/backend/src/db/secret_migration.rs:182-205 | a rewrap step writes at most the row it holds, under its own current key, with the application's last write as the secret |
| KeyRotation.EveryReplicaReadsLastWrite | ops/README.md:181-201 | in every reachable state of the rollout, with crashes, concurrent writes and scans in progress, every running replica opens every row and reads exactly what the application last wrote: rewrapping loses no update |
| KeyRotation.StartupFailsOnlyOnContention | crates/backend/src/db/secret_migration.rs:167-221 | in every reachable state a startup never goes down for want of a key: only after losing the swap on one row four times |
| KeyRotation.OneConvergenceScanSuffices | ops/README.md:194-201 | one scan begun and completed in the convergence stage, interleaved with any writes, leaves every row under the new key |
| KeyRotation.DropIsSafeIff | ops/README.md:201-206 | in every reachable state, new-key-only replicas would read every last write if and only if no row is under the old key |
| KeyRotation.NextRowStartsAfresh | crates/backend/src/db/secret_migration.rs:170-183 | lost swaps are counted row by row: turning to another row, none is lost yet |
| RolloutRun.RolloutCompletes | ops/README.md:181-201 | a run through all stages, from a secret under the old key to a replica with the new key alone that reads it |
| KeyRotation.EarlyDropLosesASecret | ops/README.md:204-206 | a run in which a new replica has scanned and serves, and a secret is nevertheless unreadable without the old key |
| FailedStartup.StuckStep | crates/backend/src/db/secret_migration.rs:91-165 | no step of a fleet with any keys takes a startup past a row it cannot open and that stays as it is, and it writes nothing |
| FailedStartup.LockedRowStopsStartup | ops/README.md:185-199 | over every run of any fleet, whatever keys, rows and concurrent work: a startup with a row it cannot open, there from its beginning and left alone, never gets past its preflight, performs no write, and goes down with the page that reaches the row |
| ForeignKeys.NeverFailsLateIff | ops/README.md:185-199 | over every run of every fleet: startups with given keys never fail on a row after their preflight, and never after having moved another, if and only if every other replica's current key is their current or previous key |
| ForeignKeys.ReadyStep | crates/backend/src/db/secret_migration.rs:167-221 | with such keys around it, every step keeps what a startup holds readable to it: rows up to its preflight cursor, then all rows, and its page |
| ForeignKeys.LockedBehindPreflight | crates/backend/src/db/secret_migration.rs:22-26 | for any keys and any key they lack, a run in which a replica with that key writes behind the preflight and startup fails after moving another row |
| ForeignKeys.MovedIsReadableIff | crates/backend/src/services/secret_box.rs:92-133 | a row that a startup moves keeps its secret, and a replica can open it if and only if the startup's current key is one of its keys |
| ForeignKeys.NeverLocksOutIff | ops/README.md:185-199 | over every run of every fleet: a completed startup leaves a running replica able to open every row it moved if and only if the startup's current key is the replica's current or previous key |
| ForeignKeys.MistypedKeyLocksOut | ops/README.md:188-192 | a run in which the current key is mistyped beside the right previous key: the preflight passes, startup completes, and the replica that was serving can no longer read the row |
| Utf8.DecodesExactlyEncodings | crates/features-courses/src/api.rs:1902-1904 | decoding accepts exactly the byte sequences encoding produces, and inverts it: no overlong form, surrogate or out-of-range value |
| Utf8.DecodeInvertsEncode | crates/features-courses/src/api.rs:1902-1904 | for every string of Unicode scalar values, decoding its encoding gives it back |
| Utf8.EncodeConcat | crates/features-courses/src/api.rs:1897-1912 | encoding is a homomorphism, which is what lets the encoder work one character at a time |
| Percent.EncodedIsInert | crates/features-courses/src/api.rs:1897-1912 | the encoder's output holds unreserved characters and percent signs only: no separator, plus sign or space leaks |
| Percent.UrlEncodeIs | crates/features-courses/src/api.rs:1897-1912 | character by character: the 66 unreserved characters of RFC 3986 stand for themselves, all others for the triples of their UTF-8 bytes |
| Percent.EscapesAreUpperHex | crates/features-courses/src/api.rs:1905-1907 | each triple is a percent sign and two upper-case hex digits, the high half first |
| Percent.TripleReads | crates/features-courses/src/api.rs:4192-4194 | a percent triple reads as the byte its digits spell, in upper or lower case |
| Percent.OthersStandForThemselves | crates/features-courses/src/api.rs:4192-4194 | whatever is not such a triple stands for itself, a lone percent sign included |
| Percent.NotUtf8ComesBack | crates/features-courses/src/api.rs:4191-4194 | a value whose unescaped bytes are UTF-8 reads as that text; any other comes back as it was, with spaces for its pluses |
| Percent.PlusReadsAsSpace | crates/features-courses/src/api.rs:4191-4194 | encoded words with pluses between them read as the words with single spaces |
| Percent.UnescapeEscaped | crates/features-courses/src/api.rs:1905-1907 | unescaping a run of percent triples gives the bytes they were written from, whatever follows |
| Percent.UnescapeEncoded | crates/features-courses/src/api.rs:1897-1912 | unescaping an encoded string gives its UTF-8 bytes, across mixed literal and escaped characters |
| Percent.DecodeInvertsUrlEncode | crates/features-courses/src/api.rs:1897-1912 | for every string, decoding (with or without the plus-to-space step) inverts encoding |
| QueryPaths.SplitInvertsJoin | crates/features-courses/src/api.rs:4189-4191 | splitting undoes joining for any pieces free of the separator |
| QueryPaths.ParamsInvertPath | crates/features-courses/src/api.rs:1882-1893 | reading any built path gives back its parameters, in order, for every value |
| QueryPaths.DecimalReads | crates/features-courses/src/api.rs:1884-1886 | every number, negative ones included, reads back from how it is written, which has no leading zeros |
| QueryPaths.DecimalIsInjective | crates/features-courses/src/api.rs:1884-1886 | distinct numbers, negative ones included, are written differently |
| QueryPaths.AuditPath | crates/features-courses/src/api.rs:1877-1895 | the imperative builder writes the path of exactly the parameters that are present |
| QueryPaths.DeliveriesPath | crates/features-courses/src/api.rs:3844-3866 | the imperative builder writes the path of exactly the parameters that are present |
| QueryPaths.SearchPath | crates/features-courses/src/api.rs:4167-4170 | the search path carries the query and the limit as its two parameters |
| QueryPaths.AuditSpelledOut | crates/features-courses/src/api.rs:1877-1895 | the path itself: endpoint, names and separators |
| QueryPaths.DeliveriesSpelledOut | crates/features-courses/src/api.rs:3844-3866 | the path itself: endpoint, names and separators |
| QueryPaths.SearchSpelledOut | crates/features-courses/src/api.rs:4167-4170 | the path itself: endpoint, names and separators |
| QueryPaths.AuditPathIsUnambiguous | crates/features-courses/src/api.rs:1877-1895 | every option, absent or present with any value, is read back from the path, the limit as the number that was given, and distinct options give distinct paths |
| QueryPaths.DeliveriesPathIsUnambiguous | crates/features-courses/src/api.rs:3844-3866 | the same for three options: each is recovered, the limit as a number, and distinct options give distinct paths |
| QueryPaths.SearchPathReads | crates/features-courses/src/api.rs:4167-4170 | the query text and the limit, as a number, are read back from the search path |
| QueryPaths.InitialSearchQueryReadsBack | crates/features-courses/src/api.rs:4176-4197 | for every string and every suffix that is empty or begins with `&`, the page reads back exactly the text its `?q=` was encoded from |
| QueryPaths.InitialSearchQueryIsLookup | crates/features-courses/src/api.rs:4186-4197 | on any query the application builds, the reader finds the first parameter named `q` wherever it stands, or nothing |
| QueryPaths.InitialSearchQueryReadsForm | crates/features-courses/src/api.rs:4181-4194 | a search sent by a form, its encoded words joined with pluses and anything following, is read as the words with single spaces |
| QueryPaths.FirstQReads | crates/features-courses/src/api.rs:4186-4194 | a first `q` of any text at all is read as a form value |
| QueryPaths.QuestionMarksDoNotMatter | crates/features-courses/src/api.rs:4186-4186 | any number of leading question marks is the same as none |
| QueryPaths.BareQIsEmpty | crates/features-courses/src/api.rs:4187-4191 | a `q` without an equals sign reads as empty, and parameters of other names are passed over |
| BoundedReaders.BoundedBody | crates/features-courses/src/api.rs:313-336 | the buffer never exceeds the limit, and the result is that of the specification |
| BoundedReaders.BodyAcceptedIff | crates/features-courses/src/api.rs:313-336 | a body is accepted if and only if its declared length fits, no chunk breaks and the chunks together fit; it is then their concatenation |
| BoundedReaders.EightMebibytes | crates/features-courses/src/api.rs:259-336 | an answer is accepted up to 8 MiB to the byte, however it is cut into chunks |
| BoundedReaders.ErrorBody | crates/features-courses/src/api.rs:2732-2747 | the error reader returns the first 64 KiB, or everything if shorter, and fails exactly when the stream breaks before that |
| ReadThrough.Client.Get | crates/platform-bridge/src/offline.rs:215-254 | a lookup finds an entry that is not expired and removes one that is |
| ReadThrough.Client.Put | crates/platform-bridge/src/offline.rs:162-198 | a write replaces the key's entry unless the body is too large or the write fails, which may lose the older entry, and may evict others |
| ReadThrough.Client.DoFetch | crates/features-courses/src/api.rs:338-402 | the answer, the cache and the requests sent by the stepwise fetch, for every behaviour of the network and the store, are those of the specification |
| ReadThrough.Client.FetchJson | crates/features-courses/src/api.rs:404-433 | at most two requests and one refresh; the second request goes out only after the first was answered 401, and carries the refreshed token |
| ReadThrough.CachedWasDelivered | crates/features-courses/src/api.rs:344-400 | over every interleaving of fetches, each with its own decoder and its look and its commit apart, and of sign-outs, the cache holds only bodies that a successful response delivered for the same key |
| ReadThrough.AnswersWereDelivered | crates/features-courses/src/api.rs:338-402 | over every such interleaving an answer decodes a body some successful response delivered, to itself or for the same key |
| ReadThrough.FreshWasDelivered | crates/features-courses/src/api.rs:344-353 | what a fetch finds fresh before asking the server was delivered for the same key |
| ReadThrough.UndisturbedFetch | crates/features-courses/src/api.rs:338-402 | a look and a commit with nothing in between leave the cache as the fetch in one piece does |
| ReadThrough.OutlivesSignOutIff | crates/platform-bridge/src/offline.rs:298-324 | signing out removes the entries, and one can be there again with nobody signed in to the account if and only if a fetch for it is waiting at that moment |
| ReadThrough.FailuresNeverWrite | crates/features-courses/src/api.rs:367-392 | without a successful response no entry appears or changes; one can only be dropped, and only when expired |
| ReadThrough.RefusalsAreNotMasked | crates/features-courses/src/api.rs:381-392 | an answer below 500 that is not a success reaches the caller as such: no cached body replaces it |
| ReadThrough.AnswerLasts | crates/platform-bridge/src/offline.rs:162-254 | over two fetches under one key, in times and policies only: a stored body answers alone until its fresh window closes, then while the server is down until its stale window closes, and after that the answer is a network error and the entry is gone |
| ReadThrough.AnswersByStatus | crates/features-courses/src/api.rs:359-401 | the answer by status and chunks when no cached body stands in: any 2xx read in full is decoded, another status read in full is reported, everything else is a network error |
| ReadThrough.EmptyReadsAsNull | crates/features-courses/src/api.rs:305-311 | an empty body decodes as `null`, any other as what it is |
| ReadThrough.UnreadableCacheIsNone | crates/features-courses/src/api.rs:344-353 | a cache that cannot be read gives the answers of none at all |
| ReadThrough.DeliveredIsCachedIff | crates/platform-bridge/src/offline.rs:162-198 | exactly when a delivered body is what the cache holds next; a body over 4 MiB is not stored and does not displace the older one, which a failed write may |
| ReadThrough.OversizedBodyKeepsOlderEntry | crates/platform-bridge/src/offline.rs:169-171 | a fetch that delivers one byte over the limit answers with the new body and leaves the older entry in the cache |
| MarkdownUrls.VerdictWithColonFirst | crates/design-system/src/markdown_editor.rs:70-102 | when a colon comes before every `/`, `?` and `#`, the verdict depends on the visible, lower-cased characters before it and on nothing else |
| MarkdownUrls.VerdictIgnoresDisguise | crates/design-system/src/markdown_editor.rs:89-101 | inserting or removing white space and control characters up to the colon, or changing ASCII case there, never changes the verdict |
| MarkdownUrls.SchemeSpelling | crates/design-system/src/markdown_editor.rs:89-101 | wherever the standard's scheme state succeeds, it reads the same scheme as the allowlist does |
| MarkdownUrls.AgreesWithUrlStandard | crates/design-system/src/markdown_editor.rs:70-106 | on every string in which the standard's parser finds a scheme, the verdict is yes if and only if that scheme is http, https or mailto |
| MarkdownUrls.AllowedMeansKnownScheme | crates/design-system/src/markdown_editor.rs:70-106 | every accepted string has no scheme, or one of the three |
| MarkdownUrls.NetworkPathAllowedIff | crates/design-system/src/markdown_editor.rs:77-87 | of the strings the standard's parser takes for network paths, exactly those are allowed that have a tab or newline between the slashes and no colon before every delimiter |
| MarkdownUrls.TabBetweenSlashes | crates/design-system/src/markdown_editor.rs:77-87 | such a string, allowed although the parser drops the tab |
| MarkdownUrls.RelativeIsAllowed | crates/design-system/src/markdown_editor.rs:104-105 | whatever after trimming does not begin with two slashes or backslashes and has no colon before its first delimiter is allowed and left as it is |
| MarkdownUrls.NoColonAllowedIff | crates/design-system/src/markdown_editor.rs:77-105 | a string without a colon is refused exactly if it begins with two slashes or backslashes after trimming |
| MarkdownUrls.RelativeToParserPasses | crates/design-system/src/markdown_editor.rs:77-105 | a string without a colon that the standard's parser does not take for a network path passes through, unless it begins with a control character from DEL on |
| MarkdownUrls.ControlBeforeSlashes | crates/design-system/src/markdown_editor.rs:71-87 | such a string that is refused |
| MarkdownUrls.SanitizeIs | crates/design-system/src/markdown_editor.rs:62-68 | an allowed target stays, a refused one becomes the empty fragment |
| MarkdownUrls.SanitizedIsAllowed | crates/design-system/src/markdown_editor.rs:59-68 | a sanitized target is always allowed, and sanitizing again changes nothing |
| MarkdownUrls.NeutralizedIsSafe | crates/design-system/src/markdown_editor.rs:20-57 | any rewritten stream holds no raw HTML and only allowed link and image targets, keeps its nesting, and is a fixed point |
| MarkdownUrls.NeutralizeChangesOnly | crates/design-system/src/markdown_editor.rs:27-57 | event by event: raw HTML becomes text word for word, a refused link or image target is replaced and nothing else of it, every other event is the same |
| MarkdownUrls.NestingIsKept | crates/design-system/src/markdown_editor.rs:27-57 | the rewriting leaves the same tags open, in the same order, after every stream, balanced or not |
| MarkdownUrls.SafeIsUnchanged | crates/design-system/src/markdown_editor.rs:27-57 | a stream with nothing to neutralize comes through as it was |
| SortedIds.EqualAsSets | crates/core-types/src/quiz.rs:161-169 | sorting and deduplicating both sides compares them as sets, for all orders and duplicates |
| SortedIds.HasDuplicates | crates/core-types/src/quiz.rs:84-89 | the length test after sort and dedup fails exactly when two ids are equal |
| SortedIds.ArePermutations | crates/core-types/src/quiz.rs:116-122 | comparing the sorted lists is comparing them as multisets |
| SortedIds.DedupedSorted | crates/core-types/src/quiz.rs:85-86 | dedup of a sorted list keeps each member once, in order, and its length exactly when there were no duplicates |
| SortedIds.SortedDistinctUnique | crates/core-types/src/quiz.rs:164-168 | a set has only one sorted duplicate-free listing |
| SortedIds.SortedUnique | crates/core-types/src/quiz.rs:118-120 | a multiset has only one sorted listing |
| Quiz.WordsOfJoined | crates/core-types/src/quiz.rs:147-152 | splitting what words were joined into gives the words back |
| Quiz.WordsOfSpaced | crates/core-types/src/quiz.rs:147-151 | however the words of a text are spaced, they are found, and nothing else is |
| Quiz.SpacedFromWords | crates/core-types/src/quiz.rs:147-151 | every text is its words, spaced |
| Quiz.WhiteIs | crates/core-types/src/quiz.rs:148-148 | white space is the 25 characters of the Unicode property |
| Quiz.BlankIff | crates/core-types/src/quiz.rs:90-90 | a text is blank exactly if every character of it is white space |
| Quiz.NormalizedIsTidy | crates/core-types/src/quiz.rs:146-152 | a normalized answer has no leading, trailing or doubled white space, and normalizing it again changes nothing |
| Quiz.NormalizeEqualIff | crates/core-types/src/quiz.rs:146-152 | two texts normalize alike if and only if their words agree up to case |
| Quiz.CheckChoices | crates/core-types/src/quiz.rs:80-94 | passes exactly when there are two choices or more, distinguishable by id and none blank, and otherwise reports the first of these that fails |
| Quiz.Validate | crates/core-types/src/quiz.rs:77-132 | accepts exactly the prompts with good choices and a gradable key (for an ordering: a permutation of the items), and says what is wrong with any other |
| Quiz.WellFormedMeans | crates/core-types/src/quiz.rs:77-132 | what is accepted, without the validator: two choices or more, as many ids as choices, some visible text in each, and by kind a key among the ids, a nonempty subset, an order of their number and members, or a visible accepted answer |
| Quiz.AnyAccepted | crates/core-types/src/quiz.rs:172-180 | finds an accepted answer exactly when one has the same words up to case |
| Quiz.GradeAnswer | crates/core-types/src/quiz.rs:154-182 | grades by the meaning of the key: equality, equality as sets, the exact order, or the same words; no grade for an answer of another shape |
| Quiz.GradeMeans | crates/core-types/src/quiz.rs:154-182 | an answer is graded exactly if it fits its prompt; picks count as sets, orders place by place, texts by their normal form |
| Quiz.ValidatedIsAnswerable | crates/core-types/src/quiz.rs:77-182 | every validated prompt has an answer graded correct |
| Quiz.CorrectAnswersAreOffered | crates/core-types/src/quiz.rs:77-182 | an answer graded correct on a validated prompt uses offered ids only; an order uses each exactly once |
| Quiz.CorrectAnswerIsUnique | crates/core-types/src/quiz.rs:156-182 | outside short answers only one answer is correct, as a set for many picks |
| Quiz.BlankReplyIsCorrectIff | crates/core-types/src/quiz.rs:125-130 | a blank reply is graded correct if and only if some accepted entry is blank |
| Quiz.BlankBesideAnswerIsValid | crates/core-types/src/quiz.rs:125-130 | a prompt with accepted entries "m" and "" passes validation and grades an empty reply correct |
| CoverHash.HashSeed | crates/design-system/src/course_cover_art.rs:41-48 | the wrapping loop computes the hash that the lemmas are about, from the seed's UTF-8 bytes |
| CoverHash.KnownHashes | crates/design-system/src/course_cover_art.rs:41-48 | the published FNV-1a values for no bytes and for the letter a |
| CoverHash.XorBitIs | crates/design-system/src/course_cover_art.rs:44-44 | the exclusive-or, bit by bit |
| CoverHash.StepIsPermutation | crates/design-system/src/course_cover_art.rs:44-45 | for a given byte a step is a permutation of the 64-bit states, with an explicit inverse |
| CoverHash.StepSeparatesBytes | crates/design-system/src/course_cover_art.rs:44-45 | from one state, different bytes lead to different states |
| CoverHash.HashIsPermutation | crates/design-system/src/course_cover_art.rs:41-48 | for fixed bytes the whole hash is a permutation of the 64-bit states, undone from the last byte to the first |
| CoverHash.GradientIdIsInjective | crates/design-system/src/course_cover_art.rs:83-85 | different hashes give different sixteen-digit ids |
| CoverHash.OneByteApartNeverCollide | crates/design-system/src/course_cover_art.rs:41-85 | seeds that differ in exactly one byte, anywhere, always get different gradient ids |
| CoverHash.HexShows | crates/design-system/src/course_cover_art.rs:85-85 | each place of the id shows the hex digit of its weight, in lower case |
| CoverHash.GradientIdIs | crates/design-system/src/course_cover_art.rs:85-85 | the id is `ccg` and sixteen digits |
| CoverHash.CoverIs | crates/design-system/src/course_cover_art.rs:82-88 | the palette index is the remainder by six, the motif offset seventy plus that of the hash without its low 17 bits by 260 |
| CoverHash.CoverRanges | crates/design-system/src/course_cover_art.rs:80-88 | the palette index is in bounds and the motif between 70 and 329, and every combination occurs |
| Breakout.BreakoutClientState.Follow | crates/features-courses/src/breakout_rooms.rs:49-101 | the client object, handling any sequence of events through its five methods, ends in the view the lemmas are about, in every field |
| Breakout.ConnectedClientInStep | crates/backend/src/handlers/breakout.rs:188-259 | over every server run, a client that misses nothing holds the server's rooms, is open whenever the server is, and is unassigned when closed |
| Breakout.SeenAllIs | crates/features-courses/src/breakout_rooms.rs:49-101 | what a client sees after any events is settled by the last reset, the last rooms and the last word on its own room among them |
| BreakoutLinks.ReachedInv | crates/backend/src/handlers/live_sessions.rs:3062-3209 | every run keeps the client, or the queue it is about to be sent, in step with the server, however the connection breaks, also in the middle of a queue |
| BreakoutLinks.ConnectedView | crates/backend/src/handlers/live_sessions.rs:3062-3209 | in every reachable state, whatever was lost and whatever queued up while joining, a connected client is open whenever the server is, open otherwise only while a draft is pending, and its rooms are the server's, or none exactly if the server has none or it joined on a draft and nothing was announced since it subscribed |
| BreakoutLinks.ClosedMeansUnassignedIff | crates/features-courses/src/breakout_rooms.rs:61-75 | over every run: a closed client never has an assignment if and only if no snapshot of the run is closed while the queued events delivered after it, none of which opens or closes, end with one that names a room |
| BreakoutLinks.JoinsClosedInARoom | crates/backend/src/handlers/live_sessions.rs:3062-3209 | a run: subscribed while open, assigned, then a new draft before the snapshot is taken; the client ends closed and in a room |
| Breakout.HydrationEqualsReplayIff | crates/backend/src/handlers/live_sessions.rs:3175-3214 | whatever was missed, hydration gives the layout of a client that missed nothing if and only if the server holds no draft |
| Breakout.HydratedAgreesLaterIff | crates/backend/src/handlers/live_sessions.rs:3062-3209 | whatever was missed, and whatever was carried out while joining and since: the client has the layout of one that missed nothing if and only if something was opened or closed since it subscribed, or its snapshot agreed with that client on being open and something was announced since or no draft was held |
| Breakout.AgreementLasts | crates/features-courses/src/breakout_rooms.rs:49-101 | clients with the same layout keep the same layout after every later event |
| Breakout.AgreeAfterIff | crates/features-courses/src/breakout_rooms.rs:49-101 | exactly when two clients that receive the same events agree afterwards |
| Breakout.CaughtUpAtNextOpenOrClose | crates/backend/src/handlers/live_sessions.rs:4390-4485 | the next open or close brings every hydrated client level with one that missed nothing |
| Breakout.RedraftLeavesClientsOpen | crates/backend/src/handlers/live_sessions.rs:4237-4252 | drafting anew while open closes the server's breakouts and leaves every connected client open |
| BreakoutLinks.HydratedAssignmentIff | crates/backend/src/handlers/live_sessions.rs:3192-3209 | in every reachable state, hydration restores the assignment on record unless the layout is open, does not list the user, and the client remembers a room |
| BreakoutLinks.RightThroughoutIff | crates/backend/src/handlers/breakout.rs:145-226 | over every run: a client knows its own assignment whenever it is connected if and only if, believing to be in a room, it is never announced a draft that does not list it, and never joins a layout that does not list it with the queue, or else its memory and an open snapshot, naming a room |
| BreakoutLinks.ReturnsToAStaleRoom | crates/backend/src/handlers/live_sessions.rs:3192-3209 | a run: drafted, opened, moved to the main room while away; back again, the client still believes to be in its room |
| BreakoutLinks.StaysInAStaleRoom | crates/backend/src/handlers/live_sessions.rs:4257-4315 | a run without any disconnection: a new draft leaves the user out and the client keeps its old room |
| Breakout.AssignMovesOneUser | crates/backend/src/handlers/breakout.rs:120-143 | assigning puts one user in exactly the target room, or none, and moves nobody else |
| Breakout.AssignedMembers | crates/backend/src/handlers/breakout.rs:133-142 | the member lists afterwards, in order: the user last in the target room and nowhere else, the others as they stood |
| Breakout.AssignedThenOpened | crates/backend/src/handlers/breakout.rs:123-170 | a room of a draft or of an open layout can be assigned, and once open it is where the server finds the user |
| Breakout.ClosingTellsEverybody | crates/backend/src/handlers/breakout.rs:228-259 | closing is always possible and tells everybody, and those in a room that they are back in the main one |
| Breakout.RefusedIff | crates/backend/src/handlers/live_sessions.rs:4209-4428 | a command has no effect and is announced to nobody exactly if it lacks rooms or a layout, or names a room that is not there |
| Selection.NoOverflowIff | crates/design-system/src/csp_overlays.rs:370-376 | for up to 2^30 ids and any step, the computation stays within 32 bits if and only if adding the step to the index does; it does for every step below 2^30 |
| Selection.RemTwiceIsMod | crates/design-system/src/csp_overlays.rs:376-376 | Rust's two truncating remainders make the remainder that is never negative, for all operands |
| Selection.StepWraps | crates/design-system/src/csp_overlays.rs:366-378 | for every step, the selection lands on the id at index plus step modulo the length |
| Selection.UnknownEnters | crates/design-system/src/csp_overlays.rs:370-374 | an unknown selection enters at the first id going down and at the last going up |
| Selection.UnknownLands | crates/design-system/src/csp_overlays.rs:366-378 | where a step of any size lands from an unknown selection, and that there is none to land on without ids |
| Selection.StepManyIs | crates/design-system/src/csp_overlays.rs:366-378 | `k` steps of any size from index `i` land on `i` plus `k` times the size, modulo the length |
| Selection.StepsAreInverse | crates/design-system/src/csp_overlays.rs:366-378 | a step and its opposite undo each other, whatever the size |
| Selection.RoundVisitsEachOnce | crates/design-system/src/csp_overlays.rs:366-378 | a full round returns to its start and passes every id exactly once |

## Left out

- SweepProtocol.AbandonedRun: gives one run per commit delay as a witness; that all runs obey the bound is `SweepEndsOnlyAbandoned`.
- SweepTiming.AbandonedSessionIsReclaimed: the time bound is that of one sweeper's own visits; several sweepers are in `SweepOnce.AnyLateUpdateReclaims`.
- SecretRewrap.SecretTable.RewrapRow: the four attempts at one row share a nonce, of which at most one is used.
- ReadThrough.Client.Put: expiry times add without saturating as 64-bit arithmetic does; which entries the quota evicts is arbitrary.
- KeyRotation.EveryReplicaReadsLastWrite: the two secret tables are one id space there, and an application write seals and commits in one step.
- BreakoutLinks.ReachedInv: a connected client is sent events as commands are carried out; only what comes before its snapshot queues up.
- Rows of a session other than status, times, clock and path; publish nonces, transport and recording columns, and the checks before go-live.
- Transactions as anything but a start time, a commit and one atomic statement; row-level security contexts, and the failure raised when a secret becomes invisible in its own.
- Authenticated encryption: a ciphertext is its key, nonce and plaintext; context binding, randomness and a process without a current key, which neither scans nor encrypts, are not modelled.
- Unicode tables: lower-casing is a parameter. Links assume only that it is right on ASCII; quiz answers assume it works word by word and yields words it leaves alone.
- The resolution of references without a scheme against a base; the markdown parser and the HTML writer, which stand around an arbitrary event stream.
- The wording of validation errors; error bodies and messages of the HTTP client; JSON, which is an arbitrary partial function of the body; serializing the request.
- The cache policy by path, the cache key, which is taken as given, and the files behind the cache, whose damaged entries count as absent or failed reads.
- Stripping a quiz's answer key for students, which is a field-by-field copy.
- Sorting is the library's: the model sorts by insertion, and only that the result is the sorted permutation is used.
- Room ids, names and round-robin splitting of breakouts, rate limits and permission checks on commands.
- User interface, routing, startup configuration, role tables, payments, notifications and storage: wiring, or properties visible in one body.
