# Comics: a verified model of update, search and normalisation

This project models the core of a comic search system and proves what it promises. Four pieces of
the system are modelled, each in the form its source has, and then put together.

- **The normaliser** (`Words.dfy`) turns a phrase into tokens: lower-case it rune by rune, keep the
  `[a-z0-9]` runs, drop stop words, stem, drop repetitions. Lowering, the stop-word list and the
  stemmer are arbitrary functions; the stemmer may fail.
- **The search core** scores and ranks comics (`Ranking.dfy`, `Dominance.dfy`), keeps an inverted index
  in memory (`Index.dfy`), searches it or the database (`Search.dfy`) and lists the table page by page
  (`Paging.dfy`). The table is a map from id to comic; a SELECT without ORDER BY may list it in any
  order; `sort.Slice` is known by its contract only, so it may be unstable.
- **The rebuilders** (`Rebuild.dfy`) are two loops that read the table outside the index lock and
  install a build inside it. They are written as loops and, together, as a transition system with the
  history of the table as part of the state. A failed read, a stopped loop and a lost event are steps.
- **The updater**. `Pool.dfy` is the transition system of one `Update`: the dispatcher, the bounded
  channel, up to 64 workers and a cancellation that may come between any two steps. A schedule is a
  list of steps, so a statement about all schedules covers all interleavings. `PoolSafety.dfy` proves
  what every step keeps, `Schedules.dfy` when the schedule cannot be seen in the table,
  `Convergence.dfy` what one update leaves to the next. `Updater.dfy` is the service as a program, whose
  loop lets the scheduler choose any enabled move, and whose termination and deadlock freedom are part
  of its verification. `Calls.dfy` lets any number of `Update` and `Drop` calls share one service.
- `EndToEnd.dfy` joins the pieces; `Catalog.dfy` holds the shared data types.

The comic site, the normaliser as seen by the updater, and the database are given by their answers: a
fixed answer per comic number as long as the context is not cancelled, and possibly a failure
afterwards. One SQL statement is one atomic step.

The reference definitions (what a phrase's tokens are, how a comic scores and ranks, what a page holds,
which row a job stores, how a call ends) are each characterised by a lemma that does not use them:
`NormExact`, `ScoreExact`, `RankedExact`, `GetAllComics`, `LoopExact`, `RowsAreAnswers` with
`AnswersAreStored`, `PoolsWorkToAnswer` and `RepliesMean`.

Three facts of the code shape the statements.

- A row is stored under the number the site answers with, not under the number asked for, and it
  replaces a stored row with that number. So the final table is schedule-independent only on a
  condition, which `ScheduleIndependentIff` gives exactly, and stored rows are kept only on another one,
  which `KeepsRowsIff` gives exactly. `UpdateWrites`, `NextRunAttempts`, `NextRunRetries`, `Settled`,
  `PossibleRowIff` and `AlwaysFoundIff` hold for every site. The statements a user would expect (rows are
  only added, exactly the failed ids are retried, the row count is the last number) need a site that
  answers each missing id with its own number, `AnswersItsId`; the table below says where.
- `Update` may report success with jobs left in the channel, when the context is cancelled after the
  last send. So a success means that every missing id was done exactly when no id was missing
  (`SuccessMeansDoneIff`): for every other start `SuccessMayLoseLast` builds a run that reports success
  and loses the last job. Without a cancellation nothing is lost (`SuccessAccountsForJobs`).
- An index may go back in time, because an older read may be installed after a newer one.
  `IndexMayGoBack` is such a run from the start of the service, for any two contents of the table;
  `StaysCurrentIff` says exactly when it cannot happen.

README.md:221-233 of the system promises that breadth of coverage outweighs field weights. The code
keeps that promise for queries of up to 13 tokens and for no longer ones: `CoverageDominatesIff` says so
of scores, `CoverageRanksFirstIff` of phrases as users type them and of the rankings they see. The
phrases that break it consist of numbers ("1 11 111 ..."), which no stemmer or stop-word list touches.

## Model

| member | source | states |
|---|---|---|
| Words.WordSet.Add | search-services/words/words/set.go:12-18 | The word is in the set afterwards, nothing else changed, and the answer says whether it was new. |
| Words.WordSet.Has | search-services/words/words/set.go:20-22 | Answers membership. |
| Words.Norm | search-services/words/words/words.go:13-61 | For any stemmer and stop-word list the output is the list of first occurrences of the kept and stemmed maximal `[a-z0-9]` runs of the lowered phrase. |
| Words.NormExact | search-services/words/words/words.go:13-61 | Read off the lowered text: a token is a maximal run of a-z and 0-9 that is all digits, or the non-empty stem of another run that is no stop word, or that run itself if its stem fails or is empty; none is repeated, and that one comes first which the text gives first. |
| Words.IsNumber | search-services/words/words/words.go:28-34 | The digit loop answers true exactly for all-digit tokens. |
| Words.CleanIsSpaced | search-services/words/words/words.go:15-16 | The cleaned text consists of a-z, 0-9 and single spaces. |
| Words.FieldsAreRuns | search-services/words/words/words.go:15-17 | Replacing each stretch of other characters by one space and splitting at white space yields exactly the maximal runs. |
| Words.RunsIff | search-services/words/words/words.go:11-17 | The runs are the only way to read a text as gap, run, gap, ..., gap with non-empty maximal runs; both directions. |
| Words.SplitYieldsRuns | search-services/words/words/words.go:22-25 | No token is empty and each consists of kept characters, so the empty-token test never fires. |
| Words.DedupeIff | search-services/words/words/set.go:12-18 | A list is the deduplication exactly when it has the same elements in the strict order of their first occurrences; it repeats nothing. |
| Words.NormIsHomomorphic | search-services/words/words/words.go:13-61 | Normalising p + separator + q is deduplicating the normal forms of p and q put together, for any stemmer and stop-word list. |
| Ranking.MakeSet | search-services/search/core/service.go:198-207 | The map answers true exactly for the non-empty elements. |
| Ranking.ScoreComic | search-services/search/core/service.go:157-195 | The loop computes the score: 100 per distinct covered token plus 5, 3 and 1 per query position found in title, alt and words, 0 if nothing is covered. |
| Ranking.ScoreExact | search-services/search/core/service.go:157-195 | For every comic and query: 100 for each different non-empty token of the query in some field, and 5, 3 and 1 for each place of the query whose token is in title, alt and words; 0 without a common token. |
| Ranking.SortSlice | search-services/search/core/service.go:137-142 | The contract of the library sort: a permutation with no inversion under the comparator; nothing about stability. |
| Ranking.RangComics | search-services/search/core/service.go:117-154 | The output is the cut of some correct arrangement of the positive-score comics, higher scores first and of equal scores the lower id; the total is their number modulo 2^32. |
| Ranking.RankIsArrangement | search-services/search/core/service.go:136-142 | The reference ranking is a permutation of the hits ordered by score descending, then id ascending. |
| Ranking.RankingDeterminedIff | search-services/search/core/service.go:136-142 | All correct sorts agree, and with the reference ranking, if and only if no two different hits tie on score and id. |
| Ranking.RankOfSet | search-services/search/core/service.go:117-154 | For distinct ids the ranking and the total depend only on which positive-score comics are present, not on row order. |
| Ranking.CutIsPrefixIff | search-services/search/core/service.go:134-147 | The cut is the first min(limit, length) hits exactly when the length is within the limit or its low 32 bits exceed it. |
| Ranking.CutOfTableIff | search-services/search/core/service.go:134-147 | For the rows of a table, whose key is a 32-bit integer, the cut is as meant exactly for fewer than 2^32 hits. |
| Ranking.FullTableIsNotCut | search-services/search/core/service.go:134-147 | The one remaining case: a full table whose rows all hold the token is answered whole, whatever the limit, with the total 0. |
| Ranking.SmallerLimitPrefix | search-services/search/core/service.go:144-147 | Below 2^32 hits a smaller limit answers a prefix of a larger one. |
| Dominance.FieldWorth | search-services/search/core/service.go:10-16 | A single match scores 105 in the title, 103 in the alternative text, 101 in the words. |
| Dominance.ScorePerToken | search-services/search/core/service.go:157-195 | Without repeated tokens a score lies between 101 and 109 per covered token. |
| Dominance.CoverageDominatesIff | README.md:221-233 | Covering more always scores higher for all queries of n distinct tokens if and only if n is at most 13. |
| Index.InvertedIndex.Build | search-services/search/core/index.go:21-55 | The whole new state is the build of the given list: each posting list, and the documents by id with the last one winning. |
| Index.InvertedIndex.DocsForTokens | search-services/search/core/index.go:57-80 | Answers, strictly ascending, exactly the ids under which some comic of the list matches the query. |
| Index.InvertedIndex.DocsByIDs | search-services/search/core/index.go:82-92 | Answers the present documents of the ids, in order. |
| Index.AddField | search-services/search/core/index.go:29-48 | One field's loop lists the id once more under each new non-empty token and nowhere else. |
| Index.LastWins | search-services/search/core/index.go:25-26 | Of several comics with one id the last one is kept. |
| Index.PostingExact | search-services/search/core/index.go:28-48 | With distinct ids an id stands under a token exactly once if its comic holds the token in some field, and not at all otherwise. |
| Index.PostingInOrder | search-services/search/core/index.go:28-48 | A posting list names the comics that hold the token in the order of the list. |
| Index.PresentInOrder | search-services/search/core/index.go:82-92 | Looking up ids keeps their order. |
| Index.MatchedByPosting | search-services/search/core/index.go:64-70 | The ids collected from the posting lists of the query tokens are those under which some comic of the list covers a query token. |
| Index.PostingsConserved | search-services/search/core/index.go:21-55 | The lengths of all posting lists add up to the numbers of distinct non-empty tokens of all comics. |
| Search.PlanOf | search-services/search/core/service.go:49-68 | Which input gets which refusal, each exactly, limits above 100 among them; a query that is not refused has the normalised tokens, at least one, and the limit given, or 10 for 0. |
| Search.Service.RebuildIndex | search-services/search/core/service.go:35-43 | A good read is built whole; a failed read changes nothing. |
| Search.Service.Find | search-services/search/core/service.go:49-78 | Every refusal in the order of the code; otherwise a ranking of the rows the database answers. |
| Search.Service.IndexedSearch | search-services/search/core/service.go:81-114 | With any rebuilds installed between its two locked sections: every refusal, else the cut ranking and the total of the comics of the later index whose ids matched in the earlier one. |
| Search.RankRows | search-services/search/core/service.go:117-154 | Any listing of the matching rows, in any order, ranks like the table. |
| Search.RankTableExact | search-services/search/core/service.go:117-154 | The ranking holds exactly the positive-score comics of the table, each once and in order; its length is their number. |
| Search.RankTableOrder | search-services/search/core/service.go:136-142 | Of two ranked comics of a table the first scores higher, or the same with a lower id. |
| Search.RankedExact | search-services/search/core/service.go:117-154 | For distinct ids ranking answers the best `limit` of the comics that score, in strict order, or all if the low 32 bits of their number do not exceed the limit; no comic left out is better than one answered. |
| Search.IndexedRefinesFind | search-services/search/core/service.go:103-113 | For every table, listing, query and limit the indexed search answers what the SQL overlap filter and ranking answer, and its total counts every matching comic, whatever "" or repeated tokens occur. |
| Search.UntornRanksDocs | search-services/search/core/index.go:25-49 | For any list, even with repeated ids, searching its build is ranking the map in which the last comic with each id wins. |
| Search.TornExact | search-services/search/core/index.go:57-92 | A search torn by rebuilds answers exactly the matching comics of the later index (the last of several with one id) whose id some matching comic had in the earlier index, in order, each once. |
| Paging.GetAllComics | search-services/search/core/service.go:218-246 | Every refusal, limits above 100 among them; else, with page 0 meaning 1 and limit 0 meaning 10, the rows from number (page - 1) * limit modulo 2^32 on, at most `limit` of them, cut at the end; none past the total. |
| Paging.InIdOrderUnique | search-services/search/adapters/db/storage.go:118-124 | A table has only one listing in ascending id order. |
| Paging.PagesTile | search-services/search/core/service.go:229-240 | For a table with 32-bit keys, pages 1 to ceil(rows/limit) put together are the listing of the table in ascending id order, each row once; the following pages are empty while the offset fits 32 bits. |
| Paging.PageIsTrueIff | search-services/search/core/service.go:234-238 | The page answered is the page meant if and only if the offset does not wrap or still lies past the end after wrapping. |
| Paging.WrapShowsFirstPage | search-services/search/core/service.go:234 | With 64 rows a page, page 2^26 + 1 shows the first page of any non-empty table. |
| Rebuild.SubscriberLoop | search-services/search/adapters/broker/subscriber.go:55-73 | After any wake-ups the index holds the last list read without error before the loop ended. |
| Rebuild.TickerLoop | search-services/search/adapters/initiator/indexer.go:31-50 | The same, starting with one build before the first tick. |
| Rebuild.LoopExact | search-services/search/adapters/initiator/indexer.go:38-49 | A loop rebuilds at every wake-up before its end: the index holds the last of the lists read there without error. |
| Rebuild.LoopKeeps | search-services/search/core/service.go:35-39 | If no read before the end succeeds the index stays as it is. |
| Rebuild.RunIsSafe | search-services/search/core/index.go:51-54 | In every state of every run the index is the initial empty one or the build of one whole snapshot of the table, and so is every pending read. |
| Rebuild.SearchSeesSnapshots | search-services/search/core/service.go:102-113 | A search whose two locked sections fall into two states of a run answers from the two whole past tables shown there. |
| Rebuild.StaysCurrentIff | search-services/search/core/service.go:35-43 | The index shows the current table in all later states until the next change if and only if it does now and no pending read differs from it. |
| Rebuild.IndexMayGoBack | search-services/search/core/service.go:35-43 | For any two different contents of the table there is a run from the start in which the index shows the newer one and then, with the table unchanged, the older one. |
| Rebuild.InstallSettles | search-services/search/adapters/initiator/indexer.go:42-48 | Once a rebuild that read the current table installs while no older read is pending, the index shows the table until it changes. |
| PoolSafety.StepKeepsInv | search-services/update/core/service.go:72-160 | Every step of the dispatcher, the workers and the context keeps the invariant: jobs in order, each held once or done, bounds, channel discipline, honest rows, table equal to the replayed writes. |
| PoolSafety.JobsConserved | search-services/update/core/service.go:59-155 | In every state of every run each missing id is in exactly one of: unsent, in the channel, held, finished; no other id is anywhere. |
| PoolSafety.FetchedOnce | search-services/update/core/service.go:64-155 | No id is fetched twice or when already stored; the channel holds at most two jobs per worker and there are as many workers as configured, but at most 64. |
| PoolSafety.ChannelClosedOnce | search-services/update/core/service.go:148-156 | No send or close ever meets a closed channel; once closed it stays closed and only loses its head. |
| PoolSafety.NeverStuck | search-services/update/core/service.go:77-159 | Until `Update` returns some step is possible without outside help. |
| PoolSafety.StepDecreases | search-services/update/core/service.go:77-159 | Every step lowers a measure. |
| PoolSafety.EveryRunReturns | search-services/update/core/service.go:77-159 | Every run is bounded by the measure of the start, and the runs that cannot go on are exactly those that have returned. |
| Schedules.CompleteRun | search-services/update/core/service.go:140-159 | An uncancelled run that returns reports success, has finished exactly the missing ids, and leaves what doing them in completion order leaves. |
| Schedules.CompleteRunIsSequential | search-services/update/core/service.go:140-159 | An uncancelled run that returns leaves the table of doing the missing ids one by one in order, if there is one worker or no conflict. |
| Schedules.SequentialPermuted | search-services/update/core/service.go:125-134 | Jobs that do not write different rows under one key may be done in any order. |
| Schedules.HeldBack | search-services/update/core/service.go:82-135 | With two workers any storing job can be made the last writer of its key: a complete run is built. |
| Schedules.ScheduleIndependentIff | search-services/update/core/service.go:72-159 | Every complete run leaves the table of doing the missing ids one by one in order if and only if there is one worker or no two missing ids write different rows under one key. |
| Schedules.AnySiteIff | search-services/update/core/service.go:72-159 | The schedule is immaterial whatever the site answers if and only if there is one worker or at most one missing id. |
| Schedules.AnswersItsIdConflictFree | search-services/update/core/service.go:88-131 | If the site answers the missing ids with their own numbers, there is no such conflict. |
| Convergence.SuccessMeansDoneIff | search-services/update/core/service.go:79-159 | For every world, table and number of workers: every success means that all missing ids were done if and only if no id is missing. |
| Convergence.SuccessMayLoseLast | search-services/update/core/service.go:79-81 | For every start with a missing id there is a run that reports success, leaves the last missing id in the channel and stores only the others. |
| Convergence.MayGiveUpAt | search-services/update/core/service.go:145-153 | An update cancelled right after its start may give up at any missing id, having stored exactly what precedes it. |
| Convergence.MayFinishCancelled | search-services/update/core/service.go:77-84 | It may also do every missing id and report success. |
| Convergence.CallsMayFail | search-services/update/core/service.go:87-134 | After a cancellation the fetch and the store of any missing id may fail, whatever the answer would have been; the job is then over and the table as it was. |
| Convergence.ChannelCapacity | search-services/update/core/service.go:64-70 | n jobs can be in the channel in some run if and only if n is at most twice the number of workers, 64 at most, and so many ids are missing. |
| Convergence.SuccessAccountsForJobs | search-services/update/core/service.go:79-159 | On success the finished and the queued jobs are the missing ids; when nothing was cancelled none is queued. |
| Convergence.UpdateKeepsKeys | search-services/update/core/service.go:59-147 | Cancelled or not, and whatever numbers the site answers with, an update removes no number from the table. |
| Convergence.UpdateWrites | search-services/update/core/service.go:59-147 | For every site, cancelled or not: the numbers in the table are the old ones and those of rows written; under each number stands the old row if none was written, else a row that some missing id may write. |
| Convergence.KeepsRowsIff | search-services/update/core/service.go:125-134 | All stored rows are kept in every state of every run, with or without the cancelled runs, if and only if no missing id may be answered with a stored number and a different row. |
| Convergence.RowsAreAnswers | search-services/update/core/service.go:87-134 | For every site, cancelled or not: each row in the table is the one stored before or the row for the answer to some missing id: its number, address and the tokens of title, alternative text and description, each in its own field and empty if normalising failed; an empty row for a number that does not exist. |
| Convergence.AnswersAreStored | search-services/update/core/service.go:87-134 | Every such row is stored in some run. |
| Convergence.StoredExactly | search-services/update/core/service.go:87-134 | If the site answers the missing ids with their own numbers: after a complete update a missing id has a row exactly when it was stored and the fetch did not fail, and the row is the one for the answer, field by field. |
| Convergence.LargestIdWins | search-services/update/core/service.go:82-135 | With one worker the row for the largest of the missing ids answered with one number is left. |
| Convergence.UpdateOnlyAdds | search-services/update/core/service.go:59-147 | If the site answers the missing ids with their own numbers: cancelled or not, an update keeps every stored row and adds only rows of missing ids under their own number, each the placeholder or the answered comic, of which only a cancellation or a failed normalisation may have emptied fields. |
| Convergence.NextRunAttempts | search-services/update/core/service.go:52-62 | For every site the next update attempts exactly the missing ids under whose number no row was written; if the site answers the missing ids with their own numbers, those this update did not store. |
| Convergence.NextRunRetries | search-services/update/core/service.go:87-134 | After a complete run these are, for every site, the missing ids whose number no missing id's row has; if the site answers the missing ids with their own numbers, those whose fetch or store failed. |
| Convergence.Settled | tests/update_test.go:63 | After a complete run, for every site: no later run takes a job or changes the table if and only if each missing id is the number of some missing id's row; the row count then equals the last number if and only if no row has another number. |
| Convergence.SettledOwn | tests/update_test.go:63 | If the site answers the missing ids with their own numbers: the table is settled if and only if every missing id was stored, and the row count then equals the last number if no other numbers were stored before. |
| Convergence.PossibleRowIff | search-services/update/core/service.go:82-135 | With two workers or more a row can end under a number if and only if it is the row of some missing id with that number, or the stored one if there is none; with one worker, if and only if doing the missing ids in order leaves it. |
| Updater.Service.NewService | search-services/update/core/service.go:24-37 | Fails exactly for fewer than one worker. |
| Updater.Service.GetStatus | search-services/update/core/service.go:177-182 | Running exactly while the flag is up. |
| Updater.Service.Drop | search-services/update/core/service.go:184-191 | Refused while the flag is up, changing nothing; else the table is emptied if the database does it, and the flag is down again. |
| Updater.Service.Update | search-services/update/core/service.go:39-160 | Refused while the flag is up; an early error changes nothing; else it terminates in a returned state of some run, with the flag down, and uncancelled it succeeds with the sequential table if there is one worker or no conflict. |
| Updater.Service.RunPool | search-services/update/core/service.go:56-159 | The loop over all interleavings, proved to end and never to block, ends in a reachable returned state of the pool. |
| Updater.Service.WorkerTurn | search-services/update/core/service.go:87-134 | One turn of a busy worker is one allowed action; a finished job's row goes into the table and nothing else does. |
| Updater.Dispatch | search-services/update/core/service.go:144-156 | One turn of the dispatcher loop has the effect of one enabled step of the pool. |
| Updater.Serve | search-services/update/core/service.go:87-134 | One outside call of a worker, its error branches included, is one allowed action of the pool. |
| Calls.EventKeepsGood | search-services/update/core/service.go:39-191 | Every event of concurrent calls keeps mutual exclusion, the attribution of changes, the pools' invariants and the serial meaning. |
| Calls.OneHolder | search-services/update/core/service.go:40-43 | The flag is up exactly while one call holds it, and never two do. |
| Calls.TurnedAwayIffHeld | search-services/update/core/service.go:184-188 | A call can be turned away exactly while another call holds the flag, and can take it exactly when none does. |
| Calls.PoolsWorkToAnswer | search-services/update/core/service.go:46-51 | The owners are the calls that took the flag, in order; every update in its pool or past it works up to the last number its own call was told, and only updates run pools and only drops empty the table. |
| Calls.RepliesMean | search-services/update/core/service.go:39-191 | A call answers that another is running exactly when it was turned away, and success exactly when its truncation or its pool succeeded. |
| Calls.HolderCanMove | search-services/update/core/service.go:39-191 | The call that holds the flag always has a move of its own, without a cancellation and without the other calls. |
| Calls.MovesComeCloser | search-services/update/core/service.go:39-191 | Each move of a call lowers the pair of its phase and its pool's measure; no event of another call changes where it is. |
| Calls.FlagClears | search-services/update/core/service.go:40-43 | From every state with the flag up its holder can end by finitely many moves of its own, and then the flag is down. |
| Calls.WorkersGoneBeforeRelease | search-services/update/core/service.go:148-159 | All workers of an update have exited before the flag clears. |
| Calls.NoWriteEscapes | search-services/update/core/service.go:184-190 | Every change of the table is made by the call holding the flag; whatever is written after a drop is written by a call that took the flag after the drop. |
| Calls.ServiceIsSerial | search-services/update/core/service.go:39-191 | Cancelled or not, each call does one piece of work per holding of the flag, in the order of the flag; each update ends in a state that a lone run can return in on the table left by the pieces before it; whenever no pool is at work the table is the one after the last piece. |
| Calls.ServiceIsSequential | search-services/update/core/service.go:39-191 | If each update was uncancelled and had one worker or no conflict among its missing ids, the table is what the calls leave one after another, each update doing its missing ids in order. |
| EndToEnd.CoverageRanksFirst | search-services/search/core/service.go:136-142 | For normalised phrases of up to 13 tokens no ranked comic stands before one that covers more tokens. |
| EndToEnd.NormNumberPhrase | search-services/words/words/words.go:20-57 | The tokens of the phrase "1 11 ... " of n numbers are these n numbers, for every stemmer and stop-word list. |
| EndToEnd.CoverageRanksFirstIff | README.md:221-233 | For every n: every ranking for a phrase of n normalised tokens, over every table, puts the comics that cover more tokens first if and only if n is at most 13. |
| EndToEnd.TableAfterUpdate | search-services/update/core/service.go:87-134 | After a complete update, for every site: the numbers are the old ones and those of the missing ids' rows, and each row is one that may end there; if the site answers the missing ids with their own numbers, the table holds the old rows and exactly the stored outcomes. |
| EndToEnd.MatchIffShares | search-services/update/core/service.go:106-131 | A stored comic matches a phrase exactly when the phrase shares a token with one of its texts that could be normalised. |
| EndToEnd.FoundAfterUpdate | search-services/search/core/service.go:81-114 | After a complete update and a rebuild from its table, for every site and number: a comic is a hit if all rows that may end under its number match the phrase, and only if one of them does. |
| EndToEnd.AlwaysFoundIff | search-services/search/core/service.go:81-114 | A comic is a hit after every complete update if and only if all rows that may end under its number match the phrase; with one worker, if and only if the row that doing the ids in order leaves does. |
| EndToEnd.FoundAfterUpdateIff | search-services/search/core/service.go:81-114 | If the site answers the missing ids with their own numbers: after a complete update and a rebuild from its table, a formerly missing comic is a hit exactly when the site had it, it was stored, and a text of it that could be normalised shares a token with the phrase. |

## Left out

- gRPC and REST servers and clients, configuration, start-up code, the Telegram bot, authentication, favourites and middleware: transport or thin wrappers.
- The insides of Postgres, the comic site's HTTP client, NATS and the stemmer: only their answers are modelled; a store that reports an error is taken not to have written.
- Invalid UTF-8: a phrase is a sequence of runes and lower-casing maps each rune to one rune.
- `Stats`, `GetComicByID`, `RandomComic`, `Ping` and logging: they would only add easy members.
- Rebuild.SubscriberLoop: runs over a finite list of wake-ups and does not model the buffer of the subscription channel; the transition system lets a rebuild start at any time.
- Rebuild.TickerLoop: runs over a finite list of ticks, of any length, in place of the endless loop; the transition system has no such bound.
- Ranking.SortSlice: stands for the library sort by its contract; its body is an insertion sort and not the library's algorithm.
- Updater.Service.Update: runs as one call without other calls beside it; concurrent calls are in `Calls.dfy`.
- Machine integers: scores and ids are unbounded; only the 32-bit total, limit and offset wrap.
