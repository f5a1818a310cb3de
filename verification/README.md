# Qadim answer pipeline and API — a Dafny model

Qadim answers a user's question about history with a cited summary. A
question is stored first. Then retrieval finds candidate documents, and a
chat completion writes a narrative that refers to those candidates by
bracket markers `[1]`, `[2]` and so on. The markers are turned back into
citations, and two scores are computed from the candidates: *confidence*
and *controversy*. The answer is stored under the question.

This project models that core as pure functions over an immutable store:

- the scoring and citation logic of the answer generator;
- the system prompt and context entries the generator builds;
- the job queues with their retry and backoff policy, and their three
  handlers;
- the text and time helpers and the authority-level grouping of the
  answer card;
- the API endpoints for questions, answers, sources, community notes and
  asking a question.

Modules follow the program's structure:

| module | models |
|---|---|
| `Domain`, `Wrappers`, `Decimal` | the closed enumerations, candidate and citation records, `Result`/`Option`, decimal rendering and `parseInt` of digit strings |
| `Scoring` | `calculateConfidence` and `calculateControversy` |
| `Citations` | `extractCitations` and the `[n]` labels of the prompt context |
| `Generator` | `getSystemPrompt`, the context block, `generateAnswer` |
| `Utils`, `Grouping` | `utils.ts` and the grouping in `AnswerCard.tsx` |
| `Queue`, `Workers` | the queue policies and job lifecycle of `queue.ts`, and the bodies of its three workers |
| `Store`, `Listing`, `Pagination` | the database as maps from id to record, newest-first listing, credibility ordering, and the shared `limit + 1` cursor pagination |
| `CommunityRouter`, `SourceRouter`, `QuestionRouter`, `AnswerRouter`, `RagRouter` | the API routers |

Some behaviour that happens outside the core becomes a parameter:

- the current year and the clock;
- the outcome of retrieval (`None` when it throws);
- the chat completion's reply;
- the URL check;
- the locale date formatter.

Other modelling choices:

- Record ids are natural numbers drawn from one counter. "Newest first"
  (`created_at desc`) is therefore descending id.
- Prisma looks the cursor row up in the whole table, not only among the
  rows the filter keeps. A cursor on a listed row starts the page at that
  row. A cursor on a row the filter leaves out (a note moderated since the
  page before, say) starts the page at the first listed row that the
  ordering puts after it. A cursor that names no row gives an empty page.
- Under a cursor, Prisma appends the primary key to the ordering, so rows
  of equal credibility come in ascending id order.
- An update of a missing row, or a create whose foreign key is missing,
  is an error that leaves the store unchanged.

## Behaviour of the code worth knowing

- **Re-run answer jobs duplicate.** The answer worker stores its result
  with a plain create (src/lib/queue.ts:101-110). Re-running a completed
  answer job therefore stores a second answer
  (`Workers.RagRerunDuplicates`).
- **Empty completion.** An empty or missing completion is not an error.
  The summary falls back to "Unable to generate answer"
  (src/lib/rag.ts:137, `Generator.SummaryOf`).
- **Question stored before generation.** The ask endpoint creates the
  question before it generates the answer
  (src/server/api/routers/rag.ts:17-44). A failed generation leaves an
  unanswered question behind
  (`RagRouter.FailedAskLeavesUnansweredQuestion`).
- **Ties in the source listing.** The source listing orders by
  credibility alone (src/server/api/routers/source.ts:23). Prisma breaks
  its ties by ascending primary key
  (`SourceRouter.EqualCredibilityInIdOrder`).

## Model

| member | source | states |
|---|---|---|
| Domain.ParseAuthority | src/server/api/routers/community.ts:15 | exactly the five authority wire names are accepted, each to its own level |
| Domain.AuthorityNameInjective | src/server/api/routers/community.ts:15 | different authority levels have different wire names |
| Decimal.ParseNatToString | src/lib/rag.ts:229 | `parseInt` of the decimal rendering of n gives back n |
| Decimal.IntToString | src/lib/rag.ts:116-118 | an interpolated integer renders as at least one character, all digits exactly when it is non-negative |
| Scoring.Round | src/lib/rag.ts:197 | `Math.round` returns the integer nearest x, with halves rounded up |
| Scoring.RoundMonotone | src/lib/rag.ts:197 | rounding preserves order |
| Scoring.Confidence | src/lib/rag.ts:183-198 | confidence is 0 with no documents, never above 100, and never negative when every credibility lies in 0..100 |
| Scoring.RawConfidenceBounds | src/lib/rag.ts:186-195 | with every credibility in lo..hi the unrounded score lies between lo and hi + 30: the mean lies in lo..hi and the official and recency boosts add at most 20 and 10 |
| Scoring.SumCredibilityBounds | src/lib/rag.ts:186 | the summed credibility lies between n·lo and n·hi when every credibility does |
| Scoring.ConfidenceMonotone | src/lib/rag.ts:183-198 | raising one document's credibility never lowers confidence |
| Scoring.ConfidenceIgnoresOrder | src/lib/rag.ts:183-198 | any two lists holding the same documents, in any order, get the same confidence |
| Scoring.LevelsMembership | src/lib/rag.ts:204-210 | a level is among the distinct levels exactly when some document has it |
| Scoring.LevelsCardinality | src/lib/rag.ts:210 | the number of distinct levels is between 1 and the document count for a non-empty list |
| Scoring.Controversy | src/lib/rag.ts:200-219 | controversy is 0 for at most one document and lies in [0,100] otherwise |
| Scoring.UniformLevelControversy | src/lib/rag.ts:200-219 | two or more documents of one level give 0, or exactly the 30-point boost when that level is CLAIM |
| Scoring.ControversyIgnoresOrder | src/lib/rag.ts:200-219 | any two lists holding the same documents, in any order, get the same controversy |
| Scoring.SumByMultiset | src/lib/rag.ts:186 | the credibility sum depends only on which documents there are |
| Scoring.CountsByMultiset | src/lib/rag.ts:189-195 | the official and recent counts depend only on which documents there are |
| Scoring.LevelsByMultiset | src/lib/rag.ts:204-210 | the distinct levels depend only on which documents there are |
| Scoring.SpreadScore | src/lib/rag.ts:210-212 | the rounded spread of levels lies in 0..100 |
| Scoring.ClaimBoost | src/lib/rag.ts:215-216 | the claim boost lies in [0,30] |
| Scoring.TwoRecentSourcesExample | src/lib/rag.ts:183-219 | an official (95) and a scholarly (92) recent source: the raw score (mean credibility plus the official and recency bonuses) is 113.5 and is capped to 100; controversy is 100 |
| Scoring.FractionalControversyExample | src/lib/rag.ts:212-218 | the claim boost is not rounded: three official and one claim document give 40.5 |
| Citations.MarkerAtStartSound | src/lib/rag.ts:223 | a marker the scanner reads at the front is a bracketed non-empty digit run |
| Citations.MarkerAtStartComplete | src/lib/rag.ts:223 | every bracketed digit run at the front is read, with its whole length |
| Citations.NoMarkersIffNone | src/lib/rag.ts:223-226 | the scan finds no marker exactly when the text contains no `[digits]` |
| Citations.Markers | src/lib/rag.ts:223-224 | each marker found spans at least three characters of the text, so there are at most a third as many markers as characters |
| Citations.MarkersOfLabels | src/lib/rag.ts:116 | text made of prompt labels scans back to exactly their numbers, in order |
| Citations.Snippet | src/lib/rag.ts:234 | the snippet is the whole content when it has at most 200 characters, and its first 200 otherwise, always followed by "..." |
| Citations.Cite | src/lib/rag.ts:232-238 | a citation copies the source id, level and status, the snippet, and the similarity, with 0 when it is missing; with a similarity in [0,1] the citation passes the answer schema's score check |
| Citations.ResolveCitesOnly | src/lib/rag.ts:228-240 | at most one citation per marker, none when there are no candidates, and every citation is one of the candidates |
| Citations.ResolveSingle | src/lib/rag.ts:228-238 | marker k cites candidate k-1 when 1 ≤ k ≤ n; an out-of-range marker is skipped |
| Citations.ResolveAppend | src/lib/rag.ts:228-240 | resolution works marker by marker, so it distributes over concatenation |
| Citations.ExtractCitations | src/lib/rag.ts:221-243 | no marker or no candidate gives no citation; at most one citation per marker, each from a candidate |
| Citations.ExtractedCitationsValid | src/lib/rag.ts:232-238 | when every candidate's similarity lies in [0,1], every extracted citation passes the answer schema's score check |
| Citations.ExtractSingleMarker | src/lib/rag.ts:228-231 | a lone `[k]` cites candidate k-1 when 1 ≤ k ≤ n, and nothing otherwise |
| Citations.LabelRoundTrip | src/lib/rag.ts:229-231 | candidate i's label `[i+1]` echoed in the text is extracted as candidate i's citation, before whatever the rest yields |
| Citations.ThreeCandidateExample | src/lib/rag.ts:228-240 | "[1] and [3]" over three candidates cites the first and third; "[5]" cites none |
| Generator.SystemPromptChoice | src/lib/rag.ts:154-181 | the two personas get different system prompts, and the language does not change the prompt |
| Generator.ContextEntryRoundTrip | src/lib/rag.ts:114-121 | candidate i's context entry opens with label i+1, which is extracted back as candidate i |
| Generator.JoinContains | src/lib/rag.ts:121 | joining keeps every part whole in the result |
| Generator.Context | src/lib/rag.ts:113-121 | the context holds every candidate's numbered entry, and is empty exactly when there are no candidates |
| Generator.UserPrompt | src/lib/rag.ts:125 | the user message holds the question and the context |
| Generator.UserPromptCarriesCandidates | src/lib/rag.ts:113-125 | the user message for a question over candidates holds the question and every candidate's numbered entry |
| Generator.SummaryOf | src/lib/rag.ts:137 | the summary is the completion's content when it is non-empty, and "Unable to generate answer" otherwise |
| Generator.Assemble | src/lib/rag.ts:137-147 | an answer over evidence has the completion's summary, scores in range and citations drawn from the candidates |
| Generator.GenerateAnswer | src/lib/rag.ts:83-152 | a retrieval failure or API error is the one generic error; no candidates gives the fixed no-evidence answer; otherwise success, with the completion's summary |
| Generator.GeneratedAnswerWellFormed | src/lib/rag.ts:90-147 | every successful generation has a non-empty summary, scores within range and citations only from the candidates |
| Generator.ScoresIndependentOfPersona | src/lib/rag.ts:107-111 | over the same candidates the scores are the same whatever the persona, language or reply |
| Generator.CitationsFollowSummary | src/lib/rag.ts:137-140 | the citations are exactly those extracted from the summary returned |
| Utils.SliceTo | src/lib/utils.ts:30 | `slice(0, end)` is a prefix; a negative end counts back from the end |
| Utils.TruncateText | src/lib/utils.ts:28-31 | text that fits is unchanged; otherwise the first maxLength characters are followed by "..." |
| Utils.TruncateKeepsPrefix | src/lib/utils.ts:28-31 | a truncation is at most 3 characters over the bound and keeps the text's leading characters |
| Utils.ElapsedSeconds | src/lib/utils.ts:18 | elapsed whole seconds are the floor of the millisecond difference over 1000 |
| Utils.Bucket | src/lib/utils.ts:20-25 | the five time buckets partition the elapsed seconds, and each numeral is the floor count of its unit |
| Utils.FutureDateIsJustNow | src/lib/utils.ts:16-20 | a future date, or one less than a minute old, reads "Just now" |
| Utils.MinutesLabel | src/lib/utils.ts:21 | within an hour the label is the whole minutes, 1 to 59, followed by "m ago" |
| Utils.HoursLabel | src/lib/utils.ts:22 | within a day the label is the whole hours, 1 to 23, followed by "h ago" |
| Utils.DaysLabel | src/lib/utils.ts:23 | within thirty days the label is the whole days, 1 to 29, followed by "d ago" |
| Utils.FormatRelativeTime | src/lib/utils.ts:16-26 | past thirty days the label is the locale formatter's text; before that it is "Just now" or ends in " ago"; the exact count per bucket is in FutureDateIsJustNow, MinutesLabel, HoursLabel and DaysLabel |
| Utils.AuthorityColor | src/lib/utils.ts:33-48 | the default colour is given exactly to strings that are not one of the five authority names |
| Utils.AuthorityIcon | src/lib/utils.ts:50-65 | the default icon is given exactly to strings that are not one of the five authority names |
| Utils.AuthorityBadgesDistinct | src/lib/utils.ts:33-65 | the five levels get distinct non-default colours and icons; any other string gets the defaults |
| Grouping.ReduceCollects | src/components/AnswerCard.tsx:53-58 | the reduce appends each citation to the group of its level, in order |
| Grouping.ReduceKeys | src/components/AnswerCard.tsx:53-58 | a level has a group exactly when some citation has that level |
| Grouping.GroupsAreLevelFilters | src/components/AnswerCard.tsx:53-58 | each group is exactly the citations of its level, in their original order |
| Grouping.GroupKeepsOrder | src/components/AnswerCard.tsx:55-56 | each group's entries sit at strictly increasing positions of the citation list |
| Grouping.PositionsIncrease | src/components/AnswerCard.tsx:55-56 | the positions a level's citations occupy lie inside the list and strictly increase |
| Grouping.PositionsHit | src/components/AnswerCard.tsx:55-56 | the list read at those positions is that level's group, entry by entry |
| Grouping.OfLevelCount | src/components/AnswerCard.tsx:53-58 | a group holds each citation of its level as often as the list does, and none of another level |
| Grouping.OfLevelPartition | src/components/AnswerCard.tsx:53-58 | the five groups together are a permutation of the citations |
| Grouping.GetIsFilter | src/components/AnswerCard.tsx:127 | looking up any level, present or not, gives its filter |
| Grouping.SectionsAreGroupsInOrder | src/components/AnswerCard.tsx:60-138 | the rendered sections list official, scholarly, press, community and then claim citations |
| Grouping.FlattenSectionsFrom | src/components/AnswerCard.tsx:125-138 | the rendered sections, flattened, are the groups concatenated in level order |
| Grouping.SectionsArePermutation | src/components/AnswerCard.tsx:60-138 | every citation is shown exactly once |
| Grouping.SectionsShape | src/components/AnswerCard.tsx:108-134 | empty groups are skipped, each section counts its citations, and sources show exactly when some section does |
| Grouping.SectionsFromShape | src/components/AnswerCard.tsx:125-138 | each rendered section is its level's whole group, and that group is non-empty |
| Grouping.SectionsFromCovers | src/components/AnswerCard.tsx:125-127 | sections are only for levels of the order, no more of them than levels, and every level whose group is non-empty gets one |
| Queue.QueueNamesDistinct | src/lib/queue.ts:7-11 | the three queues have distinct names |
| Queue.BackoffDoubles | src/lib/queue.ts:20-23 | the first retry waits the base delay, and each later one twice the previous |
| Queue.Schedule | src/lib/queue.ts:20-23 | k retries produce k delays |
| Queue.ScheduleTotal | src/lib/queue.ts:20-23 | k exponential retries wait base·(2^k − 1) in all |
| Queue.WorstCaseWaits | src/lib/queue.ts:14-53 | under each queue's default attempts and backoff delay, a job that always fails waits 6 s, 75 s and 3 s in all |
| Queue.PolicyShape | src/lib/queue.ts:14-53 | every queue allows at least 3 attempts and keeps twice as many completed jobs as failed ones |
| Queue.NewJobValid | src/lib/queue.ts:185-201 | a newly added job is waiting with no attempts made |
| Queue.AttemptValid | src/lib/queue.ts:19-23 | an attempt keeps the job invariant and counts one more attempt unless the job had finished |
| Queue.RunValid | src/lib/queue.ts:19-23 | a run of attempts never exceeds the allowed number of attempts |
| Queue.TerminalAbsorbs | src/lib/queue.ts:19 | a completed or failed job is not attempted again |
| Queue.AllFailTail | src/lib/queue.ts:19 | a run of failures stays a run of failures after its first |
| Queue.AlwaysFailingJob | src/lib/queue.ts:19-23 | a job that always fails ends failed after all its attempts, having waited the whole backoff schedule |
| Queue.FirstSuccessCompletes | src/lib/queue.ts:19-23 | a job first succeeding on attempt i+1 completes after i backoff delays |
| Queue.AddJob | src/lib/queue.ts:185-201 | adding a job appends exactly one entry, carrying the job's id and the queue's own job name and priority, and keeps the rest of the waiting list |
| Queue.PickNext | src/lib/queue.ts:185-201 | the next job has the lowest priority number, and is the earliest added among those |
| Queue.UniformQueueIsFifo | src/lib/queue.ts:185-201 | a queue whose jobs share one priority runs them in the order they were added |
| Queue.DrainIsPermutation | src/lib/queue.ts:185-201 | whatever the priorities, every waiting job is handed out exactly once |
| Workers.RagHandler | src/lib/queue.ts:85-120 | the worker succeeds exactly when generation does; on failure the store is unchanged |
| Workers.RagHandlerCreatesOneAnswer | src/lib/queue.ts:93-110 | success stores one new answer with the job's persona and the generated fields, listed first for its question |
| Workers.RagRerunDuplicates | src/lib/queue.ts:101-110 | running the same job twice stores two answers for the question |
| Workers.DocumentHandler | src/lib/queue.ts:123-152 | ingestion marks the source verified and changes nothing else; a missing source is an error |
| Workers.DocumentHandlerIdempotent | src/lib/queue.ts:139-142 | ingesting twice has the same effect as once |
| Workers.EmailHandler | src/lib/queue.ts:155-175 | the email worker succeeds and leaves the store unchanged |
| Listing.NewestFirst | src/server/api/routers/community.ts:37-39 | a listing is strictly descending in id and holds only existing matching rows |
| Listing.NewestFirstComplete | src/server/api/routers/community.ts:37-39 | every matching row below the counter is listed |
| Listing.NewestFirstNone | src/server/api/routers/community.ts:37-39 | when nothing matches, the listing is empty |
| Listing.DescendingIsDistinct | src/server/api/routers/community.ts:62 | a newest-first listing has no repeated id |
| Listing.OldestFirst | src/server/api/routers/source.ts:17-24 | the rows in ascending id order are strictly ascending and hold only existing matching rows |
| Listing.OldestFirstComplete | src/server/api/routers/source.ts:17-24 | every matching row below the counter is in the ascending listing |
| Listing.AscendingIsDistinct | src/server/api/routers/source.ts:17-24 | an ascending listing has no repeated id |
| Listing.Insert | src/server/api/routers/source.ts:23 | insertion adds exactly one element |
| Listing.SortByRank | src/server/api/routers/source.ts:23 | ordering by credibility permutes the list |
| Listing.InsertRanked | src/server/api/routers/source.ts:23 | inserting into a list ranked high-to-low keeps it ranked |
| Listing.SortRanked | src/server/api/routers/source.ts:23 | the ordered list is ranked high-to-low |
| Listing.OfRankAppend | src/server/api/routers/source.ts:23 | the entries of one rank distribute over concatenation |
| Listing.InsertOfRank | src/server/api/routers/source.ts:23 | insertion puts the new entry before the entries of its own rank |
| Listing.SortStable | src/server/api/routers/source.ts:23 | the entries of each rank keep their relative order |
| Listing.OfRankAscending | src/server/api/routers/source.ts:23 | the entries of one rank drawn from an ascending list are ascending, and each is from the list |
| Listing.DistinctByMultiset | src/server/api/routers/source.ts:23 | a permutation of a list without repeats has no repeats |
| Listing.DistinctCount | src/server/api/routers/source.ts:23 | a list without repeats holds each element at most once |
| Pagination.CheckLimit | src/server/api/routers/community.ts:51 | the limit defaults per endpoint, and a given one must lie in 1..100 |
| Pagination.IndexOf | src/server/api/routers/community.ts:61 | the cursor is found at its first position, or not at all |
| Pagination.IndexOfDistinct | src/server/api/routers/community.ts:61 | in a list without repeats each element is found at its own position |
| Pagination.Start | src/server/api/routers/community.ts:61 | a page starts within the list |
| Pagination.Fetch | src/server/api/routers/community.ts:58-63 | at most limit + 1 rows are fetched |
| Pagination.PageShape | src/server/api/routers/community.ts:58-84 | a page is the next limit rows from the cursor, and nextCursor is the first row left over, set exactly when one is |
| Pagination.UnknownCursorEmpty | src/server/api/routers/community.ts:61 | a cursor not in the list being paged gives an empty last page |
| Pagination.FollowFrom | src/server/api/routers/community.ts:58-84 | following nextCursor from a cursor visits the rest of the list in order |
| Pagination.PagesCoverList | src/server/api/routers/community.ts:58-84 | following nextCursor from the start visits the whole list once, in order |
| Pagination.ListPage | src/server/api/routers/community.ts:56-84 | a bad limit is an error; otherwise at most limit rows are returned, each the row of a listed id |
| Pagination.ListPageRows | src/server/api/routers/community.ts:56-84 | the rows returned are those of the ids on the page of the cursor's window |
| Pagination.Resume | src/server/api/routers/community.ts:61-62 | the resume position is the first listed id that the ordering does not put before the cursor |
| Pagination.WindowPageListed | src/server/api/routers/community.ts:58-63 | whatever the cursor, a page holds at most limit ids, each from the listing |
| Pagination.WindowPageRanked | src/server/api/routers/source.ts:19-24 | whatever the cursor, a page of a list ranked high to low is ranked high to low |
| Pagination.ListPageUnknownCursor | src/server/api/routers/community.ts:61 | a cursor naming no row of the table gives an empty page with no next cursor |
| Pagination.ListPageExcludedCursor | src/server/api/routers/community.ts:58-63 | a cursor on a row the filter leaves out gives the first page of the listing from the resume position |
| Pagination.ExcludedCursorNewestFirst | src/server/api/routers/community.ts:58-63 | in a newest-first listing such a cursor pages rows older than it, starting no later than any listed row older than it |
| Pagination.ListPageExcludedNewestFirst | src/server/api/routers/community.ts:58-63 | the same for the rows returned: all are older than the cursor, and the first is at least as new as any listed row older than it |
| Store.InsertQuestion | src/server/api/routers/question.ts:14-20 | a new question takes the next id and keeps the store invariant |
| Store.InsertAnswer | src/server/api/routers/answer.ts:26-35 | an answer needs an existing question; it takes the next id and keeps the invariant |
| Store.InsertNote | src/server/api/routers/community.ts:23-31 | a note needs an existing answer; it takes the next id and keeps the invariant |
| Store.InsertSource | src/server/api/routers/source.ts:66-71 | a new source takes the next id and keeps the invariant |
| Store.NewestFirstAfterInsert | src/server/api/routers/answer.ts:41-43 | a new matching row becomes the first of the listing, and nothing else changes |
| Store.NewestFirstBelow | src/server/api/routers/answer.ts:41-43 | a row stored at or above the bound does not change the listing below it |
| Store.NewestFirstAfterUpdate | src/server/api/routers/answer.ts:65-68 | updating a row without changing whether it matches leaves the listing unchanged |
| CommunityRouter.CreateNote | src/server/api/routers/community.ts:6-32 | a valid note on an existing answer is stored pending, by the session user, under the next id, and nothing else in the store changes; otherwise an error and no change |
| CommunityRouter.CreateNoteDefaults | src/server/api/routers/community.ts:14-29 | omitted citations become the empty list, and a well-formed note is never rejected |
| CommunityRouter.GetNotesForAnswer | src/server/api/routers/community.ts:34-46 | only notes on that answer are returned, whatever their status |
| CommunityRouter.NotesForAnswerComplete | src/server/api/routers/community.ts:34-46 | every note on the answer is returned, once, newest first |
| CommunityRouter.GetPendingNotes | src/server/api/routers/community.ts:48-85 | a page of the queue holds only pending notes, at most limit of them |
| CommunityRouter.PendingAfterModeratedCursor | src/server/api/routers/community.ts:58-63 | a cursor on a note moderated since still pages: only notes older than it, the first being the newest pending note older than it |
| CommunityRouter.GetUserNotes | src/server/api/routers/community.ts:106-140 | a page holds only the caller's notes, at most limit of them |
| CommunityRouter.NotePagesCover | src/server/api/routers/community.ts:58-84 | paging the queue or a user's notes visits each once |
| CommunityRouter.ModerateNote | src/server/api/routers/community.ts:87-104 | only moderators and admins may moderate; only the status changes; a missing note is an error |
| CommunityRouter.ModerationAndQueue | src/server/api/routers/community.ts:87-104 | a moderated note is queued exactly when set pending, and other notes keep their place in the queue |
| SourceRouter.OrderedSourceIds | src/server/api/routers/source.ts:17-24 | the listing holds only sources that match every given filter |
| SourceRouter.GetAll | src/server/api/routers/source.ts:6-36 | a page holds at most limit matching sources; a bad limit is an error |
| SourceRouter.GetAllOrdered | src/server/api/routers/source.ts:19-24 | every page lists sources by credibility, highest first |
| SourceRouter.FollowVisitsEverySource | src/server/api/routers/source.ts:19-30 | following nextCursor from the first page visits every matching source exactly once |
| SourceRouter.EqualCredibilityInIdOrder | src/server/api/routers/source.ts:19-24 | sources of equal credibility keep the ascending id order of the matching rows |
| SourceRouter.GetById | src/server/api/routers/source.ts:38-50 | the source with at most ten of its documents, or none when there is no such source |
| SourceRouter.ShownDocsAreNewest | src/server/api/routers/source.ts:44-47 | any document left out is older than every document shown |
| SourceRouter.Create | src/server/api/routers/source.ts:52-72 | a valid source is stored unverified under the next id, with credibility 50 unless one in 0..100 is given, and nothing else in the store changes; otherwise an error and no change |
| SourceRouter.UpdateStatus | src/server/api/routers/source.ts:74-90 | the status is set, and credibility only when one is given in 0..100; a missing source is an error |
| AnswerRouter.ApprovedNotes | src/server/api/routers/answer.ts:44-46 | only approved notes on the answer are shown |
| AnswerRouter.ApprovedNotesExact | src/server/api/routers/answer.ts:44-46 | a note on the answer is shown exactly when it is approved |
| AnswerRouter.GetByQuestionId | src/server/api/routers/answer.ts:38-55 | the question's answers, each carrying exactly its own approved notes |
| AnswerRouter.AnswersNewestFirst | src/server/api/routers/answer.ts:38-55 | every answer of the question is listed, newest first |
| AnswerRouter.Create | src/server/api/routers/answer.ts:6-36 | a valid answer for an existing question is stored as submitted under the next id, neutral unless a persona is given, and nothing else in the store changes |
| AnswerRouter.CreatedAnswerListedFirst | src/server/api/routers/answer.ts:6-55 | a stored answer becomes the first listed for its question |
| AnswerRouter.UpdatePersona | src/server/api/routers/answer.ts:57-69 | only the persona changes; a missing answer is an error |
| AnswerRouter.UpdatePersonaKeepsListing | src/server/api/routers/answer.ts:57-69 | switching persona keeps every question's answer list unchanged |
| QuestionRouter.Create | src/server/api/routers/question.ts:6-21 | a question of 1..1000 characters is stored for the user under the next id, in English unless given, and nothing else in the store changes; otherwise an error |
| QuestionRouter.GetById | src/server/api/routers/question.ts:23-47 | the question with all its answers, or none when there is no such question |
| QuestionRouter.Summary | src/server/api/routers/question.ts:67-70 | a feed entry carries at most one answer |
| QuestionRouter.SummaryIsNewestAnswer | src/server/api/routers/question.ts:67-70 | a question with answers shows one, a stored answer of that question, its newest |
| QuestionRouter.GetAll | src/server/api/routers/question.ts:49-84 | a feed page holds at most limit questions, each with at most one answer |
| QuestionRouter.FeedCoversQuestions | src/server/api/routers/question.ts:49-84 | following nextCursor visits every question once, newest first |
| RagRouter.AskQuestion | src/server/api/routers/rag.ts:7-49 | the question is stored first; success stores the generated answer with the requested persona; failure stores no answer; notes, sources and documents never change, and one id is used per row stored |
| RagRouter.FailedAskLeavesUnansweredQuestion | src/server/api/routers/rag.ts:17-31 | a failed generation leaves the new question stored with no answer |
| RagRouter.AskWithoutEvidence | src/server/api/routers/rag.ts:26-43 | with no candidates the stored answer is the no-evidence answer, with no citations and zero scores |
| RagRouter.DebateClaims | src/server/api/routers/rag.ts:51-74 | a debate is accepted exactly when both claims are non-empty |
| RagRouter.DebateIgnoresClaims | src/server/api/routers/rag.ts:51-74 | every accepted debate returns the same fixed result, claim 1 scored above claim 2 |

## Left out

- The OpenAI embedding and chat calls, and `generateEmbedding`: external services. The chat reply is a parameter, and so is the outcome of `retrieveRelevantDocs`.
- `retrieveRelevantDocs`: it is a stub whose similarity score is random, so it cannot be modelled as a function.
- `processDocumentBatch`: the batch ingestion loop only calls external services.
- The unused locals `groupedDocs` in `generateAnswer` and `maxAuthorityCount` in `calculateControversy`: they affect no result.
- BullMQ internals are not modelled. Worker concurrency, the active state (one attempt is a single step), eviction of kept jobs, Redis connections and `closeQueues` are left out.
- Ids are naturals that grow with creation. Prisma breaks ties on `credibility` by the primary key, a cuid string; the model reads that as ascending id and does not model cuid comparison.
- The S3 client, authentication sessions, feature flags and every React page other than the grouping in the answer card: they are not part of the core.
- The date formatting in `formatRelativeTime` past thirty days: the locale formatter is a parameter.
- `getTimeline`: it returns fixed mock events.
- String lengths count characters, not UTF-16 code units.
- Numbers that the zod schemas accept as fractional (`limit`, `credibility`, `year`) are integers here. Ids are naturals, not cuid strings, so the empty-string cursor (read as "no cursor") is not modelled.
- `Citations.Cite`: a similarity of `NaN` (which `|| 0` also maps to 0) is not modelled. Only a missing score is.
- `Decimal.ParseNatToString`: the loss of precision in `parseInt` past 2^53 is not modelled.
- The `provenance` JSON column is opaque and is not modelled.
- `AnswerRouter.ApprovedNotes`: the code does not order the community notes it includes; the model lists them newest first.
- The `user` relations included and selected by the queries are not modelled.
- The session role is the closed set of user, moderator and admin.
- `SourceRouter.ValidSourceInput`: the URL check `z.string().url()` is the parameter `isUrl`.
- Scoring.Round: JavaScript numbers are doubles, and the model computes `RawConfidence`, `Fraction` and `ClaimBoost` in exact reals. A value that floating point puts just off a .5 boundary may therefore round the other way here.
