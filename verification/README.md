# Session journal and companions: a verified model

This project models the storage core of the command bar and proves properties of it: the event
journal of `SessionStore`, the paging and coverage queries over that journal, the import and
ownership protocols on the session table, the symbol counter with its worker pool, and the
smaller companions (message pages and receipts, the bounded source scan, syntax spans and the file
tree). `dafny verify dfyconfig.toml` checks all of it.

How the parts are modelled:

- A journal is a map from sequence to row. A row has its kind, item id, the optional facts of a
  tool call (name, summary, output, path, diff), its stored first position, and the columns that
  writes carry along. A name counts as brought only when it is not empty; the other four count
  when present.
- Each SQL statement is a function on the journal or on the session table. The class
  `SessionStore.Store` has the two tables as fields; its methods make the same statements one
  after another, with rollback on refusal, and are proved to take the steps of the run relation in
  `Ownership`, whose invariant is that every family of rows has one profile. The protocol modules
  reason about runs of those steps.
- Ordered queries go through `Ordering.InOrder`, the one listing of a finite set in a strict total
  order, and `Ordering.Top`, its first rows. Pages are proved equal to slices of that listing.
- The counter and the scan keep their loops: `ReferenceCounts.Tally` and `SourceScan.Scan` update
  their fields step by step and are proved against functions of their input. The worker pool is a
  state machine over claim, give-up and work steps, quantified over every schedule.
- The file tree is built by the same grouping loop and recursion, with the dictionary's key order
  left open and any name comparison.

- What an operation leaves or answers is stated twice: in terms of the functions the protocols run
  on, and, in `JournalEffects`, `SessionEffects`, `ItemMeaning`, `ItemAnswers`, `PageMeaning` and
  `SourceCounts` and at the end of the smaller modules, by the rows, columns and characters
  themselves.

What the code does that its comments do not say, and that the model keeps:

- The newest update of a tool shows the latest facts only up to the history that was prepended
  after it: such rows stay unmerged until the next update (`JournalRuns.NewestUpdateHolds` gives
  the exact condition, `JournalLimits.PrependStaysUnmerged` an example).
- `append_event` stores a newer tool update raw and still deletes the updates between the first
  and it, so it can delete the row with the latest value (`JournalLimits.RawAppendLosesFact`;
  `JournalLimits.AppendKeepsExactly` gives the exact condition).
- History that arrives late can hold a tool row older than the start its newest update names
  (`JournalPositions.PrependPassesTheStart`, `JournalPositions.RawRowKeepsBoundExactly`).
- A save whose `extra` is not a JSON object drops the import cursor
  (`Import.SavingKeepsTheCursorExactly`).
- `file_remote_sessions` replaces `extra` and with it the import cursor, unless a sequence is
  pending (`Import.FilingKeepsTheCursorExactly`).
- `remote_history_gaps` answers an inverted interval for a reversed range
  (`Gaps.NoEmptyGapExactly`).
- The direct symbol search skips past a failed match, so it misses `a.a` in `xa.a.a`
  (`WordSearch.OverlappingNameMissed`; `WordSearch.SearchCompleteExactly` says for which names it
  is complete). For an empty name its loop does not advance, so names are taken non-empty.
- An item page's cursor is only a first sequence, and starts without an item id take up candidate
  places and are then dropped: walks show everything exactly when no two items share a first
  sequence and nothing is passed over in that way (`ItemWalks.WalksAreCompleteExactly`, with
  examples in `ItemWalks.TiedItemsLoseOne` and `ItemWalks.NamelessStartTakesAPlace`).
- `has_before` and `has_after` use other tests than the descriptors: a message whose item has an
  earlier row of another kind is on a page but is not announced
  (`ItemWalks.HiddenItemIsNotAnnounced`), and a start without an item id is announced but on no page
  (`ItemWalks.NothingIsAnnounced`). `ItemPage.HasMoreExactly` says what they do announce.

- Pages of messages sorted by receiver are cut at a name that is read from the session table, which a
  save may rename. A message whose receiver is renamed between two pages can be on both or on none
  (`Messages.RenamedIsListedTwice`, `Messages.RenamedIsNeverListed`); by time and by sender no writer
  moves a stored message (`Messages.MovesExactly`, `Messages.LastingMessageListedOnce`).
- The scan for source files stops after one file more than the limit it works with, 10,000 at least,
  and it walks in another order than the files are listed in, so in a larger tree the answer may lack
  the file that comes first (`SourceList.FirstIsNotListed`; `SourceList.SmallestExactly` gives the
  exact condition).

Conditions the run theorems carry, and why: sequences of one session are not reused, rows written
from outside carry no first position of their own, an item's tool rows are written either newer
than everything stored for the item or as older history, and running-state kinds are not tool
payloads.

## Model

| member | source | states |
|---|---|---|
| JournalRuns.PruningKeepsMeaning | core/src/session_store.rs:4361-4419 | after every run of admissible writes the pruned journal answers every latest-value query as the never-pruned log does, reads the same newest row of each running-state kind, still holds every other row unchanged, and holds nothing that was not written |
| JournalRuns.NewestUpdateHolds | core/src/session_store.rs:537-605 | the newest stored update shows the log's latest value of a field exactly when it brings the field or nothing stored below it does |
| JournalRuns.ChronologicalUpdateHolds | core/src/session_store.rs:537-605 | in a chronological run the newest update of each item shows, for each field, the latest non-empty value over all rows ever written up to it |
| JournalRuns.RunKeeps | core/src/session_store.rs:4361-4419 | the invariant behind both, for every run: missing rows are excused by a newer one, and each item's facts are held by its newest update or were never lost |
| JournalRuns.MeaningKept | core/src/session_store.rs:537-605 | under that invariant pruned journal and log agree on the latest value of each field |
| JournalRuns.NewestOfKindKept | core/src/session_store.rs:48-48 | the newest row of a superseded kind is the log's newest row of that kind |
| JournalEffects.LiveInsertLeaves | core/src/session_store.rs:537-605 | a live insert is refused exactly on a taken sequence; else the row keeps every column it came with, a tool update brings its own facts and else the newest stored ones, names where the tool call began, and is stamped with its own sequence and time; and of the other rows exactly the replaced ones go |
| JournalEffects.RawAppendLeaves | core/src/session_store.rs:3397-3416 | an append stores the row as it came, and of the others exactly the replaced ones go |
| JournalEffects.LiveUpdatesAreStamped | core/src/session_store.rs:600-605 | after every run a live tool update that is still stored carries the stamp of its own sequence and created time, and its own kind, turn, item and state |
| JournalEffects.RunsAnswerAlike | core/src/session_store.rs:4361-4419 | after every run the newest stored row with a value for a field has the value of the newest such row ever written |
| JournalEffects.RunsKeepTheNewest | core/src/session_store.rs:39-48 | after every run the newest row ever written of each running-state kind is stored unchanged and newest |
| JournalEffects.RunsKeepOtherRows | core/src/session_store.rs:4396-4419 | after every run a row that is neither running state nor a tool update is stored as it was written |
| JournalEffects.NormalizeLeaves | core/src/session_store.rs:468-535 | the upgrade rewrites exactly the newest update of each item, from the rows up to it, and not its stamp |
| JournalEffects.ClearLeaves | core/src/session_store.rs:4426-4464 | exactly the rows that are not the newest of a running-state kind, and the tool updates between the first and the newest of their item, are cleared |
| JournalLimits.PrependStaysUnmerged | core/src/session_store.rs:537-605 | a concrete run after which a fact from older history is in the table but not in the newest update |
| JournalLimits.AppendKeepsExactly | core/src/session_store.rs:3397-3416 | a raw append of a newer tool update keeps the row that holds the latest value if and only if it brings the field or that row is not between the item's first update and it |
| JournalLimits.RawAppendLosesFact | core/src/session_store.rs:3397-3416 | two updates and a raw append of a third, after which the latest value is gone from the table |
| JournalLimits.CapKeepsTheNewest | core/src/session_store.rs:4099-4117 | the event cap keeps as many rows as allowed, unchanged, and none it deletes is newer than one it keeps |
| JournalPositions.FirstSequenceNeverRises | core/src/session_store.rs:568-591 | when a live update is stored, its first sequence exceeds neither that of the update before it nor any tool row of the item stored at that moment |
| JournalPositions.RawRowKeepsBoundExactly | core/src/session_store.rs:568-591 | a tool row stored as it came, other than a newest update, keeps the newest update's start at or before every stored tool row if and only if the row is not older than that start and no row it leaves was; what it deletes does not matter when the item's updates are all tool rows, or the row is no update or older than all of them |
| JournalPositions.PrependPassesTheStart | core/src/session_store.rs:568-591 | a run after which the newest update names a start later than a stored tool row of its item |
| JournalPositions.NewestUpdateNamesTheStart | core/src/session_store.rs:568-591 | without older prepends the newest update names the smallest sequence ever written for the item, with that row's time, even after the cap removed the row |
| JournalPositions.AlwaysPaired | core/src/session_store.rs:568-591 | a stored row has a first sequence exactly when it has a first time |
| JournalUpgrade.UpgradeIdempotent | core/src/session_store.rs:4499-4504 | upgrading an upgraded log changes nothing |
| JournalUpgrade.OnlineOfflineAgree | core/src/session_store.rs:4426-4464 | upgrading the raw log of a chronological run keeps exactly the sequences that pruning after each write keeps, each item's newest update with the same payload, and every row that is not a tool update unchanged |
| JournalUpgrade.NewestUpdateAgrees | core/src/session_store.rs:468-535 | the offline merge of an item's newest update is the payload the online merges built up |
| JournalUpgrade.LiveRunSucceeds | core/src/session_store.rs:4361-4394 | a chronological run of live writes never meets a taken sequence |
| SessionStore.DropIsOneFilter | core/src/session_store.rs:4400-4419 | the two deletes of the supersession rule together remove exactly the rows a newer row replaces |
| SessionStore.ClearToolsLast | core/src/session_store.rs:4426-4464 | clearing the running-state kinds and then the middle tool updates removes exactly the rows some newer row made obsolete |
| SessionStore.Store.InsertChronological | core/src/session_store.rs:4361-4394 | a missing session or a taken sequence refuses and changes nothing; else the journal of that session alone changes, by the merged and stamped row and the rows it replaces |
| SessionStore.Store.DropSuperseded | core/src/session_store.rs:4400-4419 | the journal after the deletes is the one without the replaced rows |
| SessionStore.Store.AppendEvent | core/src/session_store.rs:3397-3425 | refused exactly for a missing session or a taken sequence; else the row goes in as it came, replaced rows go, and the activity of that session alone grows to the row's time; every family stays under one profile |
| SessionStore.Store.UpsertSessionWithEvent | core/src/session_store.rs:2109-2127 | refused exactly when the event finds no session or a taken sequence, and then nothing changes; else the row has the saved native id, activity and other columns, keeps parent, profile and a stored project, keeps a stored cursor that the new `extra` object lacks, no other row changes, and the event is inserted |
| SessionStore.Store.ClearSupersededEvents | core/src/session_store.rs:4426-4464 | the loop over kinds and the tool delete leave exactly the rows that are not obsolete |
| SessionStore.Store.UpgradeToolEvents | core/src/session_store.rs:4426-4504 | every journal is normalised and then cleared of superseded rows, and no other table changes |
| SessionStore.Store.EnforceEventCap | core/src/session_store.rs:4099-4117 | as many rows stay as may, each unchanged; every deleted row is older than every row that stays; the number deleted is returned; no other journal changes |
| SessionStore.Store.CacheRemoteEvents | core/src/session_store.rs:1267-1293 | refused, changing nothing, exactly under a row of another owner; else the row is saved as the profile's own and the page replaces the rows of its own sequences and no other |
| SessionStore.Store.UpsertChildSession | core/src/session_store.rs:1373-1434 | accepted exactly when the parent exists under the expected profile and the child is new or already its child there; then the child has that parent and profile and no other row changed; repeated creation changes nothing |
| SessionStore.Store.BindCachedRemoteChild | core/src/session_store.rs:1327-1371 | accepted exactly when the parent is the profile's and the child is too, unbound or bound alike; sets its parent and native id and nothing else; every family stays under one profile |
| SessionStore.Store.CommitChildImportPage | core/src/session_store.rs:1437-1510 | refused, changing nothing, for an event of another session, then for another parent, profile or cursor, then only for a taken sequence; else the events are inserted in order, the cursor is the next one, and the activity is no older than the newest row |
| SessionStore.Store.FileRemoteSessions | core/src/session_store.rs:1523-1542 | one statement: unknown rows are filed under the profile, its own rows keep their project and newest activity, and a pending `extra`, others are left alone; a stored row without JSON refuses them all |
| SessionStore.Store.PurgeRemoteHistory | core/src/session_store.rs:1512-1519 | the cascade included, exactly the rows and journals of the profile are gone |
| SessionStore.Store.DeleteSession | core/src/session_store.rs:2224-2232 | the row is gone with the smallest family below it and their journals, all of the row's own profile; every other row and journal is as it was |
| SessionEffects.UpsertLeaves | core/src/session_store.rs:4603-4656 | every column of the saved row, as above, and no other row |
| SessionEffects.FilingLeaves | core/src/session_store.rs:1523-1542 | one filed row, column by column, and exactly when it is refused |
| SessionEffects.FilingRefusedExactly | core/src/session_store.rs:1523-1542 | rows filed once each are refused exactly when a stored row of the profile among them holds no JSON |
| SessionEffects.MatchIsRead | core/src/session_store.rs:1445-1474 | the cursor test passes exactly when parent, profile and child fit and the stored import member, null excepted, a truth value as a number and a text as the JSON it holds, is the expected value |
| SessionEffects.FreePagesInsert | core/src/session_store.rs:1437-1510 | events with free and different sequences are never refused |
| Ownership.ChildrenShareTheirParentsProfile | core/src/session_store.rs:1327-1434 | in every reachable state a child row has its parent's remote profile |
| Ownership.ProfileNeverChanges | core/src/session_store.rs:1267-1293 | while a row exists its profile is the one it was created with |
| Ownership.PurgeDeletesExactlyTheProfile | core/src/session_store.rs:1512-1519 | in every reachable state purging a profile, cascades included, deletes exactly that profile's rows and journals |
| Ownership.DeleteStaysInTheProfile | core/src/session_store.rs:4720-4726 | deleting a session cascades only to rows of its own profile |
| Json.NoDifferenceIsEquality | core/src/session_store.rs:1463-1474 | neither flattened tree has a row the other lacks exactly when the two JSON values are equal, objects being unordered (section 4 of RFC 8259) |
| Import.MatchIsEquality | core/src/session_store.rs:1445-1474 | a commit's cursor test accepts a value exactly when it equals the stored one, or what a stored text parses to, and parent, profile and child match |
| Import.CommitsFormOneChain | core/src/session_store.rs:1437-1510 | under every interleaving with saves that bring events, appends, caps, cached pages, filings and deletes, the accepted commits form one chain of cursors |
| Import.JournalIsTheWrites | core/src/session_store.rs:1437-1510 | the child's journal is its accepted writes in order, pages and its own events, appends, caps and cached pages, and the pages among them are those of the accepted commits, each once |
| Import.EachCursorSpentOnce | core/src/session_store.rs:1437-1510 | no two accepted commits expected the same cursor, so no page is applied twice |
| Import.StaleRetryRefused | core/src/session_store.rs:1459-1474 | repeating a commit that was accepted is refused and changes nothing |
| Import.OtherStepsKeepTheCursor | core/src/session_store.rs:4603-4656 | whatever is not an accepted commit keeps the child's cursor, as long as nobody writes over it |
| Import.SavingKeepsTheCursorExactly | core/src/session_store.rs:4603-4656 | a save keeps the stored cursor if and only if its `extra` is an object that brings no import member or the same cursor |
| Import.FilingKeepsTheCursorExactly | core/src/session_store.rs:1523-1542 | filing a remote row keeps its cursor exactly when a sequence is pending or the filed value holds the same cursor |
| ImportUpgrade.ImportedJournalIsTheUpgrade | core/src/session_store.rs:1437-1510 | a child that starts with an empty journal and takes only pages and saved events, interleaved in any way that keeps their sequences rising, holds the sequences and newest payloads that upgrading all those rows would leave |
| Pages.OlderPage | core/src/session_store.rs:3719-3776 | an older page is the newest part of its range, all but its oldest row within the budget, never empty while rows remain, and `has_more` exactly when rows remain |
| Pages.NewerPage | core/src/session_store.rs:3778-3831 | the same for newer pages |
| Pages.WalkOlderIsTheRange | core/src/session_store.rs:3719-3776 | scrolling up until `has_more` is false gives every event of the range once, in order |
| Pages.WalkNewerIsTheRange | core/src/session_store.rs:3778-3831 | the same walking newer |
| Pages.RecentIsNewest | core/src/session_store.rs:3656-3692 | the recent window is the newest rows, in order, up to the ceiling and the budget |
| PageMeaning.TotalIsTheSum | core/src/session_store.rs:3719-3776 | the bytes of a listing are those of its rows, added up |
| PageMeaning.OlderPageRows | core/src/session_store.rs:3719-3776 | row by row: rising, exactly the stored rows from its oldest up to the bound, `has_more` exactly for a still older row of the range, and then 8,000 rows or past the budget |
| PageMeaning.NewerPageRows | core/src/session_store.rs:3778-3831 | the same for newer pages |
| PageMeaning.RecentRows | core/src/session_store.rs:3656-3692 | at most 2,000 rows, exactly those from its oldest on |
| PageMeaning.WalkOlderRows | core/src/session_store.rs:3719-3776 | the walk lists exactly the stored rows of the range, rising |
| PageMeaning.WalkNewerRows | core/src/session_store.rs:3778-3831 | the same for newer pages |
| Downloads.HistoryDownloadRows | core/src/session_store.rs:3964-3988 | the loop returns the page's rows, newest first, and the running total of its last row |
| Downloads.CoveredAgrees | core/src/session_store.rs:3953-3988 | the bytes a page adds are those the totals query counts between the page's bound and its oldest row |
| Downloads.ChainedPage | core/src/session_store.rs:3953-3988 | chaining pages, the running count is the totals query's answer for the oldest row, and reaches the total exactly at the lowest sequence |
| Downloads.DownloadIsTheRange | core/src/session_store.rs:3964-3988 | asking for page after page sends every row of the range once, newest first |
| Downloads.DownloadReachesTheTotal | core/src/session_store.rs:3953-3988 | a chain that starts from the facts of a table, or resumes from any of its rows, ends on the table's total, whatever the page size |
| PageMeaning.FactsAre | core/src/session_store.rs:3953-3962 | both ends, the number and the bytes of all rows, and the bytes from a row on |
| PageMeaning.DownloadPageRows | core/src/session_store.rs:3964-3988 | falling, exactly the stored rows from its oldest up to the bound, early end only at 8,000 rows or past the budget |
| PageMeaning.DownloadLists | core/src/session_store.rs:3964-3988 | chained pages list exactly the stored rows below the first bound, falling |
| Gaps.GapsAreTheMissingPart | core/src/session_store.rs:4016-4035 | the gap list is sorted, its intervals are apart by a saved row, and a sequence is in one exactly when it is in the range and not saved |
| Gaps.CountsAddUp | core/src/session_store.rs:3996-4001 | saved rows plus gap lengths make up the range |
| Gaps.NoEmptyGapExactly | core/src/session_store.rs:4016-4035 | every interval is non-empty exactly when the range is not reversed |
| ItemRows.OneStartPerKey | core/src/session_store.rs:104-296 | in each selection mode an item has one starting row, so page keys are distinct |
| ItemMeaning.AssistantItems | core/src/session_store.rs:105-134 | exactly which rows start an assistant item, that its newest message speaks for it, and that it is paid for that message and the deltas after it |
| ItemMeaning.UserItems | core/src/session_store.rs:135-148 | a user message starts at its oldest row, and its newest one speaks for it |
| ItemMeaning.ToolItems | core/src/session_store.rs:149-174 | a tool item is its newest update, shown where the tool call began if it says so, and paid for with the later ends |
| ItemMeaning.ReplayItems | core/src/session_store.rs:175-229 | a replayed item has no tool update, starts at the row shown first, and is paid for all its rows |
| ItemMeaning.CommandItems | core/src/session_store.rs:230-243 | a list of commands starts at the oldest row of its generation, and the newest speaks for it |
| ItemMeaning.ExactItems | core/src/session_store.rs:244-250 | exactly the standalone rows without an id stand for themselves |
| ItemMeaning.StateItems | core/src/session_store.rs:251-267 | running state is the newest row of its kind, written here or cached |
| ItemMeaning.BytesAddUp | core/src/session_store.rs:301-308 | the bytes of a set of rows are the sum of its rows |
| ItemRows.FetchedIsPaid | core/src/session_store.rs:397-434 | for every mode the record read finds exactly the rows the descriptor read added up |
| ItemRows.SecondReadIsWhatWasPaidFor | core/src/session_store.rs:3895-3914 | read up to the watermark and in any order, the records weigh what the descriptors state, each item by itself and together |
| ItemPage.NearestExactly | core/src/session_store.rs:297-301 | the nearest candidates of each source, merged and cut, are the nearest of all items if and only if fewer starts of its own source than the ceiling are nearer than each of the nearest |
| ItemPage.NearestOverall | core/src/session_store.rs:297-301 | which is so when every start names its item and no two items share a first sequence |
| ItemPage.PageIsBudgetPrefix | core/src/session_store.rs:297-308 | a page is the budget prefix of its candidates: it passes the budget only on its last item after items that cost nothing, and stops only before an item that does not fit |
| ItemPage.PagesAreNearestExactly | core/src/session_store.rs:297-308 | on every budget the page is the budget prefix of the nearest items, under exactly that condition |
| ItemPage.OversizedIsOneItem | core/src/session_store.rs:3936-3950 | an oversized page is one item, and oversized exactly because the nearest item alone passes the budget |
| ItemPage.PageIsPaidFor | core/src/session_store.rs:3895-3950 | the records of a page add up to its `transfer_bytes`, and each item's to its `required_bytes` |
| ItemAnswers.PageAnswers | core/src/session_store.rs:305-394 | an answer's cursors are the least and greatest first sequence of its items, its flags say what is announced beyond these, its watermark is the newest row of the range, and it is oversized when its items' bytes pass the budget |
| ItemAnswers.PageLists | core/src/session_store.rs:389-394 | an answer's items are in display order, each once, and are those selected under the ceiling of 512 |
| ItemAnswers.RefusedExactly | core/src/session_store.rs:3861-3866 | only a reversed range is refused |
| ItemAnswers.AnswersListEveryItemOnce | core/src/session_store.rs:3853-3951 | a walk by the answers' own cursors lists each item beyond the start once, first sequences rising, when these are distinct and nothing is passed over |
| ItemAnswers.AnswersCompleteExactly | core/src/session_store.rs:3853-3951 | walks over the answers, from every cursor, in both directions and on every budget, are complete if and only if first sequences are distinct and nothing is passed over |
| ItemAnswers.FollowingAnswersExactly | core/src/session_store.rs:3853-3951 | following the answers' own flags gives the whole walk if and only if no page of it ends with nothing announced beyond it and a page with items after it |
| ItemWalks.WalkVisitsEveryItemOnce | core/src/session_store.rs:3853-3951 | walking by either cursor shows every item beyond the start once, in display order, when first sequences are distinct and no item left out by its source comes before a candidate |
| ItemWalks.NamedPassNothingOver | core/src/session_store.rs:3853-3951 | the second condition holds when every start names its item |
| ItemPage.HasMoreExactly | core/src/session_store.rs:309-387 | `has_before` and `has_after` say exactly whether an item that their probes can see, or a start that names no item, remains beyond the cursor; the probes do not see an assistant or user item that another row of the item precedes |
| ItemPage.FlagIsRightExactly | core/src/session_store.rs:309-387 | when the flag agrees with whether items remain: with none left, exactly when no nameless start is left; with some left, exactly when one can be seen or a nameless start is counted |
| ItemWalks.WalkWhileMoreIsTheWalk | core/src/session_store.rs:3853-3951 | for every table, cursor and budget: a reader who follows the flags shows what the walk to the end shows if and only if no page of that walk ends with its flag down and a page with items after it |
| ItemWalks.FollowingTheFlagsExactly | core/src/session_store.rs:3853-3951 | when nothing is passed over: if and only if no page ends where items remain that are all hidden from the probes and no nameless start is counted |
| ItemWalks.FollowingTheFlagsSuffices | core/src/session_store.rs:3853-3951 | which is so when no item is hidden from the probes |
| ItemWalks.HiddenItemIsNotAnnounced | core/src/session_store.rs:312-315 | a table in which a message lies before the cursor and `has_before` is false |
| ItemWalks.NothingIsAnnounced | core/src/session_store.rs:316-319 | a table in which `has_before` is true and no item lies before the cursor |
| ItemWalks.WalksAreCompleteExactly | core/src/session_store.rs:3853-3951 | walks in both directions, from every cursor and on every budget, show every item once if and only if no two items share a first sequence and no item left out by its source comes before a candidate |
| ItemWalks.TiedItemsLoseOne | core/src/session_store.rs:305-308 | a table in which two items share a first sequence and a walk passes over one of them |
| ItemWalks.NamelessStartTakesAPlace | core/src/session_store.rs:135-148 | a table of 512 messages without an item id before a named one, whose walk shows nothing |
| ReferenceCounts.NewPlan | core/src/reference_counts.rs:60-77 | plain names are looked up by text, under their last index, and every other name is searched for |
| ReferenceCounts.Tally.Record | core/src/reference_counts.rs:109-115 | a symbol counts once for a line, saturating |
| ReferenceCounts.Tally.CountReferenceLines | core/src/reference_counts.rs:235-269 | every total grows by the number of lines counted for its symbol, a line with repeats counting once, and sticks at the u32 maximum |
| ReferenceCounts.CountsIsMention | core/src/reference_counts.rs:235-269 | for distinct names that cannot overlap after a break a counted line is exactly a line that mentions the name as a whole word |
| ReferenceCounts.LineCountIsMentions | core/src/reference_counts.rs:235-269 | for such a name the lines counted in a file are the lines that mention it |
| ReferenceCounts.CountsBesideOtherBytes | core/src/reference_counts.rs:308-314 | a word followed or preceded by a byte counts exactly when the byte is no ASCII letter, digit or underscore |
| ReferenceCounts.OneWordCountsOnce | core/src/reference_counts.rs:244-262 | a line that is one word counts for the name equal to it and for no other |
| ReferenceCounts.CountsStanding | core/src/reference_counts.rs:235-269 | a line counts for a name that cannot overlap after a break exactly when the name stands in it with none of these characters before or after it |
| ReferenceCounts.NormalizedSymbols | core/src/reference_counts.rs:217-233 | blanks and repeats are dropped, order is kept, and the request stops at 256 names |
| ReferenceCounts.NormalizedShape | core/src/reference_counts.rs:217-233 | the names of a pass are distinct and asked for, and one is missing only at the limit |
| ReferenceCounts.NormalizedInOrder | core/src/reference_counts.rs:217-233 | names are in the order they are first asked for, at most 256, and none is left out that is asked for before a kept one |
| WordSearch.Search | core/src/reference_counts.rs:277-294 | what the direct search returns is a whole-word occurrence |
| WordSearch.FindReferenceColumn | core/src/reference_counts.rs:277-294 | the loop finds what the search by skipping failed matches finds |
| WordSearch.SearchFindsLeftmost | core/src/reference_counts.rs:277-294 | without an overlap after a break the search finds an occurrence no later than any whole word |
| WordSearch.SearchCompleteExactly | core/src/reference_counts.rs:277-294 | the search finds a mention in every line that has one if and only if no shifted copy of the name starts after a break inside it |
| WordSearch.OverlappingNameMissed | core/src/reference_counts.rs:287-290 | `a.a` is mentioned in `xa.a.a` and not found |
| WordSearch.ScanAgreesWithSearch | core/src/reference_counts.rs:244-262 | for a plain name the one-pass identifier scan, the direct search and the mention as a whole word are the same test |
| WordSearch.MentionsExactly | core/src/reference_counts.rs:296-314 | a whole word is an occurrence with no ASCII letter, digit or underscore at either side |
| CountPool.EachIndexClaimedOnce | core/src/reference_counts.rs:163-169 | under every schedule the claims receive 0, 1, 2 and so on, each once |
| CountPool.EverySchedule | core/src/reference_counts.rs:141-205 | what every schedule keeps: each claimed file has one fate, flags are up exactly when some file met it, and the saturated sum of the tallies is exact for the counted files |
| CountPool.PassTotals | core/src/reference_counts.rs:192-213 | with neither flag up every file was scanned and each total is the saturated exact count; otherwise each total is a lower bound |
| CountPool.PassCountsMentions | core/src/reference_counts.rs:141-233 | for requested names that cannot overlap after a break: with neither flag up each total is the saturated number of lines of all files that mention the name, and it never is more |
| Messages.CursorIsComesAfter | core/src/broker.rs:119-131 | the cursor test is exactly "comes after in the ORDER BY", for the mixed ascending and descending key |
| Messages.PrecedesIsTotal | core/src/broker.rs:123-124 | key ascending, time and id descending is a strict total order of message places |
| Messages.PageLeavesOut | core/src/broker.rs:478-493 | a row that qualifies is on the page, or the page is full and ends before it |
| Messages.PageShows | core/src/broker.rs:117-131 | a page lists qualifying messages by sender or receiver, smaller names first, then later times, then larger ids; what else qualifies comes after all of them, and then the page is full |
| Messages.ChainListsEveryPlaceOnce | core/src/broker.rs:478-493 | whatever is written between pages, chained pages are strictly in order, list only rows stored at that place, and once a short page ends the chain have listed every place taken in all the tables |
| Messages.LastingMessageListedOnce | core/src/broker.rs:478-493 | a message stored and wanted throughout, with the same time and the same value of the name it is sorted by, is listed at most once, and exactly once when a short page ends the chain |
| Messages.MovesExactly | core/src/broker.rs:117-124 | a message changes its place if and only if its time or the name it is sorted by changes |
| Messages.SameSideExactly | core/src/broker.rs:119-131 | two places are on the same side of every cursor if and only if they are the same |
| Messages.RenamedIsListedTwice | core/src/broker.rs:478-493 | a message whose receiver is renamed between two pages and which is on both |
| Messages.RenamedIsNeverListed | core/src/broker.rs:478-493 | a message whose receiver is renamed between two pages and which is on none, though the chain ends on a short page |
| Receipts.Broker.SetReceipt | core/src/broker.rs:370-398 | a receipt is taken exactly by a queued message and changes nothing of it but receipt and time; no other message and no settled one changes, and the error tells settled from unknown |
| Receipts.LeavesTheQueueOnce | core/src/broker.rs:370-398 | over every run of sends and receipts a message leaves the queue at most once |
| Receipts.TerminalStays | core/src/broker.rs:370-398 | over every run a message with a terminal receipt never changes again |
| Receipts.DrainTakesAllInOrder | core/src/broker.rs:452-463 | taking what is pending until nothing is takes every waiting message of the target and sender once, in order of creation, and touches no other |
| Receipts.PendingIsOldest | core/src/broker.rs:452-463 | what is pending waits, nothing that waits was created before it, and nothing is pending exactly when nothing waits |
| Receipts.DrainLeaves | core/src/broker.rs:452-463 | the drain takes exactly the waiting messages, older ones first, and changes only their receipt and time |
| SourceScan.Scan.Collect | core/src/source.rs:258-320 | the recursion leaves records and counters as the run over the flattened walk does, stopping at the limit or at the first directory that cannot be read |
| SourceScan.Scan.RecordSkippedDirectory | core/src/source.rs:322-343 | every skipped directory is counted and the first sixteen are kept |
| SourceCounts.DiagnosticsCount | core/src/source.rs:258-343 | every counter is a count over the first entries of the tree in walk order, the samples are the first sixteen directories left out, and without the collection limit they cover the whole tree |
| SourceCounts.MatchesAre | core/src/source.rs:280-318 | the matches are the files below, outside directories left out, whose language is known and that are asked for |
| SourceList.ListSourceFiles | core/src/source.rs:143-192 | the method answers what the functional description answers, errors included, and lists lower scores first and files of one score by path: case aside by the first different character, the shorter first, and then by case |
| SourceList.PathBeforeExactly | core/src/source.rs:453-457 | the path comparator is that order, character by character |
| SourceList.ListedByPath | core/src/source.rs:435-444 | of two listed files of one score the one whose path is first stands first |
| SourceList.TruncatedExactly | core/src/source.rs:143-192 | for every tree that reads, `truncated` holds exactly when more files match than the limit, and the collection limit is reported as reached exactly when that many match |
| SourceList.SmallestExactly | core/src/source.rs:143-192 | for every tree that reads, the files are the smallest matches of the whole tree in record order if and only if the walk meets each of these before it has collected enough |
| SourceList.AllAreMet | core/src/source.rs:384-389 | which is so when fewer files match than the collection limit |
| SourceList.SmallestOfTheTree | core/src/source.rs:143-192 | then files and the rest together are the matches of the tree, the files are in record order, and no match left out comes before one of them |
| SourceList.FirstIsNotListed | core/src/source.rs:274-279 | a tree with 10,001 fixtures whose smallest file is met too late and is not in the answer |
| SourceList.WalkOrderShowsExactly | core/src/source.rs:391-444 | of two trees with the same matches under distinct paths, one of whose walks meets the smallest in time, the other lists the same files if and only if its walk does too |
| SourceList.WalkOrderDoesNotShow | core/src/source.rs:391-444 | two trees with the same matches under distinct paths, fewer than the collection limit, list the same files in whatever orders they are met |
| SourceList.RefusedExactly | core/src/source.rs:270-277 | the listing fails exactly when the walk meets an unreadable directory before it has collected enough |
| SourceList.DiagnosticsAgree | core/src/source.rs:170-191 | returned and matched counts agree with the files and with `truncated`, the counters do not exceed the visited entries, and at most sixteen skipped directories are sampled |
| SourceList.NotAfterChains | core/src/source.rs:435-444 | the record comparator is a consistent weak order |
| Spans.NormalizeSpans | core/src/source.rs:807-827 | empty spans are dropped and each remaining range is listed once, in order, with the role kept for it |
| Spans.RoleAtIsFirstHighest | core/src/source.rs:807-842 | the role kept for a range is that of the first among its spans of highest priority |
| Spans.RoleAtExactly | core/src/source.rs:807-842 | the role kept is one no capture of the range is stronger than, the first of these, in the ranking from keyword, function and constructor down to variable and comment |
| FileTree.BuildNodes | Sources/MacCommandBarKit/Models.swift:374-426 | terminates; the tree holds exactly the entries with a component, each under the folders its components name; no level has two folders of one name or an empty folder; siblings are in name order |
| FileTree.Build | Sources/MacCommandBarKit/Models.swift:364-372 | the same for the files of a listing |
| FileTree.PlacedExactly | Sources/MacCommandBarKit/Models.swift:364-372 | each file is in the tree as often as it was given, under exactly the folders its relative path names, and nowhere if the path names nothing |
| FileTree.SplitUndoesJoin | Sources/MacCommandBarKit/Models.swift:399-402 | splitting a folder's relative path gives back the folders it was joined from |
| FileTree.SplitAtSlash | Sources/MacCommandBarKit/Models.swift:364-372 | a path is cut at its slashes and nowhere else, and empty parts are left out |
| FileTree.SplitGivesNames | Sources/MacCommandBarKit/Models.swift:364-372 | every component of a path is non-empty and free of separators |

## Left out

- SQLite itself: indexes, query plans, WAL, locking and interrupt handles; a transaction is one step that happens or does not.
- JSON text: payloads and `extra` are values, `json_patch` adds the present fields, the paths of `json_tree` stand for themselves, and what a text parses to is any function; a text that is no JSON fails the cursor test like a difference does.
- Import.CommitsFormOneChain: accepted cursors are objects that advance along some rank; a writer that replaces the cursor itself is outside it, and `Import.SavingKeepsTheCursorExactly` and `Import.FilingKeepsTheCursorExactly` say which writes do.
- JournalRuns.PruningKeepsMeaning: assumes rows as `append_event` may receive them only for other kinds and for older history; `JournalLimits.AppendKeepsExactly` says what happens otherwise.
- JournalUpgrade.OnlineOfflineAgree: says nothing of the payload of an item's first update when it is not the newest, which the live path merges and the upgrade leaves raw.
- Payload lengths are arbitrary numbers, in characters or bytes as the query has it; sums do not wrap.
- The represented turn facts of an item page, and the descriptor columns other than key, first sequence, authority and bytes.
- Generations and sequences inside page keys compare as numbers instead of text; two keys that differ in nothing else never share a first sequence.
- The schema version ladder apart from the tool-event upgrade, and plain storage: drafts, annotations, attachments, settings, tasks, snapshots and session handles.
- Message filters, LIKE matching and the directory naming view: one arbitrary predicate over messages. Groups, review reports and the wake-up after a receipt are left out.
- CountPool.PassTotals: worker panics, the clock and file reading are not modelled; running out of time and failing to read are choices of the schedule and of the file.
- Tree-sitter parsing, highlight queries, language tables, skipped directory names and the path score of the source list, which is any integer function.
- SourceScan.Scan.Collect: its loop body is the method `Meet`, which recurses; the order of a directory's entries is whatever order they are given in.
- FileTree.BuildNodes: names are compared by any function; that siblings are in order is stated for comparisons that are weak orders.
- SessionStore.Store.DeleteSession: the orchestrator mark in the settings table is not part of the model.
- Locale-aware comparison, file system access, process launching, views, cryptography and the build scripts.
