# Message persistence and reconciliation, modelled in Dafny

This project models the logic core of a SwiftUI message-inbox app (`test_msg`):

- the SQLite store of per-message state and user remarks, with its schema migrator;
- the analytics ledger that folds message events into a "today" row and a lifetime row;
- the message list view model: paging, refresh, push arrival, mark-read, pin, remark, unread badge, sorting and search;
- the remark editor;
- the case-insensitive keyword highlighter, which the source implements twice;
- the paging arithmetic of the mock message service;
- the small pure parts of the `Message` model.

Each part is an immutable datatype with pure functions. Every operation carries a
contract that states what the source promises. Lemmas tie operations to their partners:
an inverse, a preserved invariant, or a reference definition.

Files, one module each, in import order:

| file | module | models |
|---|---|---|
| `wrappers.dfy` | `Wrappers` | Swift optionals and `??` |
| `text.dfy` | `Text` | `lowercased()` as a length-preserving per-character map; substring search (`range(of:)`, `contains`) |
| `message.dfy` | `Messages` | `MessageType`, `MessageContent`, `Message`, `MessageDTO` |
| `store.dfy` | `Store` | `DatabaseManager` |
| `analytics.dfy` | `Analytics` | `AnalyticsManager` stats and rates |
| `highlight.dfy` | `Highlight` | `HighlightedTextView.splitText`/`body` and `MessageListViewModel.highlightedText` |
| `paging.dfy` | `Paging` | `MockDataService.fetchMessages` paging |
| `message_list.dfy` | `MessageList` | `MessageListViewModel` |
| `remark_editor.dfy` | `RemarkEditor` | `RemarkViewModel` |

Modelling conventions:

- **The database.** It is a value `Db(schema, states, remarks)`. The schema is a version number plus each table's column set. A statement SQLite would refuse to prepare, because its table or column is missing, reads nothing and writes nothing, as the source ignores failed prepares.
- **Clocks and dates.**
  - Wall-clock time is an explicit `now` argument.
  - Message timestamps are integers.
  - Analytics dates are opaque strings supplied by the caller.
- **Rates.** They are exact fractions `Rate(num, den)` instead of `Double`.
- **Fetches and network requests.** They are represented by what they deliver:
  - the list view model's `FetchOutcome` (a page and its more-flag, or a failure with its description);
  - for paging, the full list the mock service pages through.

On these points the model follows the code as written:

- Pinned messages are also ordered by timestamp among themselves, not by pin time.
- No event ever changes the lifetime row's unread counter.
- On a date change the stale "today" row is dropped. It is not pushed into the weekly history.
- A refresh that returns no messages shows the empty state, while the old list stays in the view model until the next non-empty load replaces it.
- A refresh that fails or returns no messages still resets the paging cursor to page 0 but keeps the loaded list. The next load-more therefore requests page 1 again and appends a second copy of messages already in the list (`MessageList.RefreshFailureRepeatsPage`).
- `splitText` finds nothing for an empty keyword, because Foundation's `range(of: "")` returns `nil`. So for every input it agrees with `highlightedText`, whose empty-keyword guard is redundant.

## Model

| member | source | states |
|---|---|---|
| Text.LowerStr | test_msg/Views/Components/HighlightedTextView.swift:45-46 | lower-casing keeps the length, so positions found in the lowered text are valid positions in the original |
| Text.LowerSlice | test_msg/Views/Components/HighlightedTextView.swift:56-57 | lowering a slice is slicing the lowered text, so the original-case match lowers to the keyword |
| Text.FindFrom | test_msg/Views/Components/HighlightedTextView.swift:48 | a search reports a position only for a non-empty keyword, at or after the start position, with the whole keyword inside the text |
| Text.FindFromFinds | test_msg/Views/Components/HighlightedTextView.swift:48 | `range(of:)` from a position returns the leftmost occurrence at or after it, or nothing when there is none or the keyword is empty |
| Text.FindFromStartIffContains | test_msg/ViewModels/MessageListViewModel.swift:41-43 | `contains` holds exactly when a search from the start finds the keyword |
| Messages.TypeKeyListed | test_msg/Models/Message.swift:11-17 | each message type's raw key is one of the five listed keys |
| Messages.FieldsRoundTrip | test_msg/Models/Message.swift:27-40 | the record form of a content body (type tag plus optional fields) decodes back to the same variant |
| Messages.TextOf | test_msg/Models/Message.swift:43-45 | the text factory tags `text` and sets no optional field |
| Messages.ImageOf | test_msg/Models/Message.swift:48-50 | the image factory tags `image` and sets only the image URL |
| Messages.ButtonOf | test_msg/Models/Message.swift:53-55 | the button factory tags `button` and sets only the button text and action |
| Messages.DisplayName | test_msg/Models/Message.swift:73-78 | the shown name is the remark when there is a non-empty one, the nickname otherwise |
| Messages.LegacyMessage | test_msg/Models/Message.swift:124-136 | the legacy initializer leaves the message unpinned with a text body equal to the summary |
| Messages.ToMessage | test_msg/Models/Message.swift:167-181 | decoding copies the payload fields, defaults the pin to false and the body to the summary text, and never sets a remark |
| Messages.ToMessageOfLegacyPayload | test_msg/Models/Message.swift:167-181 | a payload without pin and body decodes to exactly what the legacy initializer builds |
| Store.MigrateToV1 | test_msg/Services/DatabaseManager.swift:86-113 | both tables exist afterwards, no existing table loses a column, and no row changes |
| Store.MigrateToV2 | test_msg/Services/DatabaseManager.swift:116-149 | the pinned column, looked up as `columnExists` does (`Store.ColumnExists`: a missing table lists no columns), exists afterwards whenever the state table does; tables, read states and remarks are kept, and no old row becomes pinned |
| Store.RunMigrations | test_msg/Services/DatabaseManager.swift:50-63 | from any consistent layout the store ends at version 2 with both tables and the pinned column, keeping every row |
| Store.MigrationIdempotent | test_msg/Services/DatabaseManager.swift:50-63 | running the migrator again changes nothing |
| Store.MigrationReadsOldRowsUnpinned | test_msg/Services/DatabaseManager.swift:116-129 | a row written before the pinned column existed reads back with its read state and unpinned |
| Store.GetState | test_msg/Services/DatabaseManager.swift:215-233 | a state is found exactly when the state table is usable and holds a row for the id |
| Store.GetAllStates | test_msg/Services/DatabaseManager.swift:244-263 | the bulk read has an entry exactly for the ids a single read finds, with the same value |
| Store.SaveState | test_msg/Services/DatabaseManager.swift:172-193 | an upsert: the id then reads back exactly the written triple and every other id reads as before |
| Store.SaveReadState | test_msg/Services/DatabaseManager.swift:196-201 | writes the read part and keeps the stored pin, false when no row existed |
| Store.UpdatePinned | test_msg/Services/DatabaseManager.swift:204-212 | writes the pin and keeps the stored read part, unread with count 0 when no row existed |
| Store.LastIndex | test_msg/Services/DatabaseManager.swift:338-342 | finds the last message carrying an id, the one whose save is the final one for that id |
| Store.BatchSave | test_msg/Services/DatabaseManager.swift:338-342 | the batch equals saving each message in order: every id holds the state of its last message, other ids untouched |
| Store.BatchSaveDistinctIds | test_msg/Services/DatabaseManager.swift:244-263 | after a batch into an empty table there is one state per distinct id and none for ids never written |
| Store.SaveRemark | test_msg/Services/DatabaseManager.swift:268-291 | the id then reads back the new remark and nickname, other ids keep theirs, and the state table is untouched |
| Store.GetRemark | test_msg/Services/DatabaseManager.swift:294-312 | a remark is found exactly when the remark table is usable and holds a row for the id |
| Store.GetAllRemarks | test_msg/Services/DatabaseManager.swift:315-333 | the bulk read agrees with single reads on every id |
| Store.RemarkCreatedAtFixed | test_msg/Services/DatabaseManager.swift:268-291 | the creation time is set by the first save and kept by later saves, while the update time follows the last save |
| Store.ApplyPersistedData | test_msg/Services/DatabaseManager.swift:345-364 | keeps length, order and every feed field; overwrites read, unread and pin only for ids with stored state, and the remark only for ids with a stored remark |
| Store.ApplyPersisted | test_msg/Services/DatabaseManager.swift:345-364 | each message takes its state and remark from the store when present and keeps its own otherwise |
| Store.ApplyPersistedIdempotent | test_msg/Services/DatabaseManager.swift:345-364 | reconciling twice is reconciling once |
| Store.ApplyPersistedAppend | test_msg/Services/DatabaseManager.swift:345-364 | reconciliation works message by message, so it distributes over concatenation |
| Analytics.Percent | test_msg/Services/AnalyticsManager.swift:49-52 | a percentage is the exact fraction `100 * part / whole`, and 0 when the whole is 0 |
| Analytics.Ctr | test_msg/Services/AnalyticsManager.swift:49-52 | click-through rate of a day: clicks per display in percent, 0 with no displays |
| Analytics.ReadRate | test_msg/Services/AnalyticsManager.swift:55-58 | read rate of a day: reads per receipt in percent, 0 with no receipts |
| Analytics.RecallRate | test_msg/Services/AnalyticsManager.swift:69-72 | a type's recall rate: clicks per receipt in percent, 0 with no receipts |
| Analytics.TypeCtr | test_msg/Services/AnalyticsManager.swift:75-78 | a type's click-through rate: clicks per display in percent, 0 with no displays |
| Analytics.BumpType | test_msg/Services/AnalyticsManager.swift:173-203 | an event adds exactly its entry of the effect table to a type entry's counters |
| Analytics.Count | test_msg/Services/AnalyticsManager.swift:161-171 | a missing type entry is created before counting, and the date and unread counter are untouched |
| Analytics.AdjustUnread | test_msg/Services/AnalyticsManager.swift:173-197 | a receipt raises today's unread by one, a read lowers it by one but never below zero, other events leave it |
| Analytics.Current | test_msg/Services/AnalyticsManager.swift:157-159 | on a new date today's row is replaced by a zeroed row for that date, otherwise kept |
| Analytics.UpdateStats | test_msg/Services/AnalyticsManager.swift:153-208 | an update dates today's row with the given date and leaves the weekly buffer and the event log alone |
| Analytics.UpdateStatsCounts | test_msg/Services/AnalyticsManager.swift:153-208 | both rows gain exactly the event's increments in total and in the message type's entry, no other entry changes, and the lifetime unread counter never moves |
| Analytics.TrackEvent | test_msg/Services/AnalyticsManager.swift:113-124 | tracking appends exactly one record to the log and applies exactly one stats update |
| Analytics.ButtonClickedIsClicked | test_msg/Services/AnalyticsManager.swift:186-203 | a button click is counted exactly like a click |
| Analytics.ReplayLogs | test_msg/Services/AnalyticsManager.swift:113-124 | tracking a run of events appends all of them to the log, in order |
| Analytics.ReplayAppend | test_msg/Services/AnalyticsManager.swift:113-124 | tracking two runs of events one after the other is tracking their concatenation |
| Analytics.ReplayReceived | test_msg/Services/AnalyticsManager.swift:173-178 | n receipts on the current date add n to today's received and unread counters |
| Analytics.ReplayRead | test_msg/Services/AnalyticsManager.swift:192-197 | k reads with at least k unread add k to reads and remove k unread |
| Analytics.ReceiptsOnNewDate | test_msg/Services/AnalyticsManager.swift:153-178 | n receipts starting on a new date leave today's row with n received and n unread |
| Analytics.ReceiveThenReadCounts | test_msg/Services/AnalyticsManager.swift:153-208 | n receipts then k <= n reads on one date give n received, k read and n - k unread |
| Analytics.ReceiveThenRead | test_msg/Services/AnalyticsManager.swift:153-208 | the same run also logs every event in order and gives a read rate of exactly 100 * k / n percent |
| Analytics.Rollover | test_msg/Services/AnalyticsManager.swift:157-159 | on a new date today's row starts from zero while the lifetime row keeps accumulating |
| Analytics.UpdateKeepsConsistent | test_msg/Services/AnalyticsManager.swift:153-208 | every update keeps each row's totals equal to the sums over its type entries, and today's unread between received minus read and received |
| Analytics.TypeName | test_msg/Services/AnalyticsManager.swift:305-314 | the five known keys get their own label and any other key is shown as it is |
| Analytics.TypeNamesDistinct | test_msg/Services/AnalyticsManager.swift:305-314 | no two message types share a label |
| Highlight.SplitText | test_msg/Views/Components/HighlightedTextView.swift:42-70 | the scanning loop returns exactly the functional split, whose spans spell out the text |
| Highlight.Scan | test_msg/Views/Components/HighlightedTextView.swift:48-67 | the loop emits, round by round, the plain text before each match and the match, then the plain rest |
| Highlight.SplitFacts | test_msg/Views/Components/HighlightedTextView.swift:42-70 | `Split` (`splitText`): the spans spell out the text, no two plain spans touch, every highlight is the keyword up to case, matches follow the leftmost non-overlapping scan, and no span is empty for non-empty text |
| Highlight.SplitHighlightsIffOccurs | test_msg/Views/Components/HighlightedTextView.swift:48 | some span is highlighted exactly when the keyword occurs in the text, ignoring case |
| Highlight.SplitWithoutOccurrence | test_msg/Views/Components/HighlightedTextView.swift:69 | a keyword that does not occur, or an empty one, yields the text as one plain span |
| Highlight.SplitExample | test_msg/Views/Components/HighlightedTextView.swift:48-60 | "test test" with keyword "test" gives highlighted "test", plain " ", highlighted "test": matches do not overlap |
| Highlight.HighlightedText | test_msg/ViewModels/MessageListViewModel.swift:294-325 | the view model's copy, with its empty-keyword guard, returns the same spans as the view's split for every input |
| Highlight.Body | test_msg/Views/Components/HighlightedTextView.swift:19-25 | an empty keyword renders the plain text unsplit, and what is shown always reads as the input text |
| Paging.FetchPage | test_msg/Services/MockDataService.swift:219-236 | page p is the slice from p * 10 to the smaller of p * 10 + 10 and the count, is empty with no more past the end, has at most 10 items, and exactly 10 when more follows |
| Paging.PagesFromRest | test_msg/Services/MockDataService.swift:219-236 | loading from a page until one reports no more yields exactly the rest of the list |
| Paging.AllPages | test_msg/Services/MockDataService.swift:219-236 | loading pages from the first until one reports no more yields the whole list in order |
| Paging.PagesAdjacent | test_msg/Services/MockDataService.swift:223-224 | consecutive pages leave neither gaps nor overlaps |
| MessageList.SortMessages | test_msg/ViewModels/MessageListViewModel.swift:48-55 | the sorted list is a permutation of the messages in which no message follows one it should precede |
| MessageList.InsertOrdered | test_msg/ViewModels/MessageListViewModel.swift:48-55 | inserting into an ordered list keeps it ordered |
| MessageList.OrderedGroups | test_msg/ViewModels/MessageListViewModel.swift:50-53 | in an ordered list every pinned message precedes every unpinned one, and timestamps do not increase within each group |
| MessageList.NotPrecedesTransitive | test_msg/ViewModels/MessageListViewModel.swift:49-54 | `Precedes`, the sort closure, is a strict weak order, so "not before" is transitive |
| MessageList.SortOrderedIsIdentity | test_msg/ViewModels/MessageListViewModel.swift:48-55 | an already ordered list sorts to itself, so sorting is idempotent |
| MessageList.SortExample | test_msg/ViewModels/MessageListViewModel.swift:48-55 | an unpinned message at 10 and pinned ones at 5 and 8 sort as pinned 8, pinned 5, unpinned 10 |
| MessageList.FilterContents | test_msg/ViewModels/MessageListViewModel.swift:40-44 | the filter keeps every matching message as often as it occurs and drops every other one |
| MessageList.FilterKeepsOrder | test_msg/ViewModels/MessageListViewModel.swift:40-44 | filtering keeps relative order, so the filtered sorted list is still ordered |
| MessageList.FilteredMessagesFacts | test_msg/ViewModels/MessageListViewModel.swift:35-45 | `FilteredMessages`, the visible list, is always ordered; without a query it holds every message; with one it holds exactly the messages whose lowered name, summary or body contains the lowered query |
| MessageList.UnreadAppend | test_msg/ViewModels/MessageListViewModel.swift:287-289 | `UnreadTotal`, the badge `updateUnreadCount` computes, of a concatenation is the sum of the parts' badges |
| MessageList.UnreadUpdate | test_msg/ViewModels/MessageListViewModel.swift:287-289 | replacing one message changes the badge by the difference of the two messages' contributions |
| MessageList.FindIndex | test_msg/ViewModels/MessageListViewModel.swift:249 | finds the first message with the id, or reports that none has it |
| MessageList.MarkAsRead | test_msg/ViewModels/MessageListViewModel.swift:248-261 | the first message with the id becomes read with count 0 and every other message stays; the store records that; the badge is recomputed; an unknown id changes neither list nor store |
| MessageList.MarkAsReadEffect | test_msg/ViewModels/MessageListViewModel.swift:248-261 | the badge drops by exactly what the message contributed, and the store then reads it as read with its stored pin |
| MessageList.TogglePinned | test_msg/ViewModels/MessageListViewModel.swift:264-273 | only the first matching message's pin flips, the store records the new flag, and an unknown id changes nothing |
| MessageList.TogglePinnedEffect | test_msg/ViewModels/MessageListViewModel.swift:264-273 | toggling twice restores the list, the badge stays in sync, and the store's pin equals the message's new flag |
| MessageList.UpdateRemark | test_msg/ViewModels/MessageListViewModel.swift:276-279 | only the first matching message's remark changes, and nothing is written to the store |
| MessageList.UpdateRemarkEffect | test_msg/ViewModels/MessageListViewModel.swift:276-279 | a non-empty remark becomes the shown name, an empty one shows the nickname, and the badge is unaffected |
| MessageList.HandleNewMessage | test_msg/ViewModels/MessageListViewModel.swift:87-105 | the arriving message goes on top with its own feed fields, the stored read and pin state, and the stored remark (its own when none is stored); the rest of the list and every other field stay, and the badge is recomputed |
| MessageList.HandleNewMessageBadge | test_msg/ViewModels/MessageListViewModel.swift:87-105 | an arrival raises the badge by exactly the new message's contribution |
| MessageList.LoadInitialData | test_msg/ViewModels/MessageListViewModel.swift:129-173 | only the first call loads; a non-empty first page becomes the list, an empty one shows the empty state, and a failure shows its description; neither of the last two changes the list, the more-flag or the badge |
| MessageList.Refresh | test_msg/ViewModels/MessageListViewModel.swift:176-215 | the cursor returns to page 0; a failure keeps the list and shows the error only when the list is empty; an empty result keeps the list and shows the empty state; neither changes the badge |
| MessageList.LoadMore | test_msg/ViewModels/MessageListViewModel.swift:218-243 | nothing happens without more pages or during a load-more; otherwise a non-empty next page is appended and becomes current, and the state ends idle with the response's more-flag |
| MessageList.LoadMoreAdvances | test_msg/ViewModels/MessageListViewModel.swift:218-243 | while more exists, a load-more appends the reconciled next page and moves the cursor onto it |
| MessageList.InitialLoadIsLoaded | test_msg/ViewModels/MessageListViewModel.swift:129-173 | a first load of a non-empty feed shows its first page, reconciled, with the right more-flag |
| MessageList.ExtendPrefix | test_msg/ViewModels/MessageListViewModel.swift:231-235 | appending the reconciled next slice gives the reconciled longer prefix |
| MessageList.LoadMoreKeepsLoaded | test_msg/ViewModels/MessageListViewModel.swift:218-243 | repeated load-mores walk the feed page by page; the list is always the reconciled prefix up to the current page |
| MessageList.RefreshFailureRepeatsPage | test_msg/ViewModels/MessageListViewModel.swift:176-178 | after a failed refresh of a list loaded through page 1 or beyond with more to come, the next load-more appends page 1 again, so its ten messages appear twice |
| MessageList.LoadedToTheEnd | test_msg/ViewModels/MessageListViewModel.swift:238 | once no more is reported, the list is the whole feed reconciled, in feed order |
| MessageList.OperationsKeepUnreadInSync | test_msg/ViewModels/MessageListViewModel.swift:287-289 | after every operation the badge equals the sum of unread counts over unread messages |
| RemarkEditor.Open | test_msg/ViewModels/RemarkViewModel.swift:28-38 | the editor keeps the message's id and original nickname and starts from the stored remark, else the message's remark, else empty |
| RemarkEditor.Edit | test_msg/ViewModels/RemarkViewModel.swift:17 | typing replaces the remark and nothing else |
| RemarkEditor.HasChanges | test_msg/ViewModels/RemarkViewModel.swift:72-74 | there are no changes exactly when the remark equals the original, a missing original counting as empty |
| RemarkEditor.Save | test_msg/ViewModels/RemarkViewModel.swift:43-64 | saving stores the current remark under the captured id and original nickname, and touches no other id |
| RemarkEditor.OpenHasNoChanges | test_msg/ViewModels/RemarkViewModel.swift:28-74 | an editor opened on an untouched message shows no change, and any edit to a different text shows one |
| RemarkEditor.SaveThenReopen | test_msg/ViewModels/RemarkViewModel.swift:28-64 | what was typed and saved is what the editor shows when opened again, stored under the original nickname |
| RemarkEditor.MessageIdFixed | test_msg/ViewModels/RemarkViewModel.swift:67-69 | `MessageId` (`getMessageId`) reports the opened message's id, through edits |

## Left out

- SQLite itself: the C API, file paths, `PRAGMA` statements and logging. Tables are maps, and the schema is a version plus column sets.
- The `Int32` conversion when binding unread counts. A count outside the 32-bit range would trap in the source. The model keeps unbounded integers.
- `getMessageReadState` (DatabaseManager.swift:236-241). It is a projection of `getMessageState` that nothing in the core calls.
- Analytics persistence through UserDefaults and JSON (`saveStats`, `loadStats`), random mock history, and `resetStats`. They are I/O and randomness.
- `DateFormatter`, `Calendar` and `Date()`. Dates are strings and times are integers supplied by the caller.
- `Double` rates. They are exact fractions.
- Concurrency and timing: `@MainActor`, `Task`, continuations, semaphores and `asyncAfter`. Each view-model operation is one sequential transition. The `isSaving` and `showSaveSuccess` flags of the remark editor and the `scrollToTop` flag of the list exist only for these timers and animations, so they are not modelled.
- The analytics calls inside `handleNewMessage` and `loadInitialData`. The analytics ledger is modelled on its own in `Analytics`.
- `NetworkManager` (random failure, timeout, retry) and `MessageCenter` (timer-driven random messages). Their results are the `FetchOutcome` argument.
- `MockDataService` JSON loading, random message generation and the random head insertion of `refreshMessages`. The refresh result is an argument.
- All SwiftUI views, plus `typeColor`, `timeText` and the display-only `99+` and short-date helpers.
- `getMessage(by:)` and the test hooks `resetToEmpty`, `triggerError` and `resetFirstLoad`. They are trivial accessors and debugging aids.
- Full Unicode case folding. `lowercased()` is modelled as a per-character map that changes only `A`-`Z` and keeps the length, which the source's slicing of the original text by positions found in the lowered text relies on.
- Negative page numbers. The page index is a natural number.
- MessageList.SortMessages: the source does not fix the order of messages with equal pin flag and equal timestamp. The model keeps their original order, and its contract states only what the source promises (a permutation, ordered).
- Analytics.UpdateStats: the counter effects are stated by `Analytics.UpdateStatsCounts` rather than on the function itself.
