# PM Mastermind event portal: a Dafny model of its core

PM Mastermind is a small event portal. The site lets attendees read the event
details, tick off a pre-event checklist, download event files and chat with an
assistant that knows the event. Administrators edit the checklist, the
itinerary and the files. This project models the core of that logic and
proves its properties:

- **The chat endpoint** (`POST /api/chat`), modules `RateLimit`, `Prompt` and
  `ChatRoute`. It covers:
  - the per-user in-memory limiter (10 requests per 60 000 ms);
  - the order of the request checks (401, 429, 400);
  - the system prompt built from the event, itinerary and checklist records;
  - the conversation window and the message list sent to the generation backend;
  - the loop that relays the backend's text deltas as `data:` frames while
    accumulating the reply, then saves the assistant turn and sends `[DONE]`.
- **The admin checklist and itinerary pages** (`ChecklistAdmin`,
  `ItineraryAdmin`, on top of `Tables`). Each is a class holding:
  - the database table, as a sequence of rows;
  - the page's loaded copy of it;
  - the form state.
  Its add, submit, edit, delete and reorder actions change the table in place,
  then reload the copy.
- **The dashboard checklist** (`DashboardChecklist`). It models the completion
  map seeded from the attendee's progress rows, and the count and rounded
  percentage shown. It also models the optimistic toggle with its database
  write and its revert when the write throws.
- **The admin files page** (`FilesAdmin`). It models the file extension and
  the `<timestamp>-<name>` object name of an upload. It also models the
  storage path that a delete recovers from the public URL, and the upload and
  delete actions on the bucket and the `event_files` table. A delete removes
  the uploaded object exactly when `encodeURI` leaves its name unchanged.
- **The dashboard file icons** (`EventFiles`): `getIcon` and its table.

`Strings` gives the JavaScript string operations the core relies on:
- `trim`;
- truthiness (`s || null`, `s || ""`);
- `split`/`join`/`pop`;
- `length` in UTF-16 code units;
- decimal rendering;
- `toLowerCase`.

`Uri` gives `encodeURI`, which the storage client applies to every public
URL it builds: each character outside the unescaped set becomes the `%XX`
escapes of its UTF-8 bytes.

`Records` holds the row shapes of `src/lib/types.ts`.

All Supabase calls become state or parameters:
- a table is a `seq` field that a method reassigns;
- the storage bucket is a `set` of object names;
- the authenticated user, the clock, the query results and the backend's event
  stream are method parameters.

## Model

| member | source | states |
|---|---|---|
| `RateLimit.Recent` | src/app/api/chat/route.ts:15-17 | a timestamp is kept exactly when it was stored and `now - t < 60000`; the list never grows |
| `RateLimit.RecentAndExpiredPartition` | src/app/api/chat/route.ts:15-17 | the kept and the dropped lists together are as long as the stored list, and the dropped ones are exactly the stored timestamps outside the window, so pruning frees one slot per expired entry |
| `RateLimit.RecentKeepsInWindow` | src/app/api/chat/route.ts:15-17 | a list whose timestamps are all in the window is kept whole |
| `RateLimit.RecentShrinksWithTime` | src/app/api/chat/route.ts:15-17 | a later clock never keeps more timestamps |
| `RateLimit.AfterCheckSpec` | src/app/api/chat/route.ts:13-25 | one check does the following: it stores the pruned list; it appends `now` exactly when it answers "not limited" (fewer than 10 left); it leaves every other user's list alone, adds only this user's key, and keeps every list at 10 or fewer |
| `RateLimit.FullWindowIsLimited` | src/app/api/chat/route.ts:18-21 | 10 stored timestamps, all within the window, make the next check limited |
| `RateLimit.RateLimiter.constructor` | src/app/api/chat/route.ts:8 | the map starts empty, which satisfies the at-most-10 invariant |
| `RateLimit.RateLimiter.IsRateLimited` | src/app/api/chat/route.ts:13-25 | answers "limited" exactly when at least 10 timestamps are within the window; the new map is `AfterCheck` of the old one; the at-most-10 invariant is kept |
| `RateLimit.TenThenLimited` | src/app/api/chat/route.ts:13-25 | from a fresh limiter, 11 requests at one instant get 10 "not limited" answers, then "limited" |
| `ChatRoute.ValidateBody` | src/app/api/chat/route.ts:41-56 | the body checks in source order; its contract is stated by `ChatRoute.ValidateBodyAccepts` and `ChatRoute.LengthBoundary` |
| `ChatRoute.ValidateBodyAccepts` | src/app/api/chat/route.ts:41-56 | both directions: a body is accepted exactly when it parses, is not `null`, its `message` is a non-empty string, and the message is at most 2000 UTF-16 code units; the result is then that message; a `null` body, and only it, throws at the destructuring of line 48; a refusal carries one of the three 400 texts |
| `ChatRoute.TooLongTextNamesLimit` | src/app/api/chat/route.ts:55 | the length refusal reads `Message too long (max 2000 characters)` |
| `ChatRoute.LengthBoundary` | src/app/api/chat/route.ts:54-56 | a message of exactly 2000 code units passes; one of 2001 is refused with the text naming the limit |
| `ChatRoute.Decide` | src/app/api/chat/route.ts:33-56 | the order of the checks; its contract is stated by `ChatRoute.DecideOrder` and `ChatRoute.BodyRejectionConsumesSlot` |
| `ChatRoute.DecideOrder` | src/app/api/chat/route.ts:33-56 | each direction of: 401 exactly without a user; 429 exactly with a user the limiter refuses; 400 exactly for an admitted user with a bad body; an unhandled failure exactly for an admitted user whose body is `null`; acceptance exactly past all of these, carrying the user and the message |
| `ChatRoute.BodyRejectionConsumesSlot` | src/app/api/chat/route.ts:37-56 | a request refused with 400, or failing on a `null` body, has already had `now` recorded in the user's window |
| `ChatRoute.ForUserAppend` | src/app/api/chat/route.ts:89-93 | saving a row extends the user's history by that row exactly when it is the user's |
| `ChatRoute.ForUserOfOwnLog` | src/app/api/chat/route.ts:89-93 | a log holding only the user's rows is the user's whole history |
| `ChatRoute.HistoryAsWritten` | src/app/api/chat/route.ts:89-94 | the query as written (ascending `created_at`, then `limit(50)`); what it returns is stated by `ChatRoute.HistoryAsWrittenMissesNewest` |
| `ChatRoute.RecentHistory` | src/app/api/chat/route.ts:89-94 | the corrected window; its contract is stated by `ChatRoute.RecentHistoryIsLatest` |
| `ChatRoute.RecentHistoryIsLatest` | src/app/api/chat/route.ts:89-94 | the corrected window: it holds `min(50, n)` of the user's `n` rows, all the user's; they are the last rows of the user's history in order, so the newest row is included |
| `ChatRoute.HistoryAsWrittenMissesNewest` | src/app/api/chat/route.ts:89-94 | the query as written: with 51 rows it returns the oldest 50, which leaves out the newest row |
| `ChatRoute.ApiTurns` | src/app/api/chat/route.ts:97-100 | the `map` to `{role, content}`: as many entries as rows, entry `i` carrying row `i`'s role and content |
| `ChatRoute.BuildMessages` | src/app/api/chat/route.ts:96-102 | one `{role, content}` entry per history row, in order, then the new message as a user turn |
| `ChatRoute.MessagesBounded` | src/app/api/chat/route.ts:96-102 | the message list has at most 51 entries and ends with the new message |
| `ChatRoute.MessagesAreLatestTurns` | src/app/api/chat/route.ts:89-102 | built from the corrected window, the message list is the role and content of the user's last `min(n, 50)` saved rows, oldest first, followed by the new message as a user turn |
| `ChatRoute.DeltaTexts` | src/app/api/chat/route.ts:124-133 | the texts the loop appends, in stream order; its contract is stated by `ChatRoute.DeltaTextsAppend`, `ChatRoute.DeltaTextsSkipsOthers` and `ChatRoute.RelayDeltas` |
| `ChatRoute.DeltaTextsAppend` | src/app/api/chat/route.ts:124-133 | the text deltas of two consecutive stretches of the stream are those of the first, then those of the second |
| `ChatRoute.DeltaTextsSkipsOthers` | src/app/api/chat/route.ts:125-128 | events other than text deltas contribute nothing |
| `ChatRoute.FramesTextIsReply` | src/app/api/chat/route.ts:130-142 | the frames sent, with or without the final `[DONE]`, spell exactly the accumulated reply |
| `ChatRoute.RelayDeltas` | src/app/api/chat/route.ts:124-133 | the loop's `fullResponse` is the in-order concatenation of the text deltas only, with one data frame per text delta, in order |
| `ChatRoute.ExchangeTrace` | src/app/api/chat/route.ts:105-143 | the effects of one exchange; `ChatRoute.StreamedEffectsOrder` states their order, and `ChatRoute.ChatEndpoint.Exchange` that the endpoint appends exactly them |
| `ChatRoute.StreamedEffectsOrder` | src/app/api/chat/route.ts:105-143 | in the trace of one exchange: the user turn is saved first, then the backend is called; every data frame comes next; the assistant turn is saved after all of them; `[DONE]` is sent last, once |
| `ChatRoute.ChatEndpoint.constructor` | src/app/api/chat/route.ts:8 | the endpoint starts with an empty limiter map over the given `chat_messages` table and an empty effect trace |
| `ChatRoute.ChatEndpoint.Exchange` | src/app/api/chat/route.ts:105-143 | an accepted request appends the user turn and then the assistant turn holding the concatenated deltas, and answers with the data frames followed by `[DONE]` |
| `ChatRoute.ChatEndpoint.Post` | src/app/api/chat/route.ts:27-154 | the limiter runs for every authenticated request; a rejected request gets its status and text, with no row saved and nothing generated; a `null` body fails unhandled after the limiter has counted it, with no row saved and nothing generated; an accepted one follows `Exchange` with the prompt built from the three queries (null data read as the empty list) and the message list built from the corrected window |
| `Prompt.SystemPrompt` | src/app/api/chat/route.ts:69-86 | the whole template; `Prompt.PromptNamesEvent` states where the title appears, and the block lemmas below what each section holds |
| `Prompt.EventBlock` | src/app/api/chat/route.ts:71-78 | the labelled event fields; `Prompt.UnsetEventFallbacks` states their fallbacks and `Prompt.SetFieldShown` what a set field shows |
| `Prompt.FieldOr` | src/app/api/chat/route.ts:73-78 | `event?.<field> \|\| fallback`; its contract is stated by `Prompt.SetFieldShown` |
| `Prompt.EventTitle` | src/app/api/chat/route.ts:69 | the title shown is never empty: the event's title when set, otherwise `PM Mastermind` |
| `Prompt.UnsetEventFallbacks` | src/app/api/chat/route.ts:71-78 | with no event row or nothing set, the fields render as `PM Mastermind`, `TBD` (4 times), `No description yet` and `None` |
| `Prompt.SetFieldShown` | src/app/api/chat/route.ts:73-78 | for every field and fallback: a set, non-empty value is shown as stored, and a missing event, a null or an empty value shows the fallback |
| `Prompt.ItineraryLine` | src/app/api/chat/route.ts:81 | every itinerary line starts with `- ` |
| `Prompt.ChecklistLine` | src/app/api/chat/route.ts:84 | every checklist line starts with `- ` |
| `Prompt.ItineraryLines` | src/app/api/chat/route.ts:81 | the `map`: as many lines as items, line `i` being item `i`'s line |
| `Prompt.ChecklistLines` | src/app/api/chat/route.ts:84 | the `map`: as many lines as items, line `i` being item `i`'s line |
| `Prompt.ItineraryBlock` | src/app/api/chat/route.ts:81 | the block is `No itinerary items yet.` exactly when there are no items |
| `Prompt.ChecklistBlock` | src/app/api/chat/route.ts:84 | the block is `No checklist items yet.` exactly when there are no items |
| `Prompt.ItineraryLineOneLine` | src/app/api/chat/route.ts:81 | an item whose texts hold no newline renders as a single line |
| `Prompt.ChecklistLineOneLine` | src/app/api/chat/route.ts:84 | a checklist item whose texts hold no newline renders as a single line |
| `Prompt.ItineraryLinesOneLine` | src/app/api/chat/route.ts:81 | items whose texts hold no newline give lines that hold none |
| `Prompt.ChecklistLinesOneLine` | src/app/api/chat/route.ts:84 | items whose texts hold no newline give lines that hold none |
| `Prompt.ItineraryBlockLines` | src/app/api/chat/route.ts:81 | split back at `\n`, a non-empty itinerary block is exactly its items' lines |
| `Prompt.ChecklistBlockLines` | src/app/api/chat/route.ts:84 | split back at `\n`, a non-empty checklist block is exactly its items' lines |
| `Prompt.PromptNamesEvent` | src/app/api/chat/route.ts:69 | the prompt names the event's title in quotes in its first sentence |
| `Strings.Trim` | src/app/admin/checklist/page.tsx:29-34 | the result has no whitespace at either end (the JavaScript whitespace and line-terminator set); it is empty exactly when the input is blank |
| `Strings.TrimDropsOnlyWhitespace` | src/app/admin/checklist/page.tsx:34 | the trimmed text is one contiguous stretch of the input, and all that is cut before and after it is whitespace |
| `Strings.TrimOfTrimmed` | src/app/admin/checklist/page.tsx:34 | trimming a trimmed string changes nothing |
| `Strings.TrimIdempotent` | src/app/admin/checklist/page.tsx:34 | trimming twice is trimming once |
| `Strings.TrimToNull` | src/app/admin/checklist/page.tsx:35 | `s.trim() \|\| null` is null exactly for a blank input, and otherwise the trimmed, non-empty text |
| `Strings.NullIfEmpty` | src/app/admin/itinerary/page.tsx:48-50 | `s \|\| null` is null exactly for the empty string and otherwise `s` unchanged |
| `Strings.EmptyIfNull` | src/app/admin/itinerary/page.tsx:73-76 | `o \|\| ""` is the stored string, or `""` for null |
| `Strings.OrElse` | src/app/api/chat/route.ts:73-78 | `o \|\| fallback` is the value when it is a non-empty string, and otherwise the fallback |
| `Strings.EmptyIfNullOfNullIfEmpty` | src/app/admin/itinerary/page.tsx:48-50 | a string taken to null and back is unchanged |
| `Strings.NullIfEmptyOfEmptyIfNull` | src/app/admin/itinerary/page.tsx:71-77 | a nullable value that is not `""` survives being shown in the form and stored again |
| `Strings.IndexOf` | src/app/admin/files/page.tsx:61 | the index found is an occurrence with none before it; none is found exactly when there is no occurrence |
| `Strings.JoinSplit` | src/app/admin/files/page.tsx:61 | joining the pieces of a split with the separator restores the string |
| `Strings.SplitPiecesFree` | src/app/admin/files/page.tsx:61 | no piece of a split contains the separator |
| `Strings.SplitJoin` | src/app/api/chat/route.ts:81 | splitting a join again on a one-character separator that no piece holds gives back the pieces |
| `Strings.LastPieceShape` | src/app/admin/files/page.tsx:61-62 | the last piece is a suffix holding no separator; it is the whole string without a separator, and is otherwise directly preceded by one |
| `Strings.NatToString` | src/app/admin/files/page.tsx:32 | the decimal rendering is non-empty and all digits |
| `Strings.NatToStringValue` | src/app/admin/files/page.tsx:32 | reading the rendered digits back as a decimal number gives the timestamp: the rendering loses nothing |
| `Strings.Utf16Length` | src/app/api/chat/route.ts:54 | `length` counts between one and two code units per character |
| `Strings.Utf16LengthBmp` | src/app/api/chat/route.ts:54 | Basic Multilingual Plane text counts one code unit per character |
| `Strings.ToLower` | src/components/EventFiles.tsx:19 | same length, each ASCII capital lowered and every other character kept |
| `Strings.ToLowerIdempotent` | src/components/EventFiles.tsx:19 | lowering twice is lowering once |
| `Tables.NextSortOrder` | src/app/admin/checklist/page.tsx:31 | `max + 1` of the loaded rows; its contract is stated by `Tables.NextSortOrderAfterAll` |
| `Tables.MaxSortOrder` | src/app/admin/checklist/page.tsx:31 | `-1` on an empty list; otherwise at least every row's sort order and equal to one of them |
| `Tables.NextSortOrderAfterAll` | src/app/admin/checklist/page.tsx:31-36 | an added row's sort order is 0 on an empty table, one more than some row's otherwise, and greater than every existing one |
| `Tables.MaxSortOrderPermutation` | src/app/admin/itinerary/page.tsx:54 | the maximum depends only on which rows there are, so the page's loaded copy gives the same value as the table |
| `Tables.WithFields` | src/app/admin/checklist/page.tsx:58-64 | an update by id replaces the columns of the matching rows, keeping their id, sort order and creation time, and keeps every other row |
| `Tables.WithFieldsKeepsDistinct` | src/app/admin/checklist/page.tsx:58-64 | an update keeps the ids distinct |
| `Tables.DeleteById` | src/app/admin/checklist/page.tsx:45 | no row with the deleted id remains |
| `Tables.DeleteAbsent` | src/app/admin/checklist/page.tsx:45 | deleting an id the table does not hold changes nothing |
| `Tables.DeleteRemovesOnlyRow` | src/app/admin/checklist/page.tsx:45 | with distinct ids, deleting row `k`'s id removes exactly row `k` |
| `Tables.DeleteKeepsDistinct` | src/app/admin/itinerary/page.tsx:82 | a delete keeps ids distinct, leaves the table alone for an absent id, and otherwise removes only the matching row |
| `Tables.AppendFreshKeepsDistinct` | src/app/admin/checklist/page.tsx:33-37 | inserting a row with a fresh id keeps ids distinct |
| `Tables.SwapSortOrders` | src/app/admin/checklist/page.tsx:81-84 | the two updates of a move; its contract is stated by `Tables.SwapSortOrdersExchanges` |
| `Tables.SwapSortOrdersExchanges` | src/app/admin/checklist/page.tsx:81-84 | with distinct ids, the two updates exchange the two rows' sort orders and change nothing else; the multiset of sort orders is kept |
| `Tables.MoveExchangesTwoRows` | src/app/admin/checklist/page.tsx:77-84 | for two positions of the loaded copy, the rows are different rows of the table; swapping them exchanges exactly their sort orders, and keeps the other rows, distinct ids and the multiset of sort orders |
| `Tables.KeyLeTotal` | src/app/admin/itinerary/page.tsx:28-29 | any two `(sort_order, start_time)` keys are ordered one way or the other |
| `Tables.KeyLeTransitive` | src/app/admin/itinerary/page.tsx:28-29 | the key order is transitive |
| `Tables.SortRows` | src/app/admin/checklist/page.tsx:21-24 | an ordered select, as many rows as the table; `Tables.SortRowsPermutation` and `Tables.SortRowsSorted` state the rest |
| `Tables.SortRowsPermutation` | src/app/admin/checklist/page.tsx:21-24 | an ordered select returns exactly the table's rows |
| `Tables.SortRowsSorted` | src/app/admin/itinerary/page.tsx:25-29 | an ordered select returns the rows sorted by the key |
| `ChecklistAdmin.LoadOrder` | src/app/admin/checklist/page.tsx:20-26 | what `loadItems` reads; its contract is stated by `ChecklistAdmin.LoadOrderPermutation` and `ChecklistAdmin.LoadOrderSorted` |
| `ChecklistAdmin.LoadOrderPermutation` | src/app/admin/checklist/page.tsx:20-26 | `loadItems` reads back exactly the table's rows |
| `ChecklistAdmin.LoadOrderSorted` | src/app/admin/checklist/page.tsx:20-26 | `loadItems` lists rows by ascending sort order |
| `ChecklistAdmin.FieldsFrom` | src/app/admin/checklist/page.tsx:34-35 | the stored title is the trimmed title; the description is trimmed, or null when blank |
| `ChecklistAdmin.ChecklistPage.constructor` | src/app/admin/checklist/page.tsx:9-26 | empty inputs, no edit in progress, the table loaded |
| `ChecklistAdmin.ChecklistPage.AddItem` | src/app/admin/checklist/page.tsx:28-42 | a blank title changes nothing; otherwise one row is appended with sort order max + 1 and the normalised columns, and both inputs are cleared; the loaded copy is the table reloaded |
| `ChecklistAdmin.ChecklistPage.InsertRow` | src/app/admin/checklist/page.tsx:33-41 | the insert appends the row and reloads |
| `ChecklistAdmin.ChecklistPage.DeleteItem` | src/app/admin/checklist/page.tsx:44-47 | only the row with that id goes; an absent id changes nothing |
| `ChecklistAdmin.ChecklistPage.StartEdit` | src/app/admin/checklist/page.tsx:49-53 | the edit fields show the item, with a null description shown as `""` |
| `ChecklistAdmin.ChecklistPage.CancelEdit` | src/app/admin/checklist/page.tsx:162 | Cancel clears `editingId` only |
| `ChecklistAdmin.ChecklistPage.SaveEdit` | src/app/admin/checklist/page.tsx:55-68 | with no `editingId` or a blank title, nothing changes; otherwise only that row's title and description change (sort order kept), and `editingId` is cleared |
| `ChecklistAdmin.ChecklistPage.UpdateRow` | src/app/admin/checklist/page.tsx:58-67 | the update by id, then the reload |
| `ChecklistAdmin.ChecklistPage.MoveItem` | src/app/admin/checklist/page.tsx:70-87 | "up" at index 0 and "down" at the last index change nothing; otherwise the shown row and its neighbour are two different rows and exchange sort orders; every other row and the multiset of sort orders are unchanged |
| `ItineraryAdmin.LoadOrder` | src/app/admin/itinerary/page.tsx:24-31 | what `loadItems` reads; its contract is stated by `ItineraryAdmin.LoadOrderPermutation` and `ItineraryAdmin.LoadOrderSorted` |
| `ItineraryAdmin.LoadOrderPermutation` | src/app/admin/itinerary/page.tsx:24-31 | `loadItems` reads back exactly the table's rows |
| `ItineraryAdmin.LoadOrderSorted` | src/app/admin/itinerary/page.tsx:25-29 | `loadItems` lists rows by sort order, then start time, with a null start time last |
| `ItineraryAdmin.StartTimeOrderIsTextual` | src/app/admin/itinerary/page.tsx:28-29 | start times tie-break as text, not as times of day: with equal sort orders `10:00 AM` comes before `9:00 AM` and not after it |
| `ItineraryAdmin.FieldsFromForm` | src/app/admin/itinerary/page.tsx:46-50 | the title is trimmed; the description is trimmed or null; an empty date or time is stored as null and a non-empty one unchanged (not trimmed) |
| `ItineraryAdmin.SubmittedShape` | src/app/admin/itinerary/page.tsx:39-62 | a submit with a non-blank title writes a trimmed non-empty title, and never an empty string in a nullable column |
| `ItineraryAdmin.FormOf` | src/app/admin/itinerary/page.tsx:71-77 | the form an edit opens; `ItineraryAdmin.EditKeepsDateAndTimes`, `ItineraryAdmin.EditRoundTrip` and `ItineraryAdmin.ResubmitIsStable` state what resubmitting it stores |
| `ItineraryAdmin.EditKeepsDateAndTimes` | src/app/admin/itinerary/page.tsx:71-77 | opening a row in the form and submitting it unchanged keeps its date and times (null to `""` to null, `s` to `s`) |
| `ItineraryAdmin.EditRoundTrip` | src/app/admin/itinerary/page.tsx:69-79 | for a row this page wrote, opening and resubmitting it unchanged stores the same columns |
| `ItineraryAdmin.ResubmitIsStable` | src/app/admin/itinerary/page.tsx:39-79 | submitting, opening the result and submitting again stores the same columns |
| `ItineraryAdmin.ItineraryPage.constructor` | src/app/admin/itinerary/page.tsx:9-31 | form closed and empty, no edit in progress, the table loaded |
| `ItineraryAdmin.ItineraryPage.OpenForm` | src/app/admin/itinerary/page.tsx:111 | Add Item only shows the form |
| `ItineraryAdmin.ItineraryPage.ResetForm` | src/app/admin/itinerary/page.tsx:33-37 | the five inputs are emptied, the form hidden and `editingId` cleared; the table is untouched |
| `ItineraryAdmin.ItineraryPage.HandleSubmit` | src/app/admin/itinerary/page.tsx:39-67 | a blank title changes nothing; editing updates only the row with `editingId` (sort order kept); otherwise a row is appended with sort order max + 1; after a write the form is reset |
| `ItineraryAdmin.ItineraryPage.WriteForm` | src/app/admin/itinerary/page.tsx:42-62 | the update path or the insert path of a submit, then the reload |
| `ItineraryAdmin.ItineraryPage.UpdateRow` | src/app/admin/itinerary/page.tsx:43-52 | the update by id, then the reload |
| `ItineraryAdmin.ItineraryPage.InsertRow` | src/app/admin/itinerary/page.tsx:54-62 | the insert appends the row and reloads |
| `ItineraryAdmin.ItineraryPage.StartEdit` | src/app/admin/itinerary/page.tsx:69-79 | the form shows the item (nulls as `""`), `editingId` is its id and the form is shown |
| `ItineraryAdmin.ItineraryPage.DeleteItem` | src/app/admin/itinerary/page.tsx:81-84 | only the row with that id goes; an absent id changes nothing |
| `ItineraryAdmin.ItineraryPage.MoveItem` | src/app/admin/itinerary/page.tsx:86-103 | a no-op at either end; otherwise exactly the two adjacent rows exchange sort orders, and the multiset of sort orders is kept |
| `DashboardChecklist.CompletedItemIds` | src/components/DashboardChecklist.tsx:14-20 | the ids of the completed progress rows; `DashboardChecklist.InitialCompletedMap` states that the seeded map has exactly these keys |
| `DashboardChecklist.CompletedCount` | src/components/DashboardChecklist.tsx:24 | the count of `true` entries is at most the number of entries |
| `DashboardChecklist.InitialCompletedMap` | src/components/DashboardChecklist.tsx:14-20 | the seeded map's keys are exactly the item ids of the completed progress rows, each mapped to `true` |
| `DashboardChecklist.InitialCount` | src/components/DashboardChecklist.tsx:14-24 | the initial count is the number of distinct completed items |
| `DashboardChecklist.Percentage` | src/components/DashboardChecklist.tsx:25 | `Math.round(count / total * 100)`, 0 with no items; its contract is stated by `DashboardChecklist.PercentageRounds` and `DashboardChecklist.PercentageBounds` |
| `DashboardChecklist.PercentageRounds` | src/components/DashboardChecklist.tsx:25 | the percentage is the integer nearest to `100 * count / total`, with halves rounded up as `Math.round` does |
| `DashboardChecklist.PercentageBounds` | src/components/DashboardChecklist.tsx:25 | with the count at most the item count, the percentage is between 0 and 100: 0 with none done, 100 with all done |
| `DashboardChecklist.PercentageWithinItems` | src/components/DashboardChecklist.tsx:24-25 | when every done key is a listed item's id, the count is at most the item count and the percentage at most 100 |
| `DashboardChecklist.Toggled` | src/components/DashboardChecklist.tsx:28-32 | the optimistic update; its contract is stated by `DashboardChecklist.ToggledFlips` and `DashboardChecklist.ToggleTwice` |
| `DashboardChecklist.ToggledFlips` | src/components/DashboardChecklist.tsx:28-32 | the optimistic update negates the item's state (absent counts as not done) and keeps every other item's state |
| `DashboardChecklist.ToggleTwice` | src/components/DashboardChecklist.tsx:28-32 | toggling twice restores every item's state |
| `DashboardChecklist.ToggledDoneSet` | src/components/DashboardChecklist.tsx:24-32 | a toggle removes a done item from the done set, or adds one that was not done |
| `DashboardChecklist.ToggleCount` | src/components/DashboardChecklist.tsx:24-32 | a toggle moves the count by exactly one: down for a done item, up otherwise |
| `DashboardChecklist.WriteFor` | src/components/DashboardChecklist.tsx:35-48 | a done item gets a delete and any other item an upsert with `completed: true`, both for this user and this item |
| `DashboardChecklist.Checklist.constructor` | src/components/DashboardChecklist.tsx:13-21 | the component starts with the seeded map, `loading` null and no writes |
| `DashboardChecklist.Checklist.ToggleItem` | src/components/DashboardChecklist.tsx:27-55 | the write for the item's old state is issued; on success the map is toggled; when the write throws, the map is exactly as before; `loading` ends null either way |
| `FilesAdmin.FileExt` | src/app/admin/files/page.tsx:31 | the file type; its contract is stated by `FilesAdmin.FileExtShape` and `FilesAdmin.TrailingDotHasNoExt` |
| `FilesAdmin.FileExtShape` | src/app/admin/files/page.tsx:31 | the extension holds no dot; it is the whole name without a dot, and otherwise the text after the last dot |
| `FilesAdmin.TrailingDotHasNoExt` | src/app/admin/files/page.tsx:31 | a name ending in a dot has the empty extension |
| `FilesAdmin.StoredName` | src/app/admin/files/page.tsx:32 | the object name ends with the original name |
| `FilesAdmin.OriginalName` | src/app/admin/files/page.tsx:32 | the inverse of the object naming; `FilesAdmin.OriginalNameOfStoredName` states the round trip |
| `FilesAdmin.OriginalNameOfStoredName` | src/app/admin/files/page.tsx:32 | the timestamp prefix holds no dash, so the original name is what follows the first dash |
| `FilesAdmin.PublicUrl` | src/app/admin/files/page.tsx:44-46 | `getPublicUrl`: the whole URL passed through `encodeURI`; `FilesAdmin.PublicUrlParts` states which parts the encoding can change |
| `FilesAdmin.PublicUrlParts` | src/app/admin/files/page.tsx:44-46 | the public URL is the encoded project URL, the fixed `/storage/v1/object/public/event-files/` middle unchanged, and the encoded object path |
| `FilesAdmin.StoragePath` | src/app/admin/files/page.tsx:61-62 | the last piece of the split; its contract is stated by `FilesAdmin.StoragePathAfterMarker` and `FilesAdmin.StoragePathOfUpload` |
| `Uri.Utf8` | src/app/admin/files/page.tsx:44-46 | the UTF-8 encoding of a character is one to four bytes, a single byte exactly for ASCII |
| `Uri.EncodeChar` | src/app/admin/files/page.tsx:44-46 | a character `encodeURI` leaves alone is kept; any other becomes 3 to 12 characters of `%XX` escapes |
| `Uri.EncodeUri` | src/app/admin/files/page.tsx:44-46 | `encodeURI` never shortens a text |
| `Uri.EncodeUriConcat` | src/app/admin/files/page.tsx:44-46 | the encoding of a concatenation is the concatenation of the encodings |
| `Uri.EncodeUriUnchanged` | src/app/admin/files/page.tsx:44-46 | both directions: `encodeURI` returns a text unchanged, and equally keeps its length, exactly when every character is in the unescaped set |
| `Uri.EncodeUriSafeMiddle` | src/app/admin/files/page.tsx:44-46 | an all-unescaped middle passes through the encoding of a text unchanged |
| `FilesAdmin.EncodeUriNoSlash` | src/app/admin/files/page.tsx:44-62 | escapes hold no `/`, so an encoded slash-free name is slash-free |
| `FilesAdmin.StoredNameUriSafe` | src/app/admin/files/page.tsx:32 | both directions: the object name is left alone by `encodeURI` exactly when the file name is |
| `FilesAdmin.StoragePathAfterMarker` | src/app/admin/files/page.tsx:61-62 | after the bucket marker, a slash-free path is exactly what the split recovers, unless the text before the marker ends in `/event-files` |
| `FilesAdmin.StoragePathOfUpload` | src/app/admin/files/page.tsx:44-62 | for a slash-free file name, the path recovered from an upload's public URL is the stored object's name as `encodeURI` wrote it, which is never empty |
| `FilesAdmin.WithoutId` | src/app/admin/files/page.tsx:68 | the rows left are exactly those whose id differs |
| `FilesAdmin.WithoutAbsentId` | src/app/admin/files/page.tsx:68 | deleting an id no row has changes nothing |
| `FilesAdmin.FilesPage.constructor` | src/app/admin/files/page.tsx:9-10 | not uploading and no alerts |
| `FilesAdmin.FilesPage.HandleUpload` | src/app/admin/files/page.tsx:25-57 | no file: nothing changes; an upload error: an `Upload failed: ` alert, no row and no object, `uploading` false again; otherwise the object `<now>-<name>` is stored, one row is appended (original name, public URL, extension as file type), and `uploading` is false |
| `FilesAdmin.FilesPage.DeleteFile` | src/app/admin/files/page.tsx:59-70 | the object is removed only when the recovered path is non-empty; the row with the file's id is always deleted |
| `FilesAdmin.UploadThenDeleteRestoresStorage` | src/app/admin/files/page.tsx:25-70 | for a slash-free name the recovered path is non-empty, and deleting the upload's row leaves the bucket as before the upload exactly when `encodeURI` leaves the name unchanged; otherwise the stored object stays in the bucket |
| `FilesAdmin.SpacedNameLeftBehind` | src/app/admin/files/page.tsx:44-65 | uploading `Event Agenda.pdf` and deleting its row leaves the object in the bucket: the delete names `...-Event%20Agenda.pdf` |
| `EventFiles.GetIconAsWritten` | src/components/EventFiles.tsx:17-21 | as written, the lookup returns something other than an icon exactly when the lower-cased type is a name inherited from `Object.prototype` |
| `EventFiles.AsWrittenReturnsConstructor` | src/components/EventFiles.tsx:17-21 | as written, type `constructor` yields the inherited `Object` function instead of an icon |
| `EventFiles.GetIcon` | src/components/EventFiles.tsx:3-21 | the icon is always the paperclip or one of the table's icons; a null or empty type gives the paperclip |
| `EventFiles.AsWrittenAgrees` | src/components/EventFiles.tsx:17-21 | outside the two inherited names, the code as written gives the same icon as the corrected lookup |
| `EventFiles.GetIconIgnoresCase` | src/components/EventFiles.tsx:19 | the icon of a type is the icon of its lower case |
| `EventFiles.UpperCasePdf` | src/components/EventFiles.tsx:19-20 | `PDF` and `pdf` both give the page icon |
| `EventFiles.EveryKeyMaps` | src/components/EventFiles.tsx:3-20 | each of the 11 keys shows its own table icon |
| `EventFiles.UnknownIsPaperclip` | src/components/EventFiles.tsx:20 | a type whose lower case is not a key gives the paperclip |

## Left out

- Supabase: the client calls are not modelled as calls.
  - Tables, the storage bucket and the authenticated user are state or parameters.
  - Query results are the table's contents: the ordering is a stable sort, and `limit` is a slice.
  - Failed inserts, updates and deletes, which the source never inspects, are not modelled.
- Ordered selects: rows with equal keys come back in table order. The database leaves that order open.
- `ItineraryAdmin.LoadOrderSorted`: rows with equal sort orders are ordered by `start_time` as text, compared character by character. The column is free text (the input's placeholder is `9:00 AM`), so this is not the order of the times of day: `10:00 AM` sorts before `9:00 AM`, as `ItineraryAdmin.StartTimeOrderIsTextual` shows. Postgres collations are not modelled.
- The generation backend: `anthropic.messages.stream` is a given finite sequence of stream events. The model name and `max_tokens` are not modelled.
- Stream errors: the source has no handling for a failing backend stream or a failing insert, and the model invents none.
- Transport: `ReadableStream`, `TextEncoder`, the SSE headers and `JSON.stringify` of a frame are not modelled.
  - A frame is a `DataFrame(text)` or `DoneFrame` value.
  - The JSON body is modelled only as far as its `message` member: unparsable, `null`, or a value whose `message` is absent, a string, or something else. Any other non-object value (a number, a string, a boolean, an array) destructures to an absent `message`.
  - The `TypeError` that destructuring `null` throws is the `Failed` response: the handler has no `catch` for it, and what the framework then sends is not modelled.
- Clocks: `Date.now()` and `new Date().toISOString()` are parameters (`now`, `completedAt`, `createdAt`, `uploadedAt`). Database-generated ids are parameters too.
- Concurrency:
  - Requests run one at a time against the shared `rateLimitMap`.
  - `moveItem`'s two parallel updates are one atomic step.
  - A reload that races an earlier write is not modelled.
- The three context queries of `POST` run in parallel in the source; in the model they are the inputs `event`, `itinerary` and `checklist`.
- `DashboardChecklist.PercentageRounds`: the percentage uses exact integer arithmetic. `Math.round` of the floating-point `count / total * 100` can differ at values within rounding error of a half.
- `DashboardChecklist.Checklist.ToggleItem`:
  - The revert of an item that had no entry writes `undefined` under its key in the source; the model removes the key. No reader distinguishes the two.
  - The separate renders between the optimistic update and the write are not modelled.
- `Strings.ToLower`: only ASCII letters are lowered, where `toLowerCase` covers all of Unicode. For `getIcon` the result is the same: the only non-ASCII characters that lower to ASCII are the Kelvin sign (to `k`) and the dotted capital I (to `i` plus a combining dot). No table key and no inherited name contains `k` or a combining dot.
- `Strings.Split` is modelled for non-empty separators only, the only kind the core passes.
- `getPublicUrl`: modelled as `encodeURI` of `projectUrl/storage/v1/object/public/event-files/<path>`, the URL the storage client builds. The client library is not part of this model.
  - `encodeURI` throws on a lone UTF-16 surrogate. Dafny characters are Unicode scalar values, so that case cannot arise in the model.
  - `FilesAdmin.StoragePathOfUpload` is stated for names without `/`. A browser's file names hold none.
- `FilesAdmin.UploadThenDeleteRestoresStorage`: the bucket is restored only for file names made of characters `encodeURI` leaves alone. For any other name, a space for instance, the delete names the encoded path and the uploaded object stays in the bucket; `FilesAdmin.SpacedNameLeftBehind` shows it.
- `loadFiles`, with its descending `uploaded_at` order, and `fileInputRef` are not modelled. The files page keeps the table as a sequence.
- The `event_files` insert `file_type: fileExt` is stored as given, so a name with a trailing dot stores `""`, as the source does.
- The contents of uploaded files, and the bucket's other metadata, are not modelled.
- React rendering, loading indicators and form binding are not modelled: a form's fields are the inputs' current text.
- `ChatRoute.ChatEndpoint.Post`: it builds the message list from the corrected window `RecentHistory`, not from the query as written. See Findings.

## Findings

| source | as written | input that shows it | evidently intended | confidence | as-written member | corrected member |
|---|---|---|---|---|---|---|
| src/app/api/chat/route.ts:89-94 | the history query orders by `created_at` ascending, then takes `limit(50)`, which returns the user's oldest 50 turns | a user with 51 saved turns: the newest saved turn is not in the history sent to the backend | the conversation window is the most recent 50 turns, oldest first (descending order and limit, then reversed) | not executed; follows from the query's ascending order and limit | `ChatRoute.HistoryAsWrittenMissesNewest` | `ChatRoute.RecentHistoryIsLatest` |
| src/components/EventFiles.tsx:17-21 | `fileIcons[ext] \|\| "📎"` indexes a plain object literal, so the names it inherits from `Object.prototype` also match | a file whose type is `constructor` (or `__proto__`) gets the `Object` function (or `Object.prototype`) in place of an icon string | only the table's own keys are looked up, and every other type gets the paperclip | not executed; follows from property lookup on object literals | `EventFiles.AsWrittenReturnsConstructor` | `EventFiles.GetIcon` |
