# Opportunity report log — a Dafny model of the report store and the report card

The application keeps a list of *opportunity reports*: guest incident tickets
for a hotel. Each report has:

- an id;
- free-text fields (guest, room, reservation, reporter, department, dates,
  incident, mood);
- a status of `abierto`, `en proceso` or `cerrado`;
- a list of timestamped updates, newest first.

The top-level component holds the list, the id of the one expanded report, the
active status tab and the search term. Its handlers create, replace and delete
reports, add and delete updates, toggle expansion, and derive the displayed
list. Each report card decides what to hand back to those handlers:

- the trimmed text of a new update, and only when that text is not blank;
- a copy of the report with a new status;
- after a confirmation, either the pending update index or a request to delete
  the whole report.

The card also picks the header colour for a status, shows the latest update or
a placeholder, and numbers the older updates from 1.

The model is a pure state machine. It has these modules:

- `Reports` — the data model: `Status`, `Update`, `Fields`, `Report`, and the
  id predicates `HasId`, `DistinctIds` and `SameIds`.
- `Seqs` — `Keep` (the array `filter`), `RemoveAt` (the filter by index) and
  subsequences.
- `Text` — `trim`, with the ECMAScript white-space and line-terminator set;
  lower-casing; and `includes` as a sequence infix.
- `Store` — the handlers of `src/App.tsx` as functions on `App`, the derived
  filter, one `Event` type with `Step`/`Run`, and the session invariant `Wf`.
- `Card` — the decisions of `src/components/ReportCard.tsx`. Callbacks are
  values of type `Call`. `Deliver` routes them to the store.
- `Scenario` — one session worked end to end: create A and B, search, add an
  update, delete.

Two values come from the clock: the new report's id and an update's
timestamp. Both are parameters. Nothing in the code makes the id fresh, so id
uniqueness is an invariant that holds when every supplied id is fresh. It is
not a theorem about creation.

## Model

| member | source | states |
|---|---|---|
| Store.NewReport | src/App.tsx:18-23 | a created report carries the given id and fields, is `abierto` and has no updates |
| Store.Create | src/App.tsx:17-24 | the new report is at index 0 with status `abierto` and no updates; the earlier reports follow unchanged and in order |
| Store.CreateKeepsIdsDistinct | src/App.tsx:20-24 | after creation the ids are pairwise distinct if and only if they were before and the supplied id was not already present |
| Store.ReplaceById | src/App.tsx:28-32 | the length is kept; every report with the id becomes the new report; every other report is untouched; an unknown id gives the same list |
| Store.ReplaceKeepsIds | src/App.tsx:28-32 | a replacement carrying the same id keeps the sequence of ids, and therefore keeps them distinct |
| Store.DeleteById | src/App.tsx:34-35 | no report with the id is left; every report with another id survives with all its copies, in order (subsequence plus equal multiplicities); an unknown id is a no-op |
| Store.DeleteRemovesOne | src/App.tsx:35 | with distinct ids, deleting the id found at position k removes exactly position k |
| Store.DeleteKeepsIdsDistinct | src/App.tsx:35 | deletion keeps ids pairwise distinct |
| Store.DeleteReport | src/App.tsx:34-39 | the expanded id becomes null exactly when it equalled the deleted id (or was already null), and is otherwise unchanged |
| Store.AddUpdateTo | src/App.tsx:41-53 | ids, fields and statuses are kept; a matching report's updates grow by one with the new update first and the old ones shifted by one; other reports and an unknown id are untouched |
| Store.DeleteUpdateOf | src/App.tsx:55-66 | a matching report loses exactly the update at the index; a negative or out-of-range index, another id or an unknown id leaves the report unchanged |
| Store.DeleteNewestUndoesAdd | src/App.tsx:41-66 | deleting update 0 of the reports an update was just added to gives back the original list |
| Store.Filter | src/App.tsx:72-78 | the result is a subsequence; each report that matches the tab and the search appears as often as in the collection, and one that does not never appears; the whole list comes back if and only if every report matches |
| Store.FilterShowsAll | src/App.tsx:72-78 | the `todos` tab with an empty search lists the whole collection |
| Store.FilterIgnoresCase | src/App.tsx:74-76 | two search terms that lower-case alike select the same reports |
| Store.SearchFindsCapitalisedName | src/App.tsx:75 | the search "juan" finds the guest "Juan Pérez" |
| Store.DeletedNeverListed | src/App.tsx:72-78 | after deleting an id, no tab and no search term lists a report with that id |
| Store.FilteredReports | src/App.tsx:72-78 | the displayed list is a subsequence of the reports holding every copy of each report that matches the active tab and search, and nothing else |
| Store.MatchesTab | src/App.tsx:73 | the `todos` tab matches every status; another tab matches exactly when the status strings are equal |
| Store.MatchesSearch | src/App.tsx:74-76 | the empty term matches everything; otherwise a report matches exactly when the lower-cased term occurs at some position of the lower-cased guest name or room number |
| Store.ToggleExpand | src/App.tsx:68-70 | the id ends up expanded if and only if it was not; otherwise nothing is expanded; the reports, tab and search are kept |
| Store.ToggleTwice | src/App.tsx:68-70 | toggling the same id twice restores the state if and only if nothing or that id was expanded at first |
| Store.Step | src/App.tsx:17-112 | each event changes only its own part of the state: only tab selection changes the tab, only typing changes the search, only deletion and toggling change the expanded id, and toggling, tab selection and typing leave the reports alone |
| Store.UpdateWhere | src/App.tsx:30 | the `map` keeps the length and applies the change exactly to the reports carrying the id |
| Store.CreateKeepsWf | src/App.tsx:17-24 | creating with a fresh id keeps the session invariant |
| Store.DeleteKeepsWf | src/App.tsx:34-39 | deleting keeps ids distinct, and a kept expanded id still names a report |
| Store.SameIdsKeepWf | src/App.tsx:41-66 | a handler that keeps the sequence of ids keeps the session invariant |
| Store.StepPreservesWf | src/App.tsx:17-70 | every allowed event keeps ids distinct and the expanded id pointing at an existing report |
| Store.RunPreservesWf | src/App.tsx:11-70 | a session that starts well-formed and sees only allowed events stays well-formed |
| Seqs.Keep | src/App.tsx:35 | `filter` never lengthens its input; its contents are fixed by the lemmas below |
| Seqs.KeepMultiset | src/App.tsx:35 | `filter` keeps every copy of an element that passes and no copy of one that fails |
| Seqs.KeepSubsequence | src/App.tsx:35 | `filter` returns a subsequence of its input |
| Seqs.KeepAll | src/App.tsx:35 | `filter` returns its input unchanged if and only if every element passes |
| Seqs.KeepMembers | src/App.tsx:72-78 | an element is in the filtered list if and only if it is in the input and passes |
| Seqs.KeepDropsOne | src/App.tsx:35 | when exactly one position fails the test, `filter` removes just that position |
| Seqs.RemoveAt | src/App.tsx:61 | filtering by `index !== updateIndex` removes exactly that index when it is in range, and otherwise returns the input |
| Text.IsSpace | src/components/ReportCard.tsx:34 | on ASCII, exactly space, tab, line feed, vertical tab, form feed and carriage return count as white space |
| Text.Trim | src/components/ReportCard.tsx:34-35 | the trimmed text is empty if and only if the input is all white space; otherwise it starts and ends with visible characters and is the input minus a white-space prefix and suffix |
| Text.TrimIdempotent | src/components/ReportCard.tsx:34-35 | trimming the trimmed text changes nothing |
| Text.LowerChar | src/App.tsx:75-76 | `A`-`Z` map to `a`-`z` (a shift of 32); every other character is kept |
| Text.Lower | src/App.tsx:75-76 | lower-casing keeps the length and folds each character on its own |
| Text.LowerIdempotent | src/App.tsx:75-76 | a lower-cased string has no ASCII upper-case letter left and lower-cases to itself |
| Text.IsInfix | src/App.tsx:75-76 | `includes` holds only for a term no longer than the text, and always for the empty term |
| Text.InfixIffOccurs | src/App.tsx:75-76 | `includes` holds if and only if the term occurs at some position of the text |
| Card.SubmitUpdate | src/components/ReportCard.tsx:33-38 | a callback runs if and only if the draft is not all white space; it receives the trimmed text, which has visible ends, and the draft is cleared; otherwise nothing changes |
| Card.SubmitUpdateEffect | src/components/ReportCard.tsx:33-38 | a non-blank draft, once delivered, puts the trimmed text, stamped with the time, in front of this report's updates and touches no other report |
| Card.ChangeStatus | src/components/ReportCard.tsx:40-42 | the update callback receives the report's id and a report that differs from the original in its status only, which is the new one |
| Card.ChangeStatusEffect | src/components/ReportCard.tsx:40-42 | with distinct ids, a delivered status change alters only that report's status |
| Card.ChangeStatusUndone | src/components/ReportCard.tsx:40-42 | selecting the previous status again restores the whole state |
| Card.RequestDeleteUpdate | src/components/ReportCard.tsx:48-51 | the cross on an update records its index as pending and keeps the draft |
| Card.CancelDelete | src/components/ReportCard.tsx:213-216 | closing the dialog forgets the pending index and keeps the draft |
| Card.ConfirmDelete | src/components/ReportCard.tsx:53-60 | exactly one callback runs: delete-update with the pending index when one is pending, otherwise delete-report; the pending index ends up null |
| Card.Deliver | src/App.tsx:131-134 | the card's callbacks are the store's handlers: delete is the report deletion with collapsing, the others edit only the reports, and none of them changes the tab or search |
| Card.DeleteUpdateCallEffect | src/App.tsx:55-66 | a delivered delete-update keeps the ids and the expanded report and removes the index from that report's updates |
| Card.DeleteCallEffect | src/App.tsx:34-39 | with distinct ids, a delivered delete removes exactly that report and collapses it |
| Card.ConfirmDeleteEffect | src/components/ReportCard.tsx:53-60 | confirming with an index pending keeps the report's id and the expanded id; confirming with none removes exactly that report and collapses it |
| Card.StatusColor | src/components/ReportCard.tsx:64-75 | the three statuses map to red, orange and green; a string maps to gray if and only if it is no status |
| Card.StatusColorInjective | src/components/ReportCard.tsx:64-75 | the three statuses get three different colours, none of them gray |
| Card.LatestUpdate | src/components/ReportCard.tsx:62 | the newest update when there is one; otherwise the placeholder text with an empty timestamp |
| Card.LatestShowsDate | src/components/ReportCard.tsx:62 | when every update has a timestamp, the latest one has a date to show if and only if there is an update |
| Card.OlderUpdates | src/components/ReportCard.tsx:150 | the older list has one entry fewer than the updates, and its k-th entry is update k+1 |
| Card.OlderDeleteIndex | src/components/ReportCard.tsx:157 | the index an older update asks to delete is never 0 |
| Card.OlderDeleteTargetsShown | src/components/ReportCard.tsx:150-157 | the k-th older update deletes the very update it shows: the latest update is kept, and the older list loses exactly its k-th entry |
| Card.DeleteOlderUpdateFlow | src/components/ReportCard.tsx:150-157 | request, confirm and deliver on the k-th older update remove exactly that update, keep the latest, and clear the pending index |
| Reports.LabelInjective | src/App.tsx:8 | the three statuses carry three different strings |
| Scenario.AnaAndBeto | src/App.tsx:17-78 | create Ana (101) then Beto (202): the search "ana" lists only Ana; an update gives Ana one update; deleting Beto leaves only Ana |

## Left out

- Rendering is not modelled: JSX, the CSS class strings of `tabClass` and the layout, and the icons.
- React `useState` plumbing and re-rendering are replaced by explicit state values passed through pure functions.
- The clock reads `Date.now()` and `new Date().toISOString()` are not modelled. The id and the timestamp are parameters.
- `formatDate` is not modelled because it is locale-dependent `Intl` formatting. Only "a date is shown" (a non-empty timestamp) is modelled.
- The open/closed flags of the new-report modal, the edit modal and the confirmation dialog (`isModalOpen`, `isEditModalOpen`, `isDeleteModalOpen`) are not modelled. `ConfirmationModal` and `Modal` are not part of this model, so the order in which the dialog calls `onConfirm` and `onClose` is not visible.
- `ReportForm` and the `types` file are not part of this model. The edit-form merge `{ ...report, ...updatedReport }` is an `UpdateCall` carrying an arbitrary report, i.e. an opaque replacement, because the form's output shape is not visible.
- The `showAllUpdates` toggle and the `filteredReports.length === 0` message are not modelled, because they are display only.
- Text.Lower: folds ASCII `A`-`Z` only, not the full Unicode `toLowerCase`, so the search is modelled exactly for ASCII text only.
- The update index is modelled as an integer. A non-integer JavaScript number is not modelled, because the card only passes list positions.
- Store.StepPreservesWf: holds only for allowed events, i.e. a fresh id on creation, a replacement that keeps its id, and a toggle of a listed report. The code checks none of these, and a duplicate id from two creations in the same millisecond breaks it.
