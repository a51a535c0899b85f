# StitchCounter2 core in Dafny

A model of the state engine of StitchCounter2, a browser app for counting crochet and knitting
work. Projects are split into sections, and each section has stitch, row and repeat counts and a
timer.

**The store.** The model covers the project store (`useProjects`):
- the two persisted fields, `projects` and `selectedProjectID`;
- every action on them;
- the selectors;
- what the storage slot keeps.

**The components.** The model also covers the components that drive the store:
- the single page-wide section timer with its auto-off and reminder rules;
- the count cards;
- the section title editor;
- the section page (notes editor, card count, delete section);
- the timer settings card;
- the project overview card;
- the application sidebar (recent/old split, newest-first sort, search).

**Modules.**
- `Dicts` models JavaScript's string-keyed objects. It keeps key insertion order because the code
  relies on it: `Object.keys(..)[0]` after a delete, and the order of `Object.values` and
  `Object.entries`.
- `Text` holds the JavaScript built-ins the code uses: `trim`, `toLowerCase`, `includes`,
  `padStart`, integer `toString`, `parseInt`, and the truncating `%`.
- Pure code is written as functions and lemmas.
- State changed in place is written as classes with `modifies` clauses:
  - the store object;
  - the timer's page-wide variables;
  - the title, notes and delay-input local state.

  Each method is proved equal to a function of the old state, and the properties are proved
  about those functions.

The clock (`Date.now()`) and the random ids are parameters. A store action whose source would
throw a `TypeError` has a precondition that excludes that input. Examples are dereferencing
`project.data` of a partial record, and reading `sections[id].notes` of a missing section.

**Partial records.** `setSelectedSection` and `renameProject` on an id that holds no project
write a record made only of the fields they set. This is `Projects.Project.Partial`.

**Notes type.** `Section.notes` follows its declared type, a single string. That is what
`addSectionToProject` and the notes editor write.

**Code and documentation disagree on units.** The design describes the overview's time as
minutes. The timer stores seconds, and the model follows the code (see Findings).

## Model

| member | source | states |
|---|---|---|
| Dicts.Dict.Put | src/hooks/useProjects.tsx:86-95 | a spread with a key replaces its value; a new key is appended to the key order, an existing key keeps its place; the order invariant is kept |
| Dicts.Dict.Remove | src/hooks/useProjects.tsx:189-190 | `delete` on a copy drops exactly that key from the values and the key order, keeping the invariant |
| Dicts.Without | src/hooks/useProjects.tsx:193 | the remaining keys are the old keys other than the deleted one, in order and without duplicates |
| Dicts.EntriesValid | src/components/AppSidebar.tsx:71 | `Object.entries` lists every key once, in key order, paired with its value |
| Dicts.ValuesReplaced | src/components/ProjectOverview.tsx:11 | replacing one entry's value changes `Object.values` at that position only |
| Projects.StitchTypes.With | src/components/StitchCounter/DataPointCounter.tsx:43-46 | one counter is replaced and the other three are kept |
| Updates.ApplyData | src/components/StitchCounter/DataPointCounter.tsx:34-50 | a counter write on a missing section changes nothing; otherwise only that section's one counter (or its notes) changes; key order and every other section are kept |
| Updates.ApplyOptions | src/components/TimerSettings.tsx:35-43 | a switch or delay write sets exactly that timer option; the other timer options and the counter options are kept |
| Store.SetSelectedProjectID | src/hooks/useProjects.tsx:81-83 | only the selection changes, with no existence check |
| Store.SetSelectedSection | src/hooks/useProjects.tsx:85-96 | the pointer and stamp are written under the id even when no project exists there (a partial record); all other entries, the name and the data are kept |
| Store.CreateNewProject | src/hooks/useProjects.tsx:98-113 | a copy of the template is added under the new id; its pointer is "" because the template has no sections; it becomes selected; other entries are unchanged |
| Store.AddSectionToProject | src/hooks/useProjects.tsx:115-151 | an unknown project is a no-op; otherwise a zeroed "Untitled Section" is added under the new key and selected, the project is stamped, and existing sections are kept |
| Store.RenameSection | src/hooks/useProjects.tsx:153-180 | a missing project or section is a no-op; otherwise only that section's name changes (untrimmed) and the project is stamped |
| Store.DeleteSection | src/hooks/useProjects.tsx:182-214 | a missing project or section is a no-op; otherwise the key is removed and the pointer becomes the first remaining key or "", whichever section was selected |
| Store.DeleteSectionMovesPointer | src/hooks/useProjects.tsx:193-197 | a worked example of the rule `DeleteSection` states: with "c" selected, deleting "b" selects "a"; deleting the last section leaves "" |
| Store.DeleteProject | src/hooks/useProjects.tsx:216-231 | the key is removed, the other entries are untouched, and the selection is cleared exactly when it named that key |
| Store.RenameProject | src/hooks/useProjects.tsx:233-244 | any name is written, with no existence check (a partial record for an unknown id); pointer, data and options are kept |
| Store.UpdateSelectedProject | src/hooks/useProjects.tsx:246-264 | no selection leaves the state unchanged; otherwise only the given field of the selected project becomes the update of its old value, the project is stamped, and other projects are unchanged |
| Store.Dispatch | src/hooks/useProjects.tsx:81-264 | every action keeps the key-order invariant of the store and of every section map |
| Store.PointersResolvePreserved | src/hooks/useProjects.tsx:81-264 | if the section selected through `setSelectedSection` exists, every action keeps every section pointer "" or a key of its map |
| Store.WriteCounter | src/hooks/useProjects.tsx:246-264 | a counter write through `updateSelectedProject` sets that counter of that section only; no selection, or a missing section, changes nothing |
| Store.SelectedProject | src/hooks/useProjects.tsx:294-295 | the selected entry, null exactly when the id is not a key |
| Store.SelectedSectionID | src/hooks/useProjects.tsx:300-304 | null when no project is selected or the pointer is empty; otherwise the pointer |
| Store.SelectedTimerOptions | src/components/StitchCounter/SectionTimer.tsx:36 | `project?.options?.timerOptions`: the timer options are present exactly when a complete project is selected, absent for no project or a partial record |
| Store.PersistRoundTrip | src/hooks/useProjects.tsx:266-271 | storing the two persisted fields and rehydrating restores them exactly, whatever state rehydration starts from (immediate here, since the modelled state holds only those two fields) |
| UseProjects.ProjectStore.constructor | src/hooks/useProjects.tsx:75-78 | the store starts from the example projects and no selection, overridden by the storage slot |
| UseProjects.ProjectStore.Rehydrate | src/hooks/useProjects.tsx:279-283 | rehydration replaces both fields with the stored ones, or keeps them when the slot is empty |
| UseProjects.ProjectStore.SetSelectedProjectID | src/hooks/useProjects.tsx:81-83 | the new state is `Store.SetSelectedProjectID` of the old one |
| UseProjects.ProjectStore.SetSelectedSection | src/hooks/useProjects.tsx:85-96 | the new state is `Store.SetSelectedSection` of the old one; the invariant is kept |
| UseProjects.ProjectStore.CreateNewProject | src/hooks/useProjects.tsx:98-113 | the new state is `Store.CreateNewProject` of the old one; the invariant is kept |
| UseProjects.ProjectStore.AddSectionToProject | src/hooks/useProjects.tsx:115-151 | the new state is `Store.AddSectionToProject` of the old one; the invariant is kept |
| UseProjects.ProjectStore.RenameSection | src/hooks/useProjects.tsx:153-180 | the new state is `Store.RenameSection` of the old one; the invariant is kept |
| UseProjects.ProjectStore.DeleteSection | src/hooks/useProjects.tsx:182-214 | the new state is `Store.DeleteSection` of the old one; the invariant is kept |
| UseProjects.ProjectStore.DeleteProject | src/hooks/useProjects.tsx:216-231 | the new state is `Store.DeleteProject` of the old one; the invariant is kept |
| UseProjects.ProjectStore.RenameProject | src/hooks/useProjects.tsx:233-244 | the new state is `Store.RenameProject` of the old one; the invariant is kept |
| UseProjects.ProjectStore.UpdateSelectedProject | src/hooks/useProjects.tsx:246-264 | the new state is `Store.UpdateSelectedProject` of the old one; the invariant is kept |
| Text.JsRem | src/components/StitchCounter/SectionTimer.tsx:19-20 | `%` truncates: the dividend minus the result is a multiple of the divisor; the result is in [0, divisor) for a non-negative dividend and in (-divisor, 0] for a negative one |
| Text.Pad2 | src/components/StitchCounter/SectionTimer.tsx:22 | `padStart(2, "0")` gives at least two characters, digits stay digits, and the value is unchanged |
| Text.NatToString | src/components/StitchCounter/SectionTimer.tsx:22 | `toString` of a non-negative integer gives digits, without a leading zero or a colon |
| Text.TrimSlice | src/components/StitchCounter/StitchCounterSectionTitle.tsx:91-94 | `trim` keeps one contiguous slice whose ends are not white space and drops only white space around it |
| Text.TrimEmpty | src/components/StitchCounter/StitchCounterSectionTitle.tsx:91 | the trimmed text is empty exactly when the input is all white space |
| Text.TrimIdempotent | src/components/StitchCounter/StitchCounterSectionTitle.tsx:94 | trimming twice is trimming once |
| Text.ParseIntOfIntToString | src/components/TimerSettings.tsx:84 | `parseInt` reads back what integer `toString` writes |
| Text.ToLower | src/components/AppSidebar.tsx:82 | `toLowerCase` restricted to ASCII: each letter A-Z is lowered, every other character is kept, so the length is kept |
| Text.Includes | src/components/AppSidebar.tsx:82 | `includes` holds exactly when the needle occurs at some index |
| ClockFormat.FormatTimeRoundTrip | src/components/StitchCounter/SectionTimer.tsx:17-26 | for every non-negative count the clock text reads back as that count; it has three fields exactly from 3600 seconds on |
| ClockFormat.ClockArithmetic | src/components/StitchCounter/SectionTimer.tsx:18-20 | minutes and seconds are each below 60, and h·3600 + m·60 + s is the count |
| ClockFormat.HoursShape | src/components/StitchCounter/SectionTimer.tsx:17-22 | from an hour on the text is `h:mm:ss` of the hour, minute and second parts |
| ClockFormat.MinutesShape | src/components/StitchCounter/SectionTimer.tsx:17-25 | below an hour the text is `m:ss` |
| SectionTimer.ElapsedSeconds | src/components/StitchCounter/SectionTimer.tsx:129-131 | base plus the whole seconds since the start, by floor division; never below the base once the clock has passed the start |
| SectionTimer.Flush | src/components/StitchCounter/SectionTimer.tsx:95-119 | with no pending save nothing changes; otherwise the captured section of the project selected now gets the elapsed seconds as its time, when it exists there, and no other section, project or key changes |
| SectionTimer.StartStep | src/components/StitchCounter/SectionTimer.tsx:80-123 | a timer on another section is saved first (the store becomes `Flush` of the old one), with no timer the store is unchanged; unless already running, this section runs from now with its stored time as base; afterwards exactly this section runs |
| SectionTimer.StopStep | src/components/StitchCounter/SectionTimer.tsx:126-156 | a stopped timer changes nothing; a running one returns to idle, the section's time becomes the elapsed seconds, and no other section or project changes |
| SectionTimer.ResetStep | src/components/StitchCounter/SectionTimer.tsx:159-187 | the stored time becomes 0; only this section's timer is cleared, and the running value is dropped |
| SectionTimer.TickStep | src/components/StitchCounter/SectionTimer.tsx:190-218 | while this section runs each tick stores the elapsed time; otherwise nothing changes |
| SectionTimer.SelectionChangedStep | src/components/StitchCounter/SectionTimer.tsx:232-241 | a timer running for another section is saved and cleared, so afterwards only the selected section can run |
| SectionTimer.ReminderPeriod | src/components/StitchCounter/SectionTimer.tsx:261-284 | a reminder is armed exactly when the timer is off, the option is on and the delay is non-zero; its period is delay·60000 ms |
| SectionTimer.ReminderExcludesAutoOff | src/components/StitchCounter/SectionTimer.tsx:244-266 | the reminder and the auto-off check are never armed together |
| SectionTimer.TickStoresDisplay | src/components/StitchCounter/SectionTimer.tsx:286-291 | a tick stores exactly the value the display shows at that instant |
| SectionTimer.StartThenStop | src/components/StitchCounter/SectionTimer.tsx:80-156 | start then stop adds the whole seconds that passed to the section's stored time and ends idle; apart from a section whose timer ran before, no other section changes |
| SectionTimer.SwitchSavesRunningSection | src/components/StitchCounter/SectionTimer.tsx:232-241 | switching to another section saves the running count into the section that was running, then idles |
| SectionTimer.SameSectionIDAcrossProjects | src/components/StitchCounter/SectionTimer.tsx:57-58 | the running timer is keyed by section id alone: a project with a section of the same id keeps it running, and the next tick writes into that project |
| SectionTimer.Timer.constructor | src/components/StitchCounter/SectionTimer.tsx:12-15 | on page load nothing runs and the interaction clock starts |
| SectionTimer.Timer.Remount | src/components/StitchCounter/SectionTimer.tsx:53 | a new mount keeps the page-wide variables and restarts the interaction clock |
| SectionTimer.Timer.MarkInteraction | src/components/StitchCounter/SectionTimer.tsx:76-78 | only the interaction time changes |
| SectionTimer.Timer.Clear | src/components/StitchCounter/SectionTimer.tsx:149-152 | the four variables return to idle |
| SectionTimer.Timer.CallFlush | src/components/StitchCounter/SectionTimer.tsx:85 | the store becomes `Flush` of the old one |
| SectionTimer.Timer.Start | src/components/StitchCounter/SectionTimer.tsx:80-123 | variables and store become `StartStep` of the old ones; the interaction is marked when a start happened |
| SectionTimer.Timer.Stop | src/components/StitchCounter/SectionTimer.tsx:126-156 | variables and store become `StopStep` of the old ones |
| SectionTimer.Timer.Reset | src/components/StitchCounter/SectionTimer.tsx:159-187 | variables and store become `ResetStep` of the old ones |
| SectionTimer.Timer.Tick | src/components/StitchCounter/SectionTimer.tsx:190-218 | the store becomes `TickStep` of the old one; the variables are untouched |
| SectionTimer.Timer.SelectionChanged | src/components/StitchCounter/SectionTimer.tsx:232-241 | variables and store become `SelectionChangedStep` of the old ones |
| SectionTimer.Timer.CheckAutoOff | src/components/StitchCounter/SectionTimer.tsx:244-258 | stops and signals the toast exactly when running, the option is on, the delay is non-zero and the last interaction is at least the delay ago; otherwise nothing changes |
| DataPointCounter.Pressed | src/components/StitchCounter/DataPointCounter.tsx:79-99 | decrement gives max(0, v-1), increment v+1, reset 0 |
| DataPointCounter.PressKeepsCountNatural | src/components/StitchCounter/DataPointCounter.tsx:79-99 | from a non-negative count every button keeps it non-negative, and an enabled button always changes it |
| DataPointCounter.IncrementDecrementInverse | src/components/StitchCounter/DataPointCounter.tsx:79-89 | decrement undoes increment on a non-negative count, and increment undoes an enabled decrement |
| DataPointCounter.PressStep | src/components/StitchCounter/DataPointCounter.tsx:29-50 | the card's counter of the selected section becomes the pressed value and the other cards are unchanged; a missing section changes nothing |
| DataPointCounter.Press | src/components/StitchCounter/DataPointCounter.tsx:33-58 | the store becomes `PressStep` of the old one, then the timer's interaction is marked when a timer exists |
| SectionTitle.SectionName | src/components/StitchCounter/StitchCounterSectionTitle.tsx:29-32 | the selected section's name, or "No section selected" when none is selected or the pointer dangles |
| SectionTitle.SubmittedName | src/components/StitchCounter/StitchCounterSectionTitle.tsx:88-94 | a rename happens exactly when the trimmed text is non-empty and the raw text differs from the current name; the name is the trimmed text |
| SectionTitle.SubmittedNameIsTrimmed | src/components/StitchCounter/StitchCounterSectionTitle.tsx:91-94 | a submitted name is non-empty, has no white space at either end and is its own trim |
| SectionTitle.ResubmitIsNoOp | src/components/StitchCounter/StitchCounterSectionTitle.tsx:88-94 | submitting the name just applied again renames nothing |
| SectionTitle.BlurGracePeriod | src/components/StitchCounter/StitchCounterSectionTitle.tsx:63-84 | within 300 ms of opening no blur closes the editor; afterwards only a blur toward the check button keeps it open |
| SectionTitle.SubmitStep | src/components/StitchCounter/StitchCounterSectionTitle.tsx:87-97 | the store changes only when the guard allows; then it is `renameSection` of the shown section to the trimmed text, so only that name changes and the project is stamped |
| SectionTitle.TitleEditor.constructor | src/components/StitchCounter/StitchCounterSectionTitle.tsx:34-36 | closed editor, empty text, no start time |
| SectionTitle.TitleEditor.BeginEditing | src/components/StitchCounter/StitchCounterSectionTitle.tsx:39-42 | opening clears the text and records the time; asking again while open changes nothing |
| SectionTitle.TitleEditor.Type | src/components/StitchCounter/StitchCounterSectionTitle.tsx:111 | only the text changes |
| SectionTitle.TitleEditor.Blur | src/components/StitchCounter/StitchCounterSectionTitle.tsx:63-84 | the editor stays open exactly under the blur rule |
| SectionTitle.TitleEditor.Submit | src/components/StitchCounter/StitchCounterSectionTitle.tsx:87-97 | the store becomes `SubmitStep` of the old one, and the editor closes whether or not a rename happened |
| SectionTitle.TitleEditor.Cancel | src/components/StitchCounter/StitchCounterSectionTitle.tsx:100-102 | the editor closes |
| StitchCounter.ShownCounters | src/components/StitchCounter/StitchCounter.tsx:206-226 | a card is shown exactly for each of stitches, rows and repeats that is switched on |
| StitchCounter.ActiveCounters | src/components/StitchCounter/StitchCounter.tsx:41-47 | the number of cards shown, at most 3, and 0 without counter options |
| StitchCounter.CardsLayout | src/components/StitchCounter/StitchCounter.tsx:197-224 | two columns exactly for two cards; compact cards exactly for three |
| StitchCounter.ShownCountersDistinct | src/components/StitchCounter/StitchCounter.tsx:41-47 | no card is shown twice, and the count equals the cards shown |
| StitchCounter.SaveNotesStep | src/components/StitchCounter/StitchCounter.tsx:55-68 | without a section nothing changes; otherwise only that section's notes become the draft |
| StitchCounter.SaveUnchangedDraft | src/components/StitchCounter/StitchCounter.tsx:49-68 | opening the editor and saving without typing leaves every section as it was |
| StitchCounter.NotesEditor.constructor | src/components/StitchCounter/StitchCounter.tsx:28-29 | closed editor, empty draft |
| StitchCounter.NotesEditor.EditNotes | src/components/StitchCounter/StitchCounter.tsx:49-53 | without a section nothing changes; otherwise the draft is the section's notes and the editor opens |
| StitchCounter.NotesEditor.TypeNotes | src/components/StitchCounter/StitchCounter.tsx:234 | only the draft changes |
| StitchCounter.NotesEditor.SaveNotes | src/components/StitchCounter/StitchCounter.tsx:55-68 | the store becomes `SaveNotesStep` of the old one; the editor closes when a section is selected |
| StitchCounter.NotesEditor.CancelNotes | src/components/StitchCounter/StitchCounter.tsx:70-73 | closes the editor and empties the draft; the store is untouched |
| StitchCounter.DeleteSelectedSection | src/components/StitchCounter/StitchCounter.tsx:75-79 | deletes the selected section only when a section and a non-empty project id are selected |
| StitchCounter.DeleteSelectedMovesToFirst | src/components/StitchCounter/StitchCounter.tsx:75-79 | after deleting the selected section the page shows the first remaining section, or none |
| TimerSettings.StoredDelay | src/components/TimerSettings.tsx:84 | `parseInt(text) \|\| 1`: the parsed integer, or 1 for text that is not a number or reads 0; never 0 |
| TimerSettings.StoredDelayOfIntToString | src/components/TimerSettings.tsx:84 | typing the decimal form of a non-zero integer stores that integer |
| TimerSettings.EmptyOrZeroStoresOne | src/components/TimerSettings.tsx:84 | clearing the field or typing 0 stores 1 |
| TimerSettings.ToggleStep | src/components/TimerSettings.tsx:31-44 | a switch flips exactly its option; the other flags and both delays are kept |
| TimerSettings.ToggleTwice | src/components/TimerSettings.tsx:31-44 | flipping a switch twice restores every timer option |
| TimerSettings.ChangeDelayStep | src/components/TimerSettings.tsx:76-88 | a change sets exactly that delay to the stored value of the text; everything else is kept |
| TimerSettings.Toggle | src/components/TimerSettings.tsx:33-44 | the store becomes `ToggleStep` of the old one |
| TimerSettings.DelayInput.constructor | src/components/TimerSettings.tsx:61-62 | unfocused, with the stored number as text |
| TimerSettings.DelayInput.Focus | src/components/TimerSettings.tsx:89-92 | focusing resets the text to the stored number, so the shown text does not change |
| TimerSettings.DelayInput.Change | src/components/TimerSettings.tsx:76-88 | the typed text is kept and the store becomes `ChangeDelayStep` of the old one |
| TimerSettings.DelayInput.Blur | src/components/TimerSettings.tsx:93-101 | blur, also reached by Enter, unfocuses and resets the text to the stored number |
| TimerSettings.EditDelay | src/components/TimerSettings.tsx:75-96 | after focus, typing and blur the input shows the stored number, which is the typed number for the decimal form of a non-zero integer |
| ProjectOverview.AddCounts | src/components/ProjectOverview.tsx:12-17 | each running total grows by the section's count |
| ProjectOverview.ReduceIsSum | src/components/ProjectOverview.tsx:11-19 | the left fold from any start equals the start plus the sum |
| ProjectOverview.TotalsAreSums | src/components/ProjectOverview.tsx:11-19 | each total is the sum of that counter over all sections; all totals are 0 with no sections |
| ProjectOverview.TotalsAfterReplace | src/components/ProjectOverview.tsx:11-19 | replacing one section moves each total by that section's change |
| ProjectOverview.TotalsAfterWrite | src/components/ProjectOverview.tsx:11-19 | a counter write to the shown section moves that total by the change and leaves the other totals alone |
| ProjectOverview.FormatMinutesParts | src/components/ProjectOverview.tsx:27-31 | for a minute count the text is hours "h " minutes "m", with minutes below 60 and hours·60 + minutes the count |
| ProjectOverview.FormatDurationShowsHoursMinutes | src/components/ProjectOverview.tsx:85 | the corrected text shows whole hours and leftover whole minutes of the seconds, at most the total and less than a minute short |
| ProjectOverview.OneHourShownAsSixtyHours | src/components/ProjectOverview.tsx:85 | the worked example of the finding: 3600 stored seconds read "60h 0m" as written and "1h 0m" corrected |
| ProjectOverview.AllNotes | src/components/ProjectOverview.tsx:22-24 | one element per section, the section's notes, in key order |
| ProjectOverview.NoteCardsAsWritten | src/components/ProjectOverview.tsx:97-114 | the cards as written fail exactly when some section has non-empty notes; otherwise no card is drawn |
| ProjectOverview.NoteCards | src/components/ProjectOverview.tsx:97-114 | corrected: a card exactly for each section with non-empty notes, holding that text |
| ProjectOverview.SavedNotesBreakOverview | src/components/ProjectOverview.tsx:108 | a section whose notes were saved by the editor makes the card fail as written, while the corrected card shows the text |
| ProjectOverview.Overview | src/components/ProjectOverview.tsx:5-117 | the corrected card (time from `FormatDuration`, cards from `NoteCards`): nothing without a project; otherwise the section count is the number of keys, the totals are the sums, and the notes heading shows when the notes list is non-empty |
| ProjectOverview.OverviewAsWritten | src/components/ProjectOverview.tsx:5-117 | the card as written: nothing exactly without a project; it throws exactly when some section has non-empty notes; otherwise it is the corrected card with the seconds total shown as minutes and no note card |
| ProjectOverview.NotesShownIffSections | src/components/ProjectOverview.tsx:91 | the notes heading shows exactly when the project has a section |
| AppSidebar.OneWeekValue | src/components/AppSidebar.tsx:21 | one week is 604800000 ms |
| AppSidebar.Group | src/components/AppSidebar.tsx:71-77 | a group holds exactly the entries on its side of the one-week line |
| AppSidebar.GroupsPartition | src/components/AppSidebar.tsx:71-77 | the two groups together hold every entry exactly as often as the store does |
| AppSidebar.Insert | src/components/AppSidebar.tsx:73 | insertion adds exactly the one entry |
| AppSidebar.InsertNewestFirst | src/components/AppSidebar.tsx:73 | inserting into a newest-first list keeps it newest first |
| AppSidebar.SortNewestFirst | src/components/AppSidebar.tsx:73 | the sort is newest first and a permutation |
| AppSidebar.InsertStable | src/components/AppSidebar.tsx:73 | an inserted entry goes ahead of entries with the same stamp |
| AppSidebar.SortStable | src/components/AppSidebar.tsx:73 | entries with equal stamps keep their relative order |
| AppSidebar.Search | src/components/AppSidebar.tsx:79-89 | an empty query keeps the list; otherwise an entry is kept exactly when its ASCII-lowered name contains the ASCII-lowered query; entries are only removed |
| AppSidebar.SearchKeepsOrder | src/components/AppSidebar.tsx:79-89 | filtering keeps a list newest first |
| AppSidebar.MatchesProperties | src/components/AppSidebar.tsx:82 | the empty query matches every name, and matching ignores ASCII letter case on either side |
| AppSidebar.Ids | src/components/AppSidebar.tsx:131 | the listed keys, one per entry, in order |
| AppSidebar.Listed | src/components/AppSidebar.tsx:71-89 | a shown list is newest first and holds exactly the entries of its group that match the query |
| AppSidebar.SidebarListsEveryProject | src/components/AppSidebar.tsx:71-77 | with no query the two lists together hold every project exactly once |

## Left out

- Rendering is not modelled: JSX, CSS classes, animation, the sidebar's collapsed state, and the retried input focus.
- `formatDistanceToNow` and `toLocaleString` are not modelled. The overview keeps the raw `lastModified` and the raw totals.
- Toasts and the notification sound are not modelled. `CheckAutoOff` returns whether the toast is shown, and no reminder is fired.
- `setInterval` scheduling is not modelled. A tick, an auto-off check or a reminder is an explicit call with the current time, and the browser's interval clamping is out of scope.
- The document title effect is not modelled.
- Cross-window sync is not modelled: the `storage` and `message` listeners, the patched `localStorage.setItem` and `window.open`, and `postMessage`. Their only effect on the store is a full rehydration (`ProjectStore.Rehydrate`).
- The zustand middleware is not modelled. Persistence is the two-field `Partialize` and `Merge`, and an unreadable slot is treated as absent.
- `Math.random` ids and `Date.now()` are parameters. The model does not assume the ids are fresh, because the source does not check them.
- JavaScript orders integer-like object keys (such as "12") before the other keys. `Dicts` keeps plain insertion order for every key.
- The example projects store notes as arrays of strings and times in minutes. The model types notes as the declared string, so the array case of `flatMap` and `.map` is not represented.
- `Updates.Applicable`: `handleSaveNotes` on a section key missing from the selected project would write a record holding only `notes`. The model requires the key to exist.
- `Store.AddSectionToProject`, `Store.RenameSection` and `Store.DeleteSection` throw a `TypeError` on a partial record, and the model requires a complete one. The same holds for `Store.UpdateSelectedProject` with a dangling or partial selection, and for the components that read `project.data` of the selected entry.
- `SectionTimer.Timer.CheckAutoOff`: the check divides milliseconds by 60000 as floating point. The model compares whole milliseconds, which is the same test.
- `SectionTimer` captures `project` and `selectedSectionID` in stale closures. The model reads the current store at each call.
- `Text.ParseIntOfIntToString` covers the decimal forms. The `0x` prefix is modelled in `ParseMagnitude`, but no property is stated about it.
- `TimerSettings.DelayInput` is not modelled as a `Number(..)` conversion. The source shows `value + ""` of a stored integer, and the model uses integer `toString`.
- `Text.ToLower` lowers only the ASCII letters A-Z. JavaScript's `toLowerCase` applies Unicode case mapping: "É" lowers to "é", and "İ" lowers to two code units. So `AppSidebar.Search` and `AppSidebar.MatchesProperties` promise case-insensitive search only for ASCII letters: a name "Écharpe" is not found by the query "é" in the model, although the app finds it.
- `AppSidebar.Search`, `AppSidebar.Listed` and `AppSidebar.Sidebar` require every listed project to have a name when the query is non-empty. In the app, `project.name.toLowerCase()` throws a `TypeError` on a partial record without a name, such as the one `setSelectedSection` writes for an unknown id. The model does not represent that throw.
- `AppSidebar.Sidebar` is a composition of `Listed` and states nothing of its own. Clicking a listed project is `Store.SetSelectedProjectID`.

## Findings

| source | as written | input that shows it | evidently intended | confidence | as-written member | corrected member |
|---|---|---|---|---|---|---|
| src/components/ProjectOverview.tsx:85 | the total time is passed to a formatter that reads minutes, but the timer stores seconds (SectionTimer.tsx:94, 112) | a section timed for one hour stores 3600, which is shown as "60h 0m" | show whole hours and minutes of the stored seconds: "1h 0m" | not executed | ProjectOverview.TimeTextAsWritten, ProjectOverview.OneHourShownAsSixtyHours, ProjectOverview.OverviewAsWritten | ProjectOverview.FormatDuration, ProjectOverview.FormatDurationShowsHoursMinutes, ProjectOverview.Overview |
| src/components/ProjectOverview.tsx:108 | `section.notes.map(..)` is called on notes, whose declared type is a string; the notes editor saves a string, and strings have no `map`, so the card throws | a section whose notes were saved as "Keep tension loose" | one card per section with non-empty notes, showing that text | not executed | ProjectOverview.NoteCardsAsWritten, ProjectOverview.SavedNotesBreakOverview, ProjectOverview.OverviewAsWritten | ProjectOverview.NoteCards, ProjectOverview.Overview |
