# On-duty specialist roster: a Dafny model of the page's state

The roster page lists which specialists are on duty on a chosen day of the week.
Visitors narrow the list with a search box. After a PIN check, an admin can add,
edit and delete roster entries and clinics. All of this logic is state held by
the single page component in `index.tsx` plus its event handlers. This project
models that state and proves what the handlers do to it.

- `seqs.dfy`, module `Seqs`: order-preserving `filter`. It proves that the result
  embeds in the input and that the kept positions are exactly those whose element
  passes the test. It also proves how filters distribute over concatenation and
  that two filters in a row equal one filter by the conjunction.
- `text.dfy`, module `Text`: `toLowerCase` (ASCII letters only) and `includes`,
  with the proof that `includes` finds an occurrence at any position.
- `roster.dfy`, module `Roster`: the `Specialist`, `Clinic` and admin-form
  records, and the day labels and PIN constants. It also holds the pure
  computations behind the handlers:
  - the `{ ...s, ...formData }` merge;
  - edit-by-id (`map`) and delete-by-id (`filter`);
  - the two-stage day and search filter;
  - the stored theme flag.
- `app.dfy`, module `App`: class `RosterApp`. Its fields are the component's
  `useState` variables. Each handler is a method that reassigns exactly the
  fields it sets, and its `modifies` frame names those fields. `Valid()` holds
  four things:
  - the selected day is one of the seven labels;
  - the form's day is one of the seven labels;
  - in edit mode the form carries the edited id;
  - the stored theme matches the flag.

Some JavaScript truthiness is modelled exactly:
- `if (editingSpecialistId)` treats an empty id like `null` (`EditMode`).
- `if (searchQuery)` treats `""` as no query.
- `saved ? saved === 'dark' : true` treats a stored `""` as dark.

The form is `Partial<Specialist>`. `startEditing` copies the record's id into it,
so `{ ...s, ...formData }` also overwrites the id whenever the form carries one.

The following browser inputs become parameters:
- `Date.now()` ids: `newId` and `stamp`;
- the `confirm` answer: `confirmed`;
- `getDay()`: `weekday`;
- the values read from local storage: the constructor's arguments.

The failing-PIN `alert` shows up as `accepted == false` with nothing else changed.

Three behaviours of the code a reader might not expect:
- A new entry's id is whatever `Date.now()` gives, and nothing checks that it is
  unique. Uniqueness is therefore a precondition of the lemmas that need it
  (`IdsUnique`), never a proved invariant.
- Deleting removes every entry with the given id, not just one record. Editing
  likewise rewrites every entry with the edited id. With unique ids both reduce
  to one record (`EditOneRecord`, `RemoveOneRecord`).
- Stored lists are parsed with `JSON.parse` and no guard. Malformed content
  throws instead of falling back to an empty list.

A handler can only run while its control is on the page, so each method
requires what the rendering demands of its control:
- the admin controls (edit and delete buttons, the admin form, the clinic form
  and delete buttons) exist only in admin mode: `requires isAdmin`;
- the PIN field, the confirm button and the close button exist only while the
  login dialog is open: `requires showLogin`;
- the form's cancel button exists only in edit mode: `requires EditMode(editingId)`;
- the edit and delete buttons sit on the shown entries: `StartEditing` requires
  its record, and `RemoveSpecialist` its id, to be among `Visible()`;
- the day buttons and the form's day select offer only the seven labels.

## Model

| member | source | states |
|---|---|---|
| `Seqs.Filter` | index.tsx:153 | the result is no longer than the input |
| `Seqs.FilterMembers` | index.tsx:153 | the result holds exactly the input's elements that pass the test |
| `Seqs.FilterPositions` | index.tsx:153 | the result embeds in the input by strictly increasing positions (original order kept), and a position is kept exactly when its element passes the test |
| `Seqs.FilterTwice` | index.tsx:153-161 | filtering twice is filtering once by the conjunction of the two tests |
| `Seqs.FilterConcat` | index.tsx:147 | filtering a concatenation is concatenating the filtered parts |
| `Seqs.FilterKeepsAll` | index.tsx:147 | a test every element passes leaves the list unchanged |
| `Seqs.FilterDropsOne` | index.tsx:147 | when exactly one element fails the test, the result is the list without that element |
| `Text.Lower` | index.tsx:155-159 | same length; no ASCII capital remains; each capital becomes its small letter and every other character is kept |
| `Text.Includes` | index.tsx:157-159 | the empty query is always included, and a query longer than the string never is |
| `Text.LowerIdempotent` | index.tsx:155-159 | lower-casing an already lower-cased string changes nothing |
| `Text.IncludesIff` | index.tsx:157-159 | `includes` holds exactly when the query occurs at some position of the string |
| `Text.OccurrenceSurvivesLowering` | index.tsx:155-159 | an occurrence of the query is still found after both sides are lower-cased |
| `Roster.Merge` | index.tsx:117 | the merged record has every text field from the form, and the form's id when it carries one, else the record's own id |
| `Roster.BlankForm` | index.tsx:122 | the reset form carries no id, holds the given day and has every text field empty |
| `Roster.FormOf` | index.tsx:141 | the loaded form carries the record's id, and merging it into any record reproduces the loaded record |
| `Roster.WithId` | index.tsx:120 | the appended record has the new id, and loading it back into the form gives the submitted form with that id |
| `Roster.EditMode` | index.tsx:116 | edit mode holds exactly when the editing id is neither null nor the empty string |
| `Roster.SetField` | index.tsx:440-466 | one input's change sets that field of the form and leaves the id and every other field alone |
| `Roster.ApplyEdit` | index.tsx:117 | same length; each record with the edited id becomes its merge with the form, every other record is unchanged |
| `Roster.EditOneRecord` | index.tsx:116-117 | with unique ids, saving an edit replaces exactly the one record at the edited position |
| `Roster.EditKeepsIds` | index.tsx:117 | a form without an id, or carrying the edited id, changes no record's id |
| `Roster.SaveUnchangedForm` | index.tsx:117 | loading a record into the form and saving it untouched leaves the list unchanged when no other record shares its id |
| `Roster.AppendFreshKeepsUnique` | index.tsx:120 | appending under an id no record has keeps the ids unique |
| `Roster.RemoveUndoesAppend` | index.tsx:114-150 | deleting the entry just appended under an id no other entry has gives back the roster as before the append |
| `Roster.RemoveById` | index.tsx:147 | a record remains exactly when it was in the list and its id differs from the deleted one |
| `Roster.RemoveKeepsOthersInOrder` | index.tsx:147 | deletion keeps, in their original order, exactly the positions whose id differs |
| `Roster.RemoveOneRecord` | index.tsx:147 | with unique ids, deleting the id at position k yields the list without position k |
| `Roster.RemoveKeepsUnique` | index.tsx:147 | deletion keeps unique ids unique |
| `Roster.RemoveClinicById` | index.tsx:416 | a clinic remains exactly when it was in the list and its id differs |
| `Roster.MatchesQuery` | index.tsx:155-160 | an entry matches exactly when the lower-cased query occurs at some position of the lower-cased name, specialty or clinic name |
| `Roster.Listed` | index.tsx:153-161 | a listed entry is on the day; with an empty query every entry of the day is listed, otherwise exactly those that also match |
| `Roster.FilteredSpecialists` | index.tsx:152-163 | an entry is listed exactly when it is in the roster, is on the selected day and, for a non-empty query, matches it |
| `Roster.FilteredInOrder` | index.tsx:152-163 | the listed entries are, in original order, exactly the positions whose entry is on the day and matches the query |
| `Roster.EmptyQueryListsWholeDay` | index.tsx:153-154 | an empty query lists exactly the day filter's result |
| `Roster.QueryCaseIgnored` | index.tsx:155 | a query and its lower-cased form match the same entries |
| `Roster.VerbatimQueryMatches` | index.tsx:156-160 | a query occurring in the name, specialty or clinic name matches, whatever the letter case |
| `Roster.InitialDarkMode` | index.tsx:37-40 | dark exactly when nothing is stored, the stored value is empty, or it is "dark" |
| `Roster.ThemeValue` | index.tsx:83-91 | the theme effect stores "dark" or "light" |
| `Roster.ThemeRestored` | index.tsx:37-40 | the stored theme value reads back as the same flag |
| `App.RosterApp.constructor` | index.tsx:37-71 | initial state: theme from storage, stored lists, today's day, empty query, blank form on the first day, not admin, no dialog, empty PIN; the theme effect has stored the flag |
| `App.RosterApp.Valid` | index.tsx:37-143 | the invariant every handler keeps: the selected day (day buttons, index.tsx:301-304) and the form's day (day select, 440-441; record loaded by startEditing, 139-141) are among the seven labels, the form carries the edited id in edit mode (141), and the stored theme matches the flag (83-91); it implies that the stored theme reads back as the current flag |
| `App.RosterApp.Visible` | index.tsx:152-163 | the shown list holds exactly the roster entries listed for the selected day and query |
| `App.RosterApp.AdminLogin` | index.tsx:104-112 | dialog open only; accepted exactly when the PIN input is "2024"; then admin mode, dialog closed, input cleared; otherwise those three fields unchanged |
| `App.RosterApp.AdminButton` | index.tsx:202 | in admin mode it leaves admin mode; otherwise it opens the login dialog |
| `App.RosterApp.CloseLogin` | index.tsx:481 | dialog open only; the login dialog is closed |
| `App.RosterApp.TypePin` | index.tsx:494 | dialog open only; the PIN input holds the typed text |
| `App.RosterApp.SelectDay` | index.tsx:304 | the selected day is the clicked label |
| `App.RosterApp.SetSearchQuery` | index.tsx:293 | the search query holds the typed text |
| `App.RosterApp.EditForm` | index.tsx:440-466 | admin mode only, and the day select offers only the seven labels; the form changes in the one edited field |
| `App.RosterApp.StartEditing` | index.tsx:139-143 | admin mode only, on a shown entry; the editing id is the record's id and the form holds all of the record's fields |
| `App.RosterApp.CancelEditing` | index.tsx:430-431 | admin mode and edit mode only; edit mode ends and the form is blank on the selected day |
| `App.RosterApp.SaveSpecialist` | index.tsx:114-123 | admin mode only; in edit mode: the list is the by-id edit, no id or position changes, edit mode ends; otherwise exactly one record with the form's fields and the new id is appended; the saved record's day is one of the seven labels, so a roster whose entries all are on those days stays so; the form is reset to the selected day |
| `App.RosterApp.RemoveSpecialist` | index.tsx:145-150 | admin mode only, with the id of a shown entry; confirmed: every record with the id is removed and edit mode ends only if it was that id; refused: nothing changes |
| `App.RosterApp.AddClinic` | index.tsx:397-402 | admin mode only; one clinic with id "c" + stamp and the given name and address is appended; specialists are untouched |
| `App.RosterApp.RemoveClinic` | index.tsx:416 | admin mode only; the clinic list is filtered by id; specialists, and their clinic names, are untouched |
| `App.RosterApp.ToggleTheme` | index.tsx:194 | the button flips the flag; the theme effect (index.tsx:83-91) then stores the matching value, which reads back as the same flag |
| `App.EditAndSaveUnchanged` | index.tsx:139-143 | editing a shown record and saving without changes leaves the roster as it was when no other record shares its id |

## Left out

- Persisting the lists (index.tsx:47-56, 74-80): local storage and JSON are browser I/O. The constructor takes the already-parsed lists. (The stored theme is modelled, as the field `storedTheme`.) Malformed stored JSON throws in the page; that failure is not modelled.
- The clock and the scroll listener (index.tsx:94-102): timers and DOM events.
- Sharing an entry (index.tsx:125-137): asynchronous `navigator.share` and clipboard calls. The message is only string formatting.
- `document.documentElement.classList`, `scrollIntoView`, the clinic-form panel toggle (index.tsx:391) and the rest of the rendering: presentation. What rendering decides about when a handler can run is modelled as its preconditions: admin mode (index.tsx:362-367, 383-474), the open login dialog (478-504), edit mode for the cancel button (430), the shown entries for the edit and delete buttons (316, 364-365), and the seven labels of the day buttons and day select (301-304, 440-441).
- The browser's `required`-field validation that gates form submission: `SaveSpecialist` and `AddClinic` are modelled for every form content.
- `Date.now()`, `confirm`, `alert` and `getDay()`: these become parameters or a result, as described above.
- Text.Lower: lower-cases ASCII capitals only. Unicode case mapping beyond ASCII (`toLowerCase` on accented Latin, Greek, Cyrillic, and the length-changing mappings) is not modelled. The roster's Arabic labels have no case.
- Text.OccurrenceSurvivesLowering: holds because `Lower` maps one character at a time. JavaScript's context-sensitive mappings (final sigma: "ΟΣ" lowers to "ος" but "ΟΣΑ" to "οσα") can break it in the page.
- Roster.VerbatimQueryMatches: rests on `Text.OccurrenceSurvivesLowering`, so the same context-sensitive mappings can make a verbatim query miss in the page.
- No referential integrity between a specialist's clinic name and the clinic list: the page does not enforce it, so it is not an invariant here.
- Entries read from storage may carry any day, so "every entry is on one of the seven days" (`Roster.OnKnownDays`) is not part of `App.RosterApp.Valid`; `App.RosterApp.SaveSpecialist` keeps it when it held before.
