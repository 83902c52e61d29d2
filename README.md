# Weekly notes in the sidebar calendar — a Dafny model

The plugin in `src/main.ts` adds weekly notes to the host's sidebar calendar. A click on a week
cell of the calendar selects that cell, remembers the week for the calendar page shown, and opens
or creates the week's note page. That page carries an alias such as `43周 · 2025年10月`. The plugin
polls the calendar's visibility. While the calendar is shown, the plugin highlights the week of the
focused block when that block is a weekly note of the header's year. It also puts a journal dot on
every week cell whose note exists for the page shown.

The model has four modules.

- `Text` (`text.dfy`) holds the string operations the plugin takes from JavaScript:
  - `trim`, with ECMAScript's WhiteSpace and LineTerminator code points;
  - the ASCII class `\d`;
  - `replace` with a one-character pattern, which removes the first occurrence only;
  - `toString` on a block id;
  - the strip step of the header readers.
- `WeekAlias` (`week_alias.dfy`) holds the alias template, the alias pattern, the first-match
  scan of `isWeeklyNoteBlock` and the block store as a map.
- `PanelTree` (`panel_tree.dfy`) holds the host's panel tree as a datatype, `findViewPanel`, and
  `getCurrentFocusedBlockId` on top of it.
- `Plugin` (`plugin.dfy`) holds the module-level state. It has two forms:
  - a `State` value, with specification functions for each operation;
  - a class `PluginState`, whose fields are the plugin's `let` variables and whose methods run the
    plugin's loops over the week cells.

  Every method is proved to produce the state its specification function gives. Every method
  that models a function of the plugin keeps the invariant `Valid`: the tracked set
  `weeksWithJournalDots` names exactly the weeks of the dotted cells. `RemoveJournalDots`,
  `AddJournalDots` and `DotCell` are the inner steps of `UpdateJournalDots`. They break the
  invariant midway, and `UpdateJournalDots` restores it.

A week cell of the calendar is a `Cell(text, selected, hasDot)`:

- `text` is its text content;
- `selected` means the `value` class is present;
- `hasDot` means it holds a `.journal-dot` child.

Whatever the plugin reads from its host is a parameter:

| host input | modelled as |
|---|---|
| the active panel id and the panel tree | parameters |
| the block store | a map from block id to aliases |
| the calendar header's year and month | strings, whose source is modelled by `Text.HeaderValue` |
| the backend's `get-block-by-alias` | a map from alias to block id; an absent alias or id `0` means "no block" |
| whether the calendar is shown | a boolean |
| whether the `.days` container exists | the class's constant `hasContainer` |

## Model

| member | source | states |
|---|---|---|
| Text.Trim | src/main.ts:132 | `String.prototype.trim`, also used at lines 112, 292, 333 and 401. Its meaning is stated by `TrimSlice` (the kept slice, with only spaces outside it and no space at either end) and `TrimIdempotent`. |
| Text.TrimStartDrops | src/main.ts:132 | `trim` first drops a run of leading space characters. What remains is a suffix that does not start with a space. |
| Text.TrimEndDrops | src/main.ts:132 | `trim` then drops a run of trailing space characters. What remains is a prefix that does not end with a space. |
| Text.TrimSlice | src/main.ts:132 | A trimmed text is one slice of the original, starting right after the leading spaces. It neither starts nor ends with a space, and everything outside it is space. |
| Text.TrimOfTrimmed | src/main.ts:292 | A text without a space at either end is left unchanged by `trim`. |
| Text.TrimIdempotent | src/main.ts:292 | Trimming twice is trimming once. |
| Text.DigitsAreTrimmed | src/main.ts:292 | A digit string, such as a week number taken from an alias, is its own trimmed form. |
| Text.RemoveFirst | src/main.ts:401 | `replace("年", "")` leaves a text without the mark unchanged, and otherwise removes exactly one character. |
| Text.RemoveFirstAt | src/main.ts:401 | The character removed is the first occurrence of the mark, and only that one. |
| Text.DecimalString | src/main.ts:211 | `blockId.toString()` is the canonical decimal string of the id: non-empty digits that denote it, with no leading zero unless the id is 0. |
| Text.DecimalStringInjective | src/main.ts:211 | Different block ids give different strings. |
| Text.HeaderValue | src/main.ts:399-405 | A missing or empty header gives the fallback. Otherwise the result is the header with its first mark removed and then trimmed: a slice of that text with only spaces outside it, and no space at either end. |
| Text.HeaderOfDigits | src/main.ts:399-402 | A header reading `2025年` gives exactly `2025`. |
| WeekAlias.Format | src/main.ts:338 | The alias template. Its meaning is stated by `MatchFormat` (the pattern recovers the parts) and `SameWeekSameTail` (the week and the tail are determined by the alias). |
| WeekAlias.DigitRun | src/main.ts:250 | The group `(\d+)` at the start of an alias can only be the longest run of leading digits. |
| WeekAlias.DigitRunIs | src/main.ts:250 | That longest run is unique. |
| WeekAlias.MatchTail | src/main.ts:250 | The part of the pattern after `周 · ` accepts only a four-digit year, `年`, a non-empty digit month and `月`, exactly as the template builds them. |
| WeekAlias.MatchTailOf | src/main.ts:250 | That part of the pattern gives back the year and month a template tail was built from. |
| WeekAlias.MatchAlias | src/main.ts:250-252 | The pattern accepts a string only when it is the template applied to well-formed week, year and month. |
| WeekAlias.MatchFormat | src/main.ts:417 | Round trip: the pattern recovers the week, year and month an alias was built from, when they are well formed. |
| WeekAlias.MatchAliasNone | src/main.ts:250-252 | The pattern rejects a string exactly when no well-formed week, year and month produce it. |
| WeekAlias.BadYearRejected | src/main.ts:250 | An alias built with a year that is not exactly four digits is never recognised. |
| WeekAlias.SameWeekSameTail | src/main.ts:338 | Two equal template outputs with digit weeks agree on the week and on the rest. |
| WeekAlias.TailNeedsFourDigitYear | src/main.ts:250 | A recognised tail forces the year to be four digits. |
| WeekAlias.FirstWeeklyAlias | src/main.ts:247-255 | The scan returns nothing exactly when no alias matches. Otherwise it returns the year and week of the first matching alias in list order. |
| WeekAlias.IsWeeklyNoteBlock | src/main.ts:241-261 | `isWeeklyNoteBlock` gives `null` for a block that is absent, has no aliases, or has no matching alias. Otherwise it gives `{year, week}` of its first matching alias. |
| WeekAlias.CreatedPageIsWeeklyNote | src/main.ts:241-261 | A block whose first alias is one the plugin builds is recognised as that week's note. |
| PanelTree.FirstView | src/main.ts:228-233 | The first view panel with the id in a list of nodes. It is `None` exactly when there is none. |
| PanelTree.FindViewPanel | src/main.ts:223-236 | `findViewPanel` returns only view panels with the requested id. |
| PanelTree.FindInChildren | src/main.ts:228-233 | The search of the children returns only view panels with the requested id. |
| PanelTree.FindViewPanelIsFirstInPreOrder | src/main.ts:223-236 | `findViewPanel` returns the first match in pre-order: the root before its children, children left to right. It returns `null` exactly when no node matches. |
| PanelTree.FindInChildrenIsFirstInPreOrder | src/main.ts:228-233 | Searching children left to right gives the first match of their concatenated pre-orders. |
| PanelTree.FocusedBlockId | src/main.ts:205-218 | The focused block id exists exactly when the first view panel with the active id in pre-order shows a block with a non-zero id. It is then the canonical decimal string of that block's id, with no leading zero. |
| Plugin.WeekOf | src/main.ts:292 | The week a cell shows: `textContent?.trim()`, also at lines 112, 132 and 333. Its meaning is stated by `Text.TrimSlice` applied to the cell's text. |
| Plugin.Cleared | src/main.ts:86-91 | After clearing, no week cell is selected, and texts and dots are unchanged. |
| Plugin.SelectOnly | src/main.ts:124-127 | After a click, the clicked cell is the only selected cell, and texts and dots are unchanged. |
| Plugin.Highlighted | src/main.ts:290-295 | Exactly the cells whose trimmed text is the week become selected, in addition to those already selected. Texts and dots are unchanged. |
| Plugin.PageKey | src/main.ts:97 | The page key `${year}-${month}`. `PageKeyInjective` and `SaveKeepsOtherPages` state what it guarantees. |
| Plugin.PageKeyInjective | src/main.ts:97 | Two pages with years free of `-` have the same key only if they are the same page. |
| Plugin.SaveKeepsOtherPages | src/main.ts:96-99 | For years without `-`, saving the week of one page leaves every other page's saved week as it was. |
| Plugin.WeekClick | src/main.ts:122-144 | A click selects only the clicked cell, even a blank one. The week is saved under `year-month` only for a non-blank cell, and only then is the week page's alias produced. When the week and month are digit strings and the year has four digits, that alias is recognised as that week of that year. |
| Plugin.HasJournal | src/main.ts:342-343 | The backend's answer for an alias names a block with an id. Its meaning is stated by `Dotted` and `DotCell`. |
| Plugin.JournalFor | src/main.ts:333-343 | A cell deserves a dot: its week is non-blank (the `continue` at line 334), and the alias built at line 338 resolves to a block with an id. Its meaning is stated by `Dotted` and `DottedAgrees`. |
| Plugin.Dotted | src/main.ts:321-355 | After a dots update, a cell has a dot exactly when its trimmed text is non-empty and the backend knows a block with an id for its alias. |
| Plugin.DottedIgnoresOldDots | src/main.ts:323-329 | Which cells get a dot does not depend on the dots removed first. |
| Plugin.DottedAgrees | src/main.ts:332-351 | The weeks added to `weeksWithJournalDots` are exactly the weeks of the dotted cells. |
| Plugin.DotsAgreeSameFaces | src/main.ts:17 | Changing only which cells are selected keeps the tracked set in agreement with the dots. |
| Plugin.FocusTarget | src/main.ts:277-287 | The week to highlight: none without a focused block or when it is not a weekly note, otherwise its week when its year is the header's. Its meaning is stated by `FocusHighlight`. |
| Plugin.FocusHighlight | src/main.ts:274-297 | After a change of focus, a cell is selected exactly when the focused block is a weekly note of the header's year and the cell shows its week. The month is not compared. |
| Plugin.FocusUpdate | src/main.ts:266-298 | One run of `updateWeekSelectionBasedOnFocusedBlock` as a value. Its meaning is stated by `FocusHighlight` and by `UpdateWeekSelectionBasedOnFocusedBlock`, which is proved equal to it. |
| Plugin.DotsUpdate | src/main.ts:304-356 | One run of `updateJournalDots` as a value. Its meaning is stated by `Dotted` and `DottedAgrees`, and by `UpdateJournalDots`, which is proved equal to it. |
| Plugin.VisibilityStep | src/main.ts:159-184 | `isCalendarVisible` ends equal to the current visibility and `weekSelections` is never touched. Hiding clears the selection and changes nothing else. Showing comes to one focus update and one dots update. |
| Plugin.VisibilityStepSettles | src/main.ts:175-180 | A second poll with nothing changed in the host changes nothing. |
| Plugin.HideThenShowLosesHighlight | src/main.ts:164-173 | As written, when the calendar is hidden and shown again with the same block focused, the highlighted week stays unhighlighted although a fresh focus would highlight it. |
| Plugin.HideThenShowExample | src/main.ts:241-261 | The inputs of that lemma occur: block `7` aliased `43周 · 2025年10月` is a note of week `43` of 2025. |
| Plugin.VisibilityStepRestoring | src/main.ts:159-184 | The corrected step keeps visibility and `weekSelections` as the original does. |
| Plugin.HideThenShowRestoresHighlight | src/main.ts:169-173 | With the corrected step, hiding and showing the calendar leaves exactly the selection a fresh focus on the current block gives. |
| Plugin.PluginState.constructor | src/main.ts:13-19 | At load nothing is selected, remembered or dotted, no block was focused, and the calendar counts as visible. |
| Plugin.PluginState.ClearWeekSelection | src/main.ts:86-91 | `clearWeekSelection` leaves the cells `Cleared` and every other field unchanged. |
| Plugin.PluginState.SaveWeekSelection | src/main.ts:96-99 | `saveWeekSelection` stores the week under `year-month` and changes nothing else. |
| Plugin.PluginState.SelectCellsOfWeek | src/main.ts:290-295 | The loop over the week cells leaves them `Highlighted` with the week, and nothing else changes. |
| Plugin.PluginState.RestoreWeekSelection | src/main.ts:104-117 | With a non-empty saved week for the page and a container, the cells showing it become selected. Otherwise nothing changes. |
| Plugin.PluginState.HandleWeekClick | src/main.ts:122-144 | `handleWeekClick` produces the state and the page alias of `WeekClick`. |
| Plugin.PluginState.OnContainerClick | src/main.ts:67-75 | A click on a week cell is a week click. Any other click in the container only clears the selection. |
| Plugin.PluginState.UpdateWeekSelectionBasedOnFocusedBlock | src/main.ts:266-298 | With the same focused block as last time nothing changes. Otherwise the block is recorded and the cells become its `FocusHighlight`. |
| Plugin.PluginState.UpdateJournalDots | src/main.ts:304-356 | Without a container, or on the page last checked, nothing changes. Otherwise the page is recorded, the cells become `Dotted`, and the tracked set becomes their journal weeks. |
| Plugin.PluginState.RemoveJournalDots | src/main.ts:323-329 | Every dot is removed and nothing else changes. |
| Plugin.PluginState.AddJournalDots | src/main.ts:332-355 | Starting from no dots and an empty set, the loop dots exactly the cells with a journal, and the set collects their weeks. |
| Plugin.PluginState.DotCell | src/main.ts:333-351 | One round of that loop dots cell `i` and adds its week exactly when its week note exists. |
| Plugin.PluginState.SetupCalendarNavigation | src/main.ts:362-372 | At load the selection follows the focused block, and then the dots are put on the page shown. |
| Plugin.PluginState.CheckCalendarVisibility | src/main.ts:159-184 | `checkCalendarVisibility` produces `VisibilityStep` of the state. |
| Plugin.PluginState.CheckCalendarVisibilityRestoring | src/main.ts:164-167 | The corrected poll produces `VisibilityStepRestoring` of the state. |

## Left out

- Lifecycle (`load`/`unload`, CSS injection, localisation, listener removal; src/main.ts:21-52): these are host calls with no logic of their own. The constructor stands for the initial field values.
- The 300 ms polling timer (src/main.ts:149-154): one poll is `CheckCalendarVisibility`, not the timer.
- `isElementVisible` (src/main.ts:189-200): it depends on browser layout and computed style, so the visibility is a boolean parameter.
- DOM queries: the week cells are the class's `cells`. The calendar is taken not to re-render them between calls.
- `getYearFromCalendar`/`getMonthFromCalendar` (src/main.ts:377-406): only the strip step is modelled, as `Text.HeaderValue`. The `new Date()` fallback depends on the clock, so it is a parameter.
- `createOrOpenWeekPage` and `createWeekPage` (src/main.ts:411-493): these are backend and editor calls. `HandleWeekClick` returns the alias they would use and does nothing further.
- Plugin.PluginState.UpdateJournalDots: the awaited backend calls and their interleaving with other polls are not modelled. The loop runs to completion within one call, with the month read once, whereas the source rereads the header at src/main.ts:337. A failing backend call counts as "no block".
- `try`/`catch` around the store and panel lookups (src/main.ts:206-215, 242-258): the model's lookups cannot fail.
- `lastSelectedYear`/`lastSelectedMonth` (src/main.ts:10-11, 364-365): they are written but never read, so they are not fields of the model.
- `restoreWeekSelection` has no caller in src/main.ts. It is modelled as a method all the same.
- Text.DecimalString: block ids are unbounded naturals. A JavaScript number id is printed in exponent notation from 1e21 and loses precision above 2^53, and the model does not capture either.
- Text.TrimStartDrops: the space set is ECMAScript's WhiteSpace and LineTerminator code points as fixed characters. It is not derived from a Unicode database.

## Findings

| source | as written | input that shows it | evidently intended | confidence | as-written member | corrected member |
|---|---|---|---|---|---|---|
| src/main.ts:164-173 | Hiding the calendar clears the selection but keeps `lastFocusedBlockId`. When the calendar is shown again, `updateWeekSelectionBasedOnFocusedBlock` returns early at line 270 because the focused block has not changed. | Block `7` is aliased `43周 · 2025年10月` and focused. The calendar shows 2025 with a week cell `43`. The calendar goes visible, then hidden, then visible. | The comment at line 169 says the selection is restored from the focused block on showing. Forgetting the last focused block on hiding does that. | not executed | Plugin.HideThenShowLosesHighlight | Plugin.HideThenShowRestoresHighlight |
