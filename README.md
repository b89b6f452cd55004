# Agenda task list and time picker: a Dafny model

This project models the logic of the single screen of the Nathsanfer to-do/agenda app
(`App.js`). The screen keeps a list of tasks. Each task is `{id, titulo, descricao, hora}`.
The screen also keeps a form: a title, a description, and a 12-hour time picker with
an hour (1..12), a minute (00..50 in steps of ten) and AM/PM. The form either creates
a task or edits the task that was tapped.

Modules:

- `JsText` (`js_text.dfy`): the JavaScript string and number behaviour the screen depends
  on. This is `trim`, `split` on one character, the decimal rendering of a number inside
  a template literal, and `parseInt`. It proves that a trimmed string is empty exactly
  when every character is white space. It also proves that `split` and `join` are
  inverses and that `parseInt` reads back a rendered number.
- `TimePicker` (`time_picker.dfy`): the arrow buttons with their wrap-around,
  `formatarHoraManual` (`H:MM AM|PM`), and the split/parseInt reading of a stored time
  that happens when a task is opened for editing. The main result is the round trip
  `ParseTime(Format(t)) == Some(t)` for every picker value.
- `TaskStore` (`task_store.dfy`): the edit (`Edited`, the `map`) and the delete
  (`Removed`, the `filter`) as pure functions, each with lemmas on length, order, ids
  and idempotence. The prepend is `[nova] + list`: `AdicionarTarefa`'s ensures state it
  exactly, and `PrependedUnique` shows it keeps ids unique.
- `Agenda` (`agenda.dfy`): the screen's state as a class, `AgendaScreen`. Its fields are
  the React state variables, and its methods are the event handlers. They update the
  fields one setter after another. The object invariant `Valid()` says three things: ids
  are unique, every task has a non-blank title and a canonical time, and the picker is in
  its domain. Every handler keeps this invariant. `BuyMilkSession` runs one full
  create / edit / delete session through the handlers.

Three behaviours of the code that are easy to miss:

- The blank-title check runs first, for both creating and editing (App.js:31). An edit
  with a blank title is therefore refused too.
- Submitting an edit whose task id is no longer in the list still leaves the list
  unchanged, ends edit mode and clears the form.
- Deleting an id shortens the list by the number of entries carrying that id, which is
  exactly one when ids are unique. The code does not guarantee unique ids (they come
  from `Date.now()`), so `RemovedOne` assumes them and `RemovedMember`/`RemovedConcat`
  hold without that assumption.

## Model

| member | source | states |
|---|---|---|
| JsText.Trim | App.js:31 | `s.trim()`; no ensures of its own: TrimEmptyIffBlank, TrimStartSuffix and TrimEndPrefix state what it keeps and drops |
| JsText.TrimEmptyIffBlank | App.js:31 | `titulo.trim()` is empty exactly when every character of the title is white space |
| JsText.TrimStartSuffix | App.js:31 | trimming the start keeps the suffix from the first non-space character; everything dropped is white space |
| JsText.TrimEndPrefix | App.js:31 | trimming the end keeps the prefix up to the last non-space character; everything dropped is white space |
| JsText.Split | App.js:83-84 | `s.split(sep)` for one character always gives at least one piece; JoinSplit, SplitJoin, SplitNoSeparator and SplitPrefix state the pieces |
| JsText.JoinSplit | App.js:83-84 | joining the pieces of `split(sep)` with `sep` gives back the original string |
| JsText.SplitJoin | App.js:83-84 | splitting a join of separator-free pieces gives back exactly those pieces |
| JsText.SplitNoSeparator | App.js:83-84 | a string without the separator splits into itself alone |
| JsText.SplitPrefix | App.js:83-84 | a separator-free prefix followed by the separator becomes the first piece, and the rest splits on its own |
| JsText.NatToString | App.js:109 | the decimal rendering of a non-negative integer (as JavaScript writes it below 1e21) is a non-empty string of digits with no leading zero, one digit exactly below ten |
| JsText.IntToString | App.js:108-109 | the `${…}` rendering of an integer, with a minus sign when negative; no ensures of its own: NatToString states the digits and ParseIntOfNatToString the read-back |
| JsText.DigitsValueOfNatToString | App.js:109 | reading the decimal digits of a rendered number gives the number |
| JsText.DigitPrefix | App.js:85-86 | the digits `parseInt` reads: the longest prefix made only of decimal digits |
| JsText.ParseInt | App.js:85-86 | `parseInt` in base 10, None standing for NaN; no ensures of its own: ParseIntOfDigits and ParseIntOfNatToString state it |
| JsText.ParseIntOfDigits | App.js:85-86 | `parseInt` of a non-empty string of digits is its decimal value |
| JsText.ParseIntOfNatToString | App.js:85-86 | `parseInt` of a rendered non-negative number gives the number |
| TimePicker.NextHour | App.js:222 | the hour's up arrow keeps the hour in 1..12 and moves one step forward around the 12-cycle (12 goes to 1) |
| TimePicker.PrevHour | App.js:226 | the hour's down arrow keeps the hour in 1..12 and moves one step back around the 12-cycle (1 goes to 12) |
| TimePicker.NextMinute | App.js:236 | `(m + 10) % 60` keeps the minute in {0,...,50} and adds ten around the 60-cycle (50 goes to 0) |
| TimePicker.NextMinuteCongruent | App.js:236 | for every integer minute, in range or not, the up arrow's result is m + 10 up to a multiple of 60 |
| TimePicker.PrevMinute | App.js:242 | the minute's down arrow keeps the minute in {0,...,50} and takes ten around the 60-cycle (0 goes to 50) |
| TimePicker.TogglePeriod | App.js:251 | the period button always changes the period (AM to PM, PM to AM) |
| TimePicker.StepsUndoEachOther | App.js:222-251 | on the picker's domain the up and down arrows undo each other for hour and minute, and the period button is an involution |
| TimePicker.JsRem | App.js:236 | JavaScript `%`: the remainder lies strictly between -b and b, agrees with the mathematical remainder for non-negative dividends, and for a negative dividend is the non-positive negation of the remainder of its magnitude |
| TimePicker.MinuteText | App.js:108 | the minute text of every picker minute is exactly two digits |
| TimePicker.MinuteTextValue | App.js:108 | those two digits read back as the minute ("00" is 0) |
| TimePicker.ParsePeriod | App.js:87 | a period read from text renders back to that same text |
| TimePicker.ParsePeriodText | App.js:87 | reading back the period text gives the period |
| TimePicker.Format | App.js:107-110 | the stored text `H:MM` followed by AM or PM; no ensures of its own: ParseFormat, FormatIsCanonical and FormatInjective state it |
| TimePicker.ParseTime | App.js:83-87 | the read-back of a stored time on opening a task; no ensures of its own: ParseFormat states it inverts Format |
| TimePicker.ParseClock | App.js:84-87 | the `H:MM` half of that read-back; no ensures of its own: ParseClockFormat states it |
| TimePicker.FormatAsJoin | App.js:109 | the stored text is the hour and minute joined by ':', then joined with the period by ' ' |
| TimePicker.SplitFormatOnSpace | App.js:83 | splitting the stored text on ' ' gives exactly the `H:MM` piece and the period piece |
| TimePicker.SplitClockOnColon | App.js:84 | splitting the `H:MM` piece on ':' gives exactly the hour digits and the minute digits |
| TimePicker.ParseClockFormat | App.js:84-87 | the hour, minute and period pieces read back as the picker's values |
| TimePicker.ParseFormat | App.js:83-87 | for every hour 1..12, minute in {0,...,50} and period, parsing the formatted time recovers the same triple |
| TimePicker.FormatIsCanonical | App.js:107-110 | every text the form stores reads back as a picker value that formats to the same text |
| TimePicker.FormatInjective | App.js:107-110 | different picker values are stored as different texts |
| TimePicker.NineThirtyText | App.js:107-110 | the picker at 9:30 AM stores "9:30 AM" |
| TaskStore.Revised | App.js:37 | the spread `{...item, titulo, descricao, hora}` keeps the task's id |
| TaskStore.Edited | App.js:35-39 | the edit keeps the list's length, order and ids; entries with the edited id take the new title, description and time; every other entry is unchanged |
| TaskStore.EditedAbsent | App.js:35-39 | editing an id that no entry carries leaves the list unchanged |
| TaskStore.EditedOne | App.js:35-39 | with unique ids, editing the task at position k replaces that one entry and nothing else |
| TaskStore.EditedIdempotent | App.js:35-39 | applying the same edit twice equals applying it once |
| TaskStore.EditedUnique | App.js:35-39 | an edit keeps ids unique |
| TaskStore.PrependedUnique | App.js:43-49 | prepending a task with a new id keeps ids unique |
| TaskStore.Removed | App.js:63 | the filter never makes the list longer |
| TaskStore.RemovedMember | App.js:63 | a task survives the delete exactly when it was in the list and does not carry the deleted id |
| TaskStore.RemovedConcat | App.js:63 | deleting from a concatenation deletes from each part in order, so the kept tasks keep their relative order |
| TaskStore.RemovedAbsent | App.js:63 | deleting an id that no entry carries leaves the list unchanged |
| TaskStore.RemovedIdempotent | App.js:63 | deleting twice equals deleting once |
| TaskStore.RemovedOne | App.js:62-64 | with unique ids, deleting the id of the task at position k removes exactly that task, so the list shrinks by one and the rest keep their order |
| TaskStore.RemovedUnique | App.js:62-64 | a delete keeps ids unique |
| Agenda.PrependedWellFormed | App.js:42-49 | prepending a task with a non-blank title and a canonical time keeps every task well formed |
| Agenda.EditedWellFormed | App.js:33-39 | an edit with a non-blank title and a canonical time keeps every task well formed |
| Agenda.RemovedWellFormed | App.js:62-64 | a delete keeps every remaining task well formed |
| Agenda.AgendaScreen.constructor | App.js:19-27 | the initial state: empty list, empty title and description, picker at 12:00 AM, nothing being edited |
| Agenda.AgendaScreen.FormatarHoraManual | App.js:107-110 | the picker's text reads back as the picker's current value |
| Agenda.AgendaScreen.AdicionarTarefa | App.js:30-59 | a blank title changes nothing at all. Otherwise, edit mode maps the edit over the list and ends edit mode, and create mode prepends a task with the fresh id and the formatted time. Either way the form is cleared and the invariant holds |
| Agenda.AgendaScreen.LimparFormulario | App.js:53-57 | empty title and description, picker back at 12:00 AM |
| Agenda.AgendaScreen.DeletarTarefa | App.js:62-64 | the list becomes the filtered list, and the invariant holds |
| Agenda.AgendaScreen.ApagarTodasTarefas | App.js:67-69 | the list is empty afterwards, whatever it held |
| Agenda.AgendaScreen.AbrirEdicao | App.js:77-90 | edit mode on the tapped task and the form filled from it. The picker holds the parsed stored time, so the form's time text equals the task's stored text |
| Agenda.AgendaScreen.NovaTarefa | App.js:172-180 | create mode, empty form, picker at 12:00 AM, list unchanged |
| Agenda.AgendaScreen.HoraMais | App.js:222 | the hour becomes NextHour of the old hour, and the invariant holds |
| Agenda.AgendaScreen.HoraMenos | App.js:226 | the hour becomes PrevHour of the old hour, and the invariant holds |
| Agenda.AgendaScreen.MinutoMais | App.js:236 | the minute becomes NextMinute of the old minute, and the invariant holds |
| Agenda.AgendaScreen.MinutoMenos | App.js:242 | the minute becomes PrevMinute of the old minute, and the invariant holds |
| Agenda.AgendaScreen.AlternarPeriodo | App.js:251 | the period toggles, and the invariant holds |
| Agenda.BuyMilkSession | App.js:30-64 | create "Buy milk" at 9:30 AM, rename it "Buy bread", delete it: the list is one task, then the same task with the new title and the same time, then empty |
| Agenda.CreateBuyMilk | App.js:30-59 | on a fresh screen, typing the title, stepping the hour down three times and the minute up three times, then submitting, stores one task at "9:30 AM" |
| Agenda.RenameToBuyBread | App.js:77-90 | opening that task, retyping its title and submitting keeps its id and time and changes only its title |

## Left out

- Loading and saving through AsyncStorage (App.js:113-133): asynchronous I/O in a foreign library, using `JSON.parse`/`JSON.stringify`. Every list in the model is the in-memory list. The persisted copy is not modelled.
- `Date.now().toString()` id generation (App.js:44) is a clock read. `AdicionarTarefa` takes the new id as a parameter and requires that it is not already in the list. The code itself does not guarantee this.
- Agenda.AgendaScreen.AdicionarTarefa: requires a fresh id in create mode. Without it, the unique-id part of the invariant could not be kept.
- Fonts, styles, JSX rendering, `FlatList`, and the two modal visibility flags (`modalVisible`, `modalConfirmVisible`) are presentation. The "delete all" confirmation dialog is reduced to the `apagarTodasTarefas` call it makes.
- The text inputs (`onChangeText={setTitulo}`, `setDescricao`) are plain assignments to the `titulo` and `descricao` fields.
- React state batching and functional updaters are modelled as sequential assignments.
- Numbers are JavaScript doubles; the model uses unbounded integers. `${n}` switches to exponent notation from 1e21 and `parseInt` is exact only up to 2^53; the picker's values (1..12 and 0..50) never come near either.
- `parseInt` is modelled for base 10 with leading white space and an optional sign. Its `0x` hexadecimal prefix is not modelled; stored times never contain it.
- `IsSpace` lists the ECMAScript white space and line terminators with the Unicode space separators of the current Unicode version. A different Unicode version of the engine could differ.
- The period is a two-value datatype, but the source keeps it as a string. On a malformed stored time, the source would put `NaN`, `undefined` (no space, so no period piece) or an arbitrary string into the picker. `ParseTime` returns None in that case instead. The invariant keeps every stored time canonical, so `AbrirEdicao` never meets such a time; tasks restored from storage, which could carry one, are not modelled.
- TaskStore.Removed: its own contract gives only the length bound. What it keeps and in which order is stated by `RemovedMember`, `RemovedConcat`, `RemovedAbsent` and `RemovedOne`.
