# habit100: the habit and entry engine

A Dafny model of the state logic of `habit100.py`, a terminal habit tracker.
The program keeps two JSON documents in memory:

- the habit list: records `{id, title, tags, type, active}`;
- the entries by day: a day key (`"YYYY-MM-DD"`) mapped to that day's
  ordered list of `{id, ts, val}` records.

The user acts on them through a handful of actions: toggle a check, save a
log text, add or edit a habit through the form, delete a habit with its
entries, and step the tag filter. Three views are derived from the state:
the set of ids done on a day, the table rows, and the day report.

The model is in six modules:

- `Text` (text.dfy): Python's `str.strip()` and `str.split(",")` as the
  forms use them, with their laws (strip is idempotent and empty exactly on
  whitespace; split never returns an empty list and joining undoes it).
- `Model` (model.dfy): the records, with `val` as the datatype
  `CheckTrue | Log(text) | Other`. The program tells a check from a log by
  the *type* of `val`, and ignores every other value. Also here: the
  missing-key defaults of `type` and `active`, `Store.next_id`, the lookup
  of a habit by id, and Python's stable `sorted(key=id)`.
- `Edits` (edits.dfy): every state change as a function of the old state,
  with its laws. These are the form's normalisation, the toggle on a day's
  list, the log append and the cascading delete. Two invariants are kept:
  every entry belongs to a known habit, and a habit has at most one true
  entry per day.
- `Views` (views.dfy): the done set, the table rows, the filter step over
  the theme list, and the day report. Report lines are structured values
  (`Header`, `CheckLine`, `LogLine`), not rendered markup.
- `Laws` (laws.dfy): how the actions show up in the views. A log adds one
  report line. A toggle flips a check habit's line. A delete hides the habit
  and changes nothing else.
- `App` (app.dfy): the application object as the class `HabitApp`, with
  fields `habits`, `days` and `filterTag`. The actions are methods that
  update those fields in place, under `modifies` frames. The read-only
  helpers (`today_done_ids`, the row loop of `refresh_table`, the grouping
  and line loops of `action_show_report`) are methods whose loops are proved
  to compute the `Views` functions. `Valid()` is the consistency above plus
  unique ids. Toggle, log and delete keep it. Add and edit keep it by
  `AddKeepsValid` and `EditKeepsValid`.

The selected habit id, the day key and the time stamp are parameters. The
program takes them from the table cursor, `current_date` and
`datetime.now()`.

Four behaviours of the code are easy to misread, and the model follows the
code in each:

- **Filter step.** The filter wraps from the last theme round to the first,
  and sends a tag that is not a theme to none (habit100.py:194-195).
- **Empty titles.** Add and edit store whatever `strip()` leaves of the
  title, including `""` (habit100.py:258, 263, 266).
- **Type values.** Any non-blank type string is kept after `strip()`; only
  blank input becomes `"check"` (habit100.py:260). Only the exact string
  `"check"` takes the check path (habit100.py:152, 213), so every other
  string takes the log path.
- **Done mark.** An id is done on a day when that day holds any entry of it
  whose `val` is true or a string, whatever the habit's type
  (habit100.py:109).

## Model

| member | source | states |
|---|---|---|
| Text.Strip | habit100.py:258-260 | defines `str.strip()`: the text between the leading and the trailing run of whitespace, used on the title, each tag piece and the type, and on the log text (line 292) |
| Text.StripShape | habit100.py:258 | `strip()` cuts its input into leading whitespace, the result and trailing whitespace, and the result neither starts nor ends with whitespace |
| Text.StripEmptyIff | habit100.py:292-293 | the stripped text is empty exactly when the input is all whitespace, which is the case the log save's `if txt` skips |
| Text.StripIdempotent | habit100.py:258 | stripping twice gives the same as stripping once |
| Text.StripIsStripped | habit100.py:259 | a stripped piece has no surrounding whitespace and holds only characters of the input, so no comma appears that was not there |
| Text.StripStripped | habit100.py:258 | a text without surrounding whitespace is left as it is |
| Text.Join | habit100.py:240 | defines `",".join(...)` as the edit form fills its tags field: the parts with the separator between each two of them |
| Text.Split | habit100.py:259 | `split(",")` returns at least one piece, no piece holds the separator, and joining the pieces with it gives the text back |
| Text.SplitCount | habit100.py:259 | the number of pieces is one more than the number of separators |
| Model.Themes | habit100.py:41-43 | the seven theme names the filter steps through, in the code's order |
| Model.KindOf | habit100.py:152 | defines `h.get("type", "check")`: the stored type, or `"check"` when the key is missing, as the toggle, the table (line 125) and the report (line 213) read it |
| Model.IsCheckHabit | habit100.py:152 | defines `h.get("type","check") == "check"`, the test the toggle and the report (line 213) branch on: only the exact string `"check"` selects the check path |
| Model.IsActive | habit100.py:120 | defines `h.get("active", True)`: a habit is hidden only when it stores `active` as false, in the table and in the report (line 210) |
| Model.DayList | habit100.py:106 | defines `days.get(dkey, [])`: the day's list, or the empty list for a day not in the map, as the done set and the report (line 204) read it |
| Model.MaxId | habit100.py:71-72 | `max(ids)` is at least every id of the list and is the id of one of its habits |
| Model.NextId | habit100.py:70-72 | `next_id` is 1 for an empty list, otherwise one more than an id in use, and above every id in use |
| Model.NextIdIsFresh | habit100.py:70-72 | no habit of the list has the id `next_id` returns |
| Model.NextIdExample | habit100.py:70-72 | with ids 1 and 3 in use the next id is 4 |
| Model.AppendNextIdKeepsUnique | habit100.py:265-266 | appending a habit with the next id keeps the ids unique |
| Model.HabitIndex | habit100.py:148 | the `next(...)` lookup finds the first habit with the id, and finds none exactly when no habit has it |
| Model.SortById | habit100.py:119 | `sorted(key=id)` is a permutation of the list, in ascending id order |
| Model.SortByIdMembers | habit100.py:119 | the sorted list has the same habits and the same length |
| Model.SortByIdStable | habit100.py:119 | the sort is stable: for every id, the habits carrying it keep their list order |
| Edits.NonEmptyStripped | habit100.py:259 | defines the comprehension over the pieces; every tag it keeps is non-empty and stripped, and it adds no comma |
| Edits.NonEmptyStrippedClean | habit100.py:259 | pieces that are already non-empty and stripped all pass through unchanged |
| Edits.NonEmptyStrippedAppend | habit100.py:259 | the comprehension runs over the pieces in order: the tags of two runs of pieces are the tags of the first followed by those of the second |
| Edits.NonEmptyStrippedPiece | habit100.py:259 | one piece gives its stripped text as a tag, or no tag when stripping leaves nothing |
| Edits.NonEmptyStrippedKeeps | habit100.py:259 | no piece with text left after stripping is dropped: its stripped text is among the tags |
| Edits.NonEmptyStrippedFrom | habit100.py:259 | every tag is non-empty and is the stripped text of one of the pieces |
| Edits.ParseTags | habit100.py:259 | defines the tags field from the form text; every parsed tag is non-empty, has no surrounding whitespace and holds no comma |
| Edits.ParseTagsMembers | habit100.py:259 | a text is a parsed tag exactly when it is non-empty and is the stripped text of one of the comma-separated pieces |
| Edits.ParseTagsAppend | habit100.py:259 | the tags of `a + "," + b` are the tags of `a` followed by the tags of `b`, in order |
| Edits.ParseTagsPiece | habit100.py:259 | text without a comma gives one tag, its stripped self, or none when that is empty |
| Edits.SplitAppend | habit100.py:259 | `split(",")` of `a + "," + b` is the pieces of `a` followed by the pieces of `b` |
| Edits.NormalizeType | habit100.py:260 | the type is the stripped input, or `"check"` when that is empty; it is never empty, and the fallback is taken exactly for blank input |
| Edits.NewHabit | habit100.py:258-266 | defines the record the add form appends: the given id, the stripped title (possibly empty), the parsed tags, the normalised type and `active` true |
| Edits.EditedHabit | habit100.py:258-263 | defines `habit.update(...)`: title, tags and type replaced by the form's normalised values, id and `active` kept |
| Edits.SplitJoin | habit100.py:259 | splitting on "," undoes joining with "," when no part holds a comma |
| Edits.TagsRoundTrip | habit100.py:259 | saving the form's `",".join(tags)` text gives the same tags back when they are clean |
| Edits.EditUntouchedKeepsHabit | habit100.py:256-263 | saving the edit form without touching it leaves a clean habit as it was, except that a missing type becomes explicit |
| Edits.ToggleDay | habit100.py:154-159 | defines the toggle on a day's list: the first true entry of the habit removed, or a true entry with the time stamp appended when there is none |
| Edits.IsCheckOf | habit100.py:155 | defines the generator test `r["id"] == hid and r.get("val") is True` on one entry |
| Edits.FirstCheck | habit100.py:155 | the `next(...)` over the day's list finds the first entry of hid whose `val` is true, and finds none exactly when there is none |
| Edits.ToggleDayShape | habit100.py:155-159 | the toggle either appends `{hid, ts, true}` to a list with no true entry of hid, or removes exactly the first true entry of hid |
| Edits.ToggleDayCount | habit100.py:155-159 | the toggle removes one true entry of hid when there is one, and otherwise leaves exactly one |
| Edits.ToggleTwiceRestores | habit100.py:155-159 | starting with no true entry of hid, two toggles restore the day's list exactly |
| Edits.ToggleDayOthers | habit100.py:155-159 | the toggle leaves the entries of every other habit on that day as they were |
| Edits.ToggleDayOtherChecks | habit100.py:155-159 | the toggle leaves every other habit's number of true entries as it was |
| Edits.ToggleAt | habit100.py:151-159 | the toggle adds the day key if missing and leaves every other day's list as it was |
| Edits.AppendLog | habit100.py:292-299 | defines the log save on the day map: unchanged for a blank text, otherwise the entry with the stripped text appended to the day's list (created when missing) |
| Edits.AppendLogExtends | habit100.py:292-299 | a non-blank log adds the day if missing, and adds exactly one entry `{hid, ts, stripped text}` at the end of its list; the old list stays a prefix and the other days are unchanged |
| Edits.AppendLogBlank | habit100.py:292-293 | a blank log changes nothing |
| Edits.AppendLogKeepsChecks | habit100.py:295-299 | a log changes no habit's number of true entries |
| Edits.AppendLogOthers | habit100.py:295-299 | a log leaves the entries of every other habit on that day as they were |
| Edits.WithoutHabit | habit100.py:182 | after delete, the habit list holds exactly the habits whose id is not hid, and none has that id |
| Edits.WithoutHabitSubseq | habit100.py:182 | the remaining habits keep their relative order |
| Edits.PurgeDays | habit100.py:184-185 | the cascade keeps the set of day keys |
| Edits.EntriesNotOf | habit100.py:185 | defines the comprehension `[r for r in arr if r["id"] != hid]`: the entries of other habits, in their order |
| Edits.EntriesNotOfSpec | habit100.py:185 | a purged list has no entry of hid and keeps every other habit's entries |
| Edits.PurgeDaysSpec | habit100.py:184-185 | after the cascade the day keys are the same, no entry references hid, every list keeps the order of the rest, and other habits' entries are unchanged |
| Edits.DeleteKeepsEntriesKnown | habit100.py:182-185 | if every entry belonged to a known habit before delete, it still does after |
| Edits.NewHabitHasNoEntries | habit100.py:265-266 | when every entry belongs to a known habit, no entry has the id a new habit gets |
| Edits.AddKeepsEntriesKnown | habit100.py:266 | appending a habit keeps every entry tied to a known habit |
| Edits.ToggleKeepsInvariants | habit100.py:151-159 | a toggle for a known habit keeps every entry tied to a known habit and at most one true entry per habit and day |
| Views.CountsAsDone | habit100.py:109 | defines the done test on one entry: its `val` is literal true or a string |
| Views.DoneIds | habit100.py:105-111 | defines `today_done_ids` on a day's list: the ids of the entries that count as done |
| Views.DoneIdsIff | habit100.py:105-111 | an id is done on a day exactly when some entry of it that day has `val` true or a string |
| Views.IndexIn | habit100.py:194 | defines `THEMES.index(tag) if tag in THEMES else -1`: the first position, or none for a tag not in the list |
| Views.IndexInSpec | habit100.py:194 | `THEMES.index(tag) if tag in THEMES else -1` finds the first position of the tag, and finds none exactly when the tag is not a theme |
| Views.ThemesDistinct | habit100.py:41-43 | the seven themes are pairwise different |
| Views.NextTag | habit100.py:191-195 | defines the filter step over a non-empty theme list: none to the first theme, a theme to the next with the last wrapping to the first, an unknown tag to none |
| Views.NextFilter | habit100.py:189-195 | defines `action_toggle_filter`'s step over the program's theme list |
| Views.NextTagCases | habit100.py:191-195 | over any list of distinct themes: none goes to the first theme, the i-th theme to the (i+1) mod n-th, and a tag outside the list to none |
| Views.NextFilterCases | habit100.py:191-195 | the same three cases for the program's seven themes |
| Views.NextTagSucc | habit100.py:195 | a theme steps to the next one, and the last theme to the first |
| Views.StepsForward | habit100.py:195 | n steps from the i-th theme reach the (i+n)-th while that is in the list |
| Views.StepsWrap | habit100.py:195 | from the i-th theme, n - i + j steps reach the j-th theme, going round through the first |
| Views.ThemeCycle | habit100.py:195 | n steps from any theme return to it |
| Views.FilterCycle | habit100.py:189-195 | seven presses of the filter key from any theme return to it |
| Views.FilterApplies | habit100.py:122 | defines the truth test `if self.filter_tag`: a filter is set and is not the empty string |
| Views.Shown | habit100.py:120-123 | defines the two `continue` tests: a habit gets a row when it is active and, with a non-empty filter set, carries the filter tag |
| Views.RowOf | habit100.py:124-125 | defines the row of one habit: the done mark from the done set, its id, its type with the `"check"` default, its title and its tags |
| Views.RowsOf | habit100.py:119-125 | defines the row loop over an already sorted list: one row per shown habit, in list order, marked by the done set |
| Views.VisibleRows | habit100.py:118-125 | defines the table: the row loop over the habits sorted by id, with the day's done set |
| Views.RowsOfMembers | habit100.py:119-125 | the row loop gives a row for exactly the habits that are shown |
| Views.RowsOfAscending | habit100.py:119-125 | over a sorted list, the rows come in ascending id order |
| Views.VisibleRowsExactly | habit100.py:119-125 | the table holds a row for exactly the active habits (active true or missing) that, when a non-empty filter tag is set, carry it |
| Views.VisibleRowsAscending | habit100.py:119 | the table rows are in ascending id order |
| Views.VisibleRowDone | habit100.py:124 | a row is marked done exactly when some entry of its id that day has `val` true or a string |
| Views.VisibleRowsOnce | habit100.py:119-125 | with unique ids, each habit has one row when shown and none otherwise |
| Views.GroupById | habit100.py:205-207 | `by_id` maps every id to its entries of the day, in list order |
| Views.Report | habit100.py:208 | the report's first line is the header for the day |
| Views.HabitLines | habit100.py:210-219 | defines one habit's lines: none when inactive, the check line when a check habit has a true entry, otherwise its log lines |
| Views.ReportBody | habit100.py:209-219 | defines the loop over the sorted habits: each habit's lines, in the habits' order |
| Views.BodyLinesKnown | habit100.py:209-219 | every body line comes from an active habit of the list: a check line from a check habit with a true entry, a log line from a habit of another type with that entry |
| Views.ReportPerHabit | habit100.py:209-219 | with unique ids, a habit's report lines are the lines of that habit over its own entries of the day |
| Views.Lookup | habit100.py:212 | defines `by_id.get(h["id"], [])`: the grouped entries of the id, or none |
| Views.AnyCheck | habit100.py:214 | defines `any(r.get("val") is True for r in logs)` |
| Views.AnyCheckIff | habit100.py:214 | the `any(...)` over a habit's grouped entries holds exactly when the day holds a true entry of it |
| Views.ReportCheckHabit | habit100.py:213-215 | an active check habit has exactly one line when the day holds a true entry of it and none otherwise; an inactive habit has no lines |
| Views.LogLines | habit100.py:217-219 | defines the log branch: one line per string-valued entry, in stored order |
| Views.LogLinesIff | habit100.py:217-219 | a log line with text and time stamp is there exactly when an entry with that string value and time stamp is |
| Views.ReportLogHabit | habit100.py:216-219 | an active habit of another type has one line per string-valued entry of the day, in stored order |
| Views.ReportBodyOwners | habit100.py:209-219 | every body line belongs to one of the habits |
| Views.ReportBodyAscending | habit100.py:209 | over a sorted list, the body lines come in ascending habit id order |
| Views.ReportAscending | habit100.py:208-219 | after the header, there are no more headers and the lines come in ascending habit id order |
| Views.ReportIgnoresUnknown | habit100.py:212 | entries of ids that belong to no habit do not change the report |
| Views.ReportLinesOfId | habit100.py:209-219 | the lines of id k are the lines of the habits carrying k, grouped as in the report |
| Views.LinesOfIdDepends | habit100.py:212 | the lines of id k depend only on the entries of k that day |
| Laws.ReportLinesKnown | habit100.py:208-219 | every report line after the first comes from an active habit of the list and an entry of that day |
| Laws.SaveLogAddsLine | habit100.py:292-299 | saving a non-blank log for an active habit of another type adds exactly one line for it, at the end of its lines, with the stripped text and the time stamp |
| Laws.SaveLogKeepsOthers | habit100.py:295-299 | saving a log leaves every other id's report lines as they were |
| Laws.HasCheckIff | habit100.py:155 | a habit has a true entry on the list exactly when its count of true entries is positive |
| Laws.ToggleFlipsReportLine | habit100.py:155-159 | with at most one true entry of the habit that day, a toggle adds the check line when it was missing and removes it when it was there |
| Laws.ToggleKeepsOthers | habit100.py:155-159 | a toggle leaves every other id's report lines as they were |
| Laws.ToggleTwiceRestoresDays | habit100.py:151-159 | starting with no true entry of hid, two toggles leave the day map as it was, except that the day exists now |
| Laws.WithIdKWithout | habit100.py:182 | deleting hid keeps the habits of every other id, in order |
| Laws.DoneIdsPurged | habit100.py:185 | a purged day's done set is the old one without hid |
| Laws.PurgedDayList | habit100.py:184-185 | the purged day's list is the old list without the entries of hid |
| Laws.DeleteHidesHabit | habit100.py:182-185 | after delete, no table row and no report line has the deleted id |
| Laws.DeleteKeepsOthers | habit100.py:182-185 | after delete, every other id keeps its table rows and its report lines |
| App.WithoutHabitUnique | habit100.py:182 | deleting keeps the ids unique |
| App.DeleteKeepsValid | habit100.py:182-185 | delete keeps the ids unique, every entry tied to a known habit, and at most one true entry per habit and day |
| App.SaveLogKeepsValid | habit100.py:292-299 | a log for a known habit keeps that consistency |
| App.ToggleKeepsValid | habit100.py:151-159 | a toggle for a known habit keeps that consistency |
| App.OpenDayKeepsValid | habit100.py:151 | creating the empty day list keeps that consistency |
| App.AddKeepsValid | habit100.py:265-266 | adding a habit with the next id keeps that consistency |
| App.EditKeepsValid | habit100.py:262-263 | replacing a habit's fields but not its id keeps that consistency |
| App.LocateCheck | habit100.py:155 | the loop finds the first true entry of hid, as `FirstCheck` specifies |
| App.ToggleList | habit100.py:154-159 | `arr.remove(ex)` or `arr.append(...)` gives the toggled list |
| App.GroupEntries | habit100.py:205-207 | the `by_id` loop maps every id to its entries of the day, in list order |
| App.ReportLoop | habit100.py:208-219 | the line loop gives the header followed by each sorted habit's lines |
| App.StepFilter | habit100.py:191-195 | the filter step's body computes the step `NextTag` over the theme list |
| App.HabitApp.constructor | habit100.py:94-99 | the loaded documents become the state, with no filter |
| App.HabitApp.Fresh | habit100.py:54-60 | on a first run the state is the empty habit list and the empty day map, which is consistent |
| App.HabitApp.FindHabit | habit100.py:148 | the loop finds the first habit with the id, as `HabitIndex` specifies |
| App.HabitApp.TodayDoneIds | habit100.py:105-111 | the loop computes the done set of the day |
| App.HabitApp.TableRows | habit100.py:118-125 | the loop computes the table rows for the day and the current filter |
| App.HabitApp.ShowReport | habit100.py:201-219 | the two loops compute the day report |
| App.HabitApp.ToggleCheck | habit100.py:143-165 | with no such habit nothing changes; a check habit's day list is toggled; any other type creates the day list if missing and asks for a log; consistency is kept |
| App.HabitApp.AddHabit | habit100.py:258-266 | exactly one habit is appended, with the next id, active true and the normalised fields |
| App.HabitApp.EditHabit | habit100.py:258-263 | only the first habit with the id gets new title, tags and type; its id, active flag, the other habits and all entries stay |
| App.HabitApp.SaveLog | habit100.py:290-302 | the day's list gets the stripped non-blank text appended, and a blank text changes nothing; consistency is kept for a known habit |
| App.HabitApp.DeleteHabit | habit100.py:178-187 | the habit list loses hid and every day's list loses its entries, one day at a time; consistency is kept |
| App.HabitApp.ToggleFilter | habit100.py:189-196 | the filter tag takes its next value in the theme cycle |

## Left out

- The Textual user interface is not modelled: layout, key bindings, the table and status widgets, the screens' `compose`, `push_screen` and `exit`, and the help text. The selected habit id is a parameter instead of a cursor lookup.
- Reading and writing the JSON files (`Store.__init__`, `load`, `save`) are not modelled, because they are disk access through library code. A first run starts from the empty documents (`HabitApp.Fresh`). The "days" key is taken to be present, as `Store` writes it.
- The clock and calendar arithmetic (`date.today()`, `datetime.now()`, `strftime`, `day_key`, the date screen) are not modelled. Day keys and time stamps are opaque strings given as parameters.
- The markup of report and status lines is not modelled. Report lines are structured values, and the status line's counts are not.
- `action_save` and `action_help` are not modelled: one only writes the files, the other only shows text.
- `arr.remove(ex)` removes the first element *equal* to `ex`, where `ex` is the first entry of hid whose `val` is true. An earlier entry compares equal to it without passing `is True` when it has exactly the same keys, the same `id` and `ts`, and a `val` equal to `True` but not identical to it (`1`, `1.0`, Python's `1 == True`). The model removes at `ex`'s index, and leaves that case out.
- Malformed documents are not modelled. `kind: Option<string>`, `active: Option<bool>` and `tags: seq<string>` cannot hold a JSON `null` or a value of another type. In the code a `null` `active` hides the habit (habit100.py:120), a `null` `type` takes the log path (habit100.py:152, 213), and a `null` `tags` counts as no tags (habit100.py:122).
- `val` values that are neither literal true nor a string are all `Other`, because the code ignores them alike.
- App.HabitApp.AddHabit: its contract does not itself state that consistency is kept. `AddKeepsValid` proves it for the new list.
- App.HabitApp.EditHabit: its contract does not itself state that consistency is kept. `EditKeepsValid` proves it for the new list.
- App.HabitApp.SaveLog: keeps consistency only when the habit exists, as the log screen is opened only for one.
