# Attendance-assignment engine of `app.py`, modelled in Dafny

`app.py` is a Dash dashboard. It shows which guards badged into which exam
rooms around a scheduled slot. Its engine works on three snapshots:

- the day's schedule (`raspored`: `termin`, `ucionica`);
- the badge log (`acc_monitor_log`: `time`, `uid_kartice`, `ucionica`);
- the card directory (`cuvari_kartice`: `cuvar`, `uid_kartice`).

From them it builds an ordered attendance table. This project models that
engine as Dafny functions over sequences of records, and one method for the
loop-built colour banding. It proves what the engine promises about each
step.

The modules follow the pipeline:

- `Collections` (`collections.dfy`): filtering and `drop_duplicates(keep="first")`. The model of duplicate dropping keeps exactly one row per key, the first one, in the order the keys are first seen.
- `Ordering` (`ordering.dfy`): Python's string order, the lexicographic order on sort-column tuples, and a stable sort by such a tuple. pandas sorts on several columns with a stable lexsort.
- `Rooms` (`rooms.dfy`): `_norm_room` key normalisation and `sort_rooms_natural`.
- `Schedule` (`schedule.dfy`): these functions:
  - `build_windows_for_time`, which builds the entry windows `[termin − 60 min, termin + 30 min)`;
  - `rooms_for_time`;
  - the slot-dropdown choice of `update_termini`.
- `Matching` (`matching.dfy`): `assign_logs_to_terms`. Its steps are:
  - a left join with the card directory;
  - an inner join with the windows on the room;
  - the window test;
  - keeping the nearest slot per `(time, room, card)`;
  - the final order by room and time.
- `Table` (`table.dfy`): the merge of `refresh_table`, which keeps every room scheduled at the chosen HH:MM and fills empty cells with "—". It also has `make_group_stripes`, a method with loops that is proved against the function `Stripes(FirstSeenRooms(rows))`.

How values are modelled:

- Timestamps are integers: seconds from the local midnight of the day.
- An HH:MM value is the minute of the day, `(t / 60) % 1440`.
  - Comparing two zero-padded `"%H:%M"` strings gives the same result as comparing these numbers.
- A data frame is a `seq` of records.
- Where pandas would hold a missing value, the model has an `Option`.

The docstring of `build_windows_for_time` (app.py:232) gives the window as
±2 h, while the code uses the constants at app.py:51-52: 60 minutes before
and 30 minutes after the slot. The model follows the code.

Rows of one room at the chosen HH:MM that differ in seconds each keep their
own window: app.py:248 drops only rows that repeat both room and slot.

## Model

| member | source | states |
|---|---|---|
| Collections.DropDuplicates | app.py:217-219 | `drop_duplicates(keep="first")` on a key column tuple; its properties are stated by the `DropDuplicates…` lemmas below |
| Collections.DropDuplicatesSpec | app.py:217-219 | `drop_duplicates(keep="first")`: per key of the input exactly one row survives, it is the first input row with that key, no key is lost or repeated, and survivors keep the order of first appearance |
| Collections.DropDuplicatesSubset | app.py:217-219 | `drop_duplicates` returns no more rows than it was given, and only rows of its input |
| Collections.DropDuplicatesKeepsKeys | app.py:217-219 | `drop_duplicates` keeps every key of the input and introduces none |
| Collections.DropDuplicatesDistinct | app.py:217-219 | after `drop_duplicates` no two rows share a key |
| Collections.DropDuplicatesFirst | app.py:217-219 | each kept row is the first row of the input with its key |
| Collections.DropDuplicatesOrder | app.py:217-219 | the kept rows keep the order of their first occurrences in the input |
| Collections.Filter | app.py:212-213 | a boolean-mask selection `j[m]`, keeping input order; its properties are stated by `FilterSpec` and `FilterAppend` |
| Collections.FilterSpec | app.py:212-213 | a boolean-mask selection: only rows satisfying the mask survive, every such row survives, and no row is invented |
| Collections.FilterAppend | app.py:212-213 | a boolean mask over two concatenated tables selects the rows of each part, in order |
| Ordering.SortByKey | app.py:226 | `sort_values` over several columns: the result is a permutation of the input and is ascending in the lexicographic order of the sort columns |
| Ordering.KeyLtTotal | app.py:226 | the column-tuple order is total, so any two rows are comparable |
| Ordering.KeyLtTransitive | app.py:226 | the column-tuple order is transitive |
| Rooms.Strip | app.py:117 | `str.strip()`: neither end of the result is whitespace, and with `StripSplits` the input is the result with whitespace added on both ends |
| Rooms.Upper | app.py:118 | `str.upper()` character by character, with `UpperChar` per character |
| Rooms.RemoveSpaces | app.py:119 | `str.replace(r"\s+", "", regex=True)`: every whitespace character deleted |
| Rooms.NormRoom | app.py:114-119 | a normalised room key holds no whitespace and no lower-case letter |
| Rooms.NormRoomIdempotent | app.py:114-119 | normalising a key twice equals normalising it once |
| Rooms.NormRoomIgnoresCaseAndSpaces | app.py:114-119 | strip-then-upper-then-delete-whitespace equals upper-casing after deleting all whitespace, so two labels get one key exactly when they agree up to case and whitespace |
| Rooms.NormRoomExample | app.py:115 | the label " d10 " gets the key "D10" |
| Rooms.UpperChar | app.py:118 | upper-casing yields no lower-case letter, keeps whitespace as whitespace and leaves other characters unchanged |
| Rooms.Prefix | app.py:262 | the sort prefix is the longest leading run of the letters `[A-Za-zČĆŽŠĐ]`, and "" when the label starts otherwise |
| Rooms.LeadingDigits | app.py:263 | a digit run is maximal: all digits, followed by a non-digit or the end |
| Rooms.FirstNumber | app.py:263-264 | the `__num` column: the first digit run as a number, 0 without digits; stated by `FirstNumberSpec` |
| Rooms.FirstNumberSpec | app.py:263-264 | the number column is 0 for a label without digits and otherwise the value of the maximal digit run starting at the label's first digit |
| Rooms.NaturalKeyLe | app.py:266-275 | two rows compare by prefix in string order, then by number, then by the extra columns and finally by the raw label |
| Rooms.SortRoomsNatural | app.py:257-276 | the result is a permutation of the input in ascending natural order, and an empty input is returned unchanged |
| Rooms.C2BeforeC10 | app.py:254 | "C2" precedes "C10" in the natural order although "C10" < "C2" as plain strings |
| Rooms.SortC10C2 | app.py:254 | sorting the labels ["C10", "C2"] naturally gives ["C2", "C10"] |
| Schedule.HhMm | app.py:240 | the HH:MM of a timestamp is a minute of the day, 0 to 1439 |
| Schedule.BuildWindowsForTime | app.py:230-249 | `build_windows_for_time`; its contract is stated by `BuildWindowsForTimeSpec`, `BuildWindowsSound` and `BuildWindowsComplete` |
| Schedule.BuildWindowsForTimeSpec | app.py:235-249 | an empty schedule gives no window; the windows are exactly those of the schedule rows at `hhmm`; each opens 60 min before and closes 30 min after its `termin`, so it opens before it closes; no two windows share `(ucionica, termin)` |
| Schedule.BuildWindowsSound | app.py:240-245 | every window belongs to a schedule row whose HH:MM is the argument |
| Schedule.BuildWindowsComplete | app.py:240-248 | every schedule row at the argument's HH:MM has its window among the result |
| Schedule.RoomsForTime | app.py:93-111 | `rooms_for_time`; its contract is stated by `RoomsForTimeSpec`, `RoomsForTimeSound`, `RoomsForTimeFirst` and `RoomsForTimeComplete` |
| Schedule.RoomsForTimeSpec | app.py:98-111 | an empty schedule gives no rows; no `room_key` appears twice; the rows are in natural room order |
| Schedule.RoomsForTimeSound | app.py:101-106 | each row carries `hhmm` and the room and key of a schedule row at `hhmm` |
| Schedule.RoomsForTimeFirst | app.py:103-106 | `drop_duplicates(subset=["room_key"])` keeps the first row: each row shows the `ucionica` of the first schedule row at `hhmm` with its `room_key` |
| Schedule.RoomsForTimeComplete | app.py:103-105 | every room key scheduled at `hhmm` has a row |
| Schedule.SlotChoices | app.py:445-450 | the options and value of `update_termini` for a picked date; stated by `SlotChoicesSpec` and `SlotOptionsAreDayMinutes` |
| Schedule.SlotChoicesSpec | app.py:445-450 | the options are strictly ascending and are exactly the day's HH:MM values; there is a selection exactly when the schedule is non-empty; it is 18:30 when offered and otherwise the earliest option |
| Schedule.SlotOptionsAreDayMinutes | app.py:448 | an HH:MM is offered exactly when some schedule row has it |
| Matching.LeftJoinCards | app.py:207 | the left merge with the card directory; stated by `EventsOfSpec`, `LeftJoinCardsSpec` and `EventForEveryLog` |
| Matching.JoinWindows | app.py:210 | the inner merge with the windows on the room; stated by `JoinWindowsSpec` |
| Matching.Candidates | app.py:212-213 | the joined rows inside their window; stated by `CandidatesSpec` |
| Matching.Nearest | app.py:216-219 | sort by time, room and distance, then keep the first row per `(time, room, card)`; stated by `AssignUnique` and `AssignNearest` |
| Matching.AssignLogsToTerms | app.py:195-226 | `assign_logs_to_terms`; its contract is stated by the `Assign…` lemmas and `CandidateReachesResult` |
| Matching.EventsOfSpec | app.py:207 | the left join of one log row yields exactly the rows that carry the log row's time, card and room and a guard name the directory gives that card, or no name when the card is unknown |
| Matching.LeftJoinCardsSpec | app.py:207 | the joined rows are exactly the log rows extended by a guard name the directory allows for their card |
| Matching.EventForEveryLog | app.py:207 | the left join drops no log row |
| Matching.JoinWindowsSpec | app.py:210 | the inner join on the room holds exactly the event–window pairs whose rooms are equal |
| Matching.CandidatesSpec | app.py:210-213 | the candidates are exactly the joined pairs whose log time satisfies `window_start ≤ time < window_end` |
| Matching.AssignEmpty | app.py:200-201 | an empty log or an empty window table gives an empty result, and otherwise the result is empty only when no candidate exists |
| Matching.AssignSound | app.py:207-224 | every result row is a log row of its room whose time lies in a window of that room, its `termin` is that window's slot, and its guard is one the directory gives the card, or none if the card is unknown |
| Matching.AssignComplete | app.py:207-219 | every log row whose time lies in a window of its room yields a result row with its time, room and card |
| Matching.CandidateReachesResult | app.py:212-226 | every candidate pair has a result row with its time, room and card |
| Matching.AssignUnknownCard | app.py:207 | a card missing from the directory still yields its row, with no guard name |
| Matching.AssignUnique | app.py:217-219 | no two result rows share `(time, room, card)` |
| Matching.AssignNearest | app.py:216-219 | a result row's slot is at least as close to its time as the slot of any other window of its room that contains that time |
| Matching.NearestAgainst | app.py:216-219 | the nearest-slot property for one result row against one other window |
| Matching.AssignSorted | app.py:226 | the result is ordered by room in string order, and by time within a room |
| Table.ScheduledRooms | app.py:486-490 | the rooms scheduled at the chosen HH:MM, once each; stated by `ScheduledRoomsSpec` |
| Table.ScheduledRoomsSpec | app.py:486-490 | a room is listed exactly when a schedule row at the chosen HH:MM names it, and it is listed once |
| Table.LeftMerge | app.py:504-516 | the left merge of the scheduled rooms with the assignments, "—" for a room without any; stated by `RoomRowsSpec`, `LeftMergeSpec` and `LeftMergeDistinct` |
| Table.MergeRooms | app.py:500-516 | both branches of the merge in `refresh_table`; stated by `MergeRoomsIsLeftMerge` and `MergeCoversRooms` |
| Table.RoomRowsSpec | app.py:500-516 | the merged rows of one room are its assignments if it has any; a room without assignments gets exactly one row, its placeholder row |
| Table.LeftMergeSpec | app.py:504-516 | the merged rows are exactly the rows of the listed rooms that are one of the room's assignments or, for a room without any, its placeholder row |
| Table.RoomRowsDistinct | app.py:504-507 | a room's merged rows repeat no row, so each of its assignments appears once |
| Table.LeftMergeDistinct | app.py:504-516 | for distinct rooms and assignments distinct by time, room and card, the merge repeats no row: one row per assignment of a listed room, one placeholder row per listed room without any |
| Table.MergeRoomsIsLeftMerge | app.py:501-512 | the shortcut branch for an empty assignment table gives the same rows as the left merge |
| Table.MergeCoversRooms | app.py:504-512 | every listed room gets at least one merged row |
| Table.TableFor | app.py:486-522 | the rows `refresh_table` shows for a picked slot; stated by `TableSpec` and the `Table…` lemmas below |
| Table.TableSpec | app.py:486-522 | the table rows are exactly the merged rows of the scheduled rooms, sorted by the key of app.py:269-273: letter prefix, number, time and then the room label, so rooms with equal prefix and number interleave by time; an empty schedule gives an empty table |
| Table.TableRowsDistinct | app.py:486-522 | no table row occurs twice, so with `TableSpec` the table holds each assignment of a scheduled room once and one placeholder row per scheduled room without assignments |
| Table.TableCoversSchedule | app.py:486-522 | every room scheduled at the chosen HH:MM appears in the table at least once |
| Table.TableOnlyScheduled | app.py:486-522 | only rooms scheduled at the chosen HH:MM appear |
| Table.TableDashRows | app.py:504-516 | a row has no time exactly when its room has no assignment, and then its card and guard cells hold "—" |
| Table.TableKeepsAssignments | app.py:493-507 | every assignment reaches the table, because its window was built from a schedule row of its room |
| Table.EscapeRoundTrip | app.py:298 | the quote escaping of a room name can be undone, so it loses nothing |
| Table.FilterQueryInjective | app.py:298-300 | different rooms get different `filter_query` strings |
| Table.FirstSeenStep | app.py:288-291 | one more row appends its room to `rooms_order` exactly when the room is non-empty and not yet listed |
| Table.FirstSeenPrefix | app.py:286-291 | the rooms seen in any leading part of the rows are a prefix of `rooms_order` |
| Table.FirstSeenMembers | app.py:286-291 | `rooms_order` holds exactly the non-empty rooms of the rows |
| Table.FirstSeenDistinct | app.py:286-291 | `rooms_order` lists no room twice |
| Table.FirstSeenOrder | app.py:286-291 | a room seen within the first `n` rows comes before every room not yet seen in them |
| Table.StripesCoverRooms | app.py:283-302 | no rows give no styles; every non-empty room of the rows has a style selecting it, and every style selects a room of the rows |
| Table.StripesDistinct | app.py:293-302 | each style selects a different room, and two rooms next to each other in first-seen order get different colours |
| Table.MakeGroupStripes | app.py:278-302 | the loops compute `Stripes(FirstSeenRooms(rows))`: the i-th first-seen room with colour `i % 2` |
| Table.RefreshTable | app.py:474-526 | no date, no slot or an empty schedule give an empty table and no styles; otherwise the rows are the table at the chosen HH:MM, with their colour bands |

## Left out

- The database access (app.py:58-189) is left out: the SQL queries, the pytds TDS-version retry loop, and the globals `brojac`, `LAST_DB_ERROR` and `PREFERRED_TDS`. The schedule, log and directory are parameters. The fetchers normalise the room columns (app.py:138, app.py:161) and strip card UIDs (app.py:162, app.py:178); the model's joins take those columns as already normalised.
- The Dash layout, the callback wiring and the HTTP server (app.py:309-474, 530-533) are UI and are left out. This includes the 5 s refresh `Interval` (app.py:420), `toggle_interval` (app.py:459-461) and `show_db_status`.
- `update_termini`'s "no date picked" branch (app.py:441-442) and its `store-datum` output are left out: picking a date is UI. `Schedule.SlotChoices` starts from the fetched schedule.
- `refresh_table`'s unused inputs (`n_intervals`, `auto`) are left out.
- Datetime parsing and `strftime` formatting (app.py:102, 240, 503) are left out. Times are integers, and an HH:MM is a minute of the day.
- Table.TimeColumn: the table sorts its time column by the timestamp, not by the `"%d.%m.%Y. %H:%M:%S"` string. For log rows of one day the two orders agree, and a formatted time sorts before "—" in both, because digits precede the dash.
- Matching.AssignNearest: states minimality of the slot distance only, not which of two equally near slots is kept. pandas' stable multi-column sort keeps the first in join order, and so does the model, but no contract states it.
- Rooms.UpperChar: upper-cases only ASCII letters and č, ć, đ, š, ž, not the whole Unicode case mapping of `str.upper`.
- Rooms.FirstNumber: the number is an unbounded natural. At app.py:264 `pd.to_numeric` passes through float64 whenever some label has no digit, and `astype(int)` gives int64, so digit runs above 2^53 lose precision and runs above 2^63 overflow there; labels whose numbers differ only beyond that range may sort differently in the model.
- Rooms.IsDigit: accepts the ASCII digits only, while Python's `\d` also matches other Unicode decimal digits.
- Rooms.SortRoomsNatural: does not model the "column missing" and `None` inputs of app.py:257. Records always carry the column, and the empty case is modelled.
- Missing values inside columns are left out: a `None` room turned into the text "None" by `astype(str)`, and a NaN room in `make_group_stripes`. Rooms are modelled as strings, and an empty string is the only falsy room.
- Table.RefreshTable: the date is a flag, because the schedule and log fetched for it are parameters.
- The empty results' column lists (app.py:99, 201, 236, 242) are left out: an empty `seq` has no columns.
