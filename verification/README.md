# adb geofence app blocker — a Dafny model of its decision logic

`adb_geofence.py` runs, forever, one cycle that:

1. lists the Android devices attached over `adb`;
2. reads each device's last known location out of `dumpsys location`;
3. for a device inside a fixed geofence, finds the foreground app in
   `dumpsys activity activities`;
4. force-stops that app if it is WhatsApp or YouTube.

This project models the logic of one cycle as pure Dafny functions over
strings. The `adb` commands are replaced by oracles. The model has five
parts:

- the device-list parser;
- the two regular-expression searches that extract the latitude and the
  longitude;
- the field extraction that yields the foreground package;
- the blocklist test of `block_app`;
- the device loop of `main`, which decides which `block_app` calls are queued
  and which of them force-stop an app.

Modules, one per file:

- `Wrappers` (wrappers.dfy): `Option`, standing for Python's `None`.
- `Text` (text.dfy): the parts of Python `str` behaviour the script uses:
  - `in` as `Contains`;
  - `split(sep)` as `SplitOn`, and `sep.join` as `Join`;
  - `split()` as `Fields`;
  - the ASCII classes `\s` and `\d`, and `Span`, the longest run of one class.
- `DeviceList` (device_list.dfy): lines 114-117 of `main`.
- `Patterns` (patterns.dfy): the patterns `last\s+location` and
  `[-+]?\d*\.\d+|\d+`, with the semantics of Python's `re.search`:
  - the match reported is the one that starts leftmost;
  - at a given start, the alternatives are tried left to right;
  - every quantifier is greedy.

  Each pattern is given twice. The first is a matcher that computes the end
  of the match (`MarkerEndAt`, `NumeralEndAt`) plus a search (`FindMarker`,
  `FindNumeral`). The second is a ghost predicate saying which substrings
  match (`IsMarkerMatch`, `TokenMatch`, `FirstMarker`, `FirstToken`). Lemmas
  prove that the two agree.
- `Location` (location.dfy): `get_device_location`, lines 45-63. The result
  is a `Reading`:
  - `Coordinates(latitude, longitude)`, both kept as the matched text;
  - `Absent`, for `(None, None)`;
  - `Crash`, for the `AttributeError` that line 50 raises when no number
    follows the marker.
- `Foreground` (foreground.dfy): `get_foreground_app`, lines 64-85.
- `Cycle` (cycle.dfy): `block_app`'s blocklist (line 88) and one run of
  `main` (lines 103-141). The device loop produces one `Step` per device:
  - `Halt` when the location command fails (`exit()`), line 50 raises, or the
    geofence test raises on the coordinates. In each case the program ends
    before `asyncio.gather`, so nothing is force-stopped;
  - `Unlocated`;
  - `Outside`;
  - `Inside`, which carries the foreground app.

  The outcome records:
  - the devices;
  - the steps;
  - the queued tasks;
  - the force-stops that the queued tasks perform.

The oracles of a cycle are gathered in `Cycle.Env`:

- `locationDump(k)` is the output of the `k`-th location command, or `None`
  when that command fails. The command (line 39) names no device, so the
  model passes only the call count, never the serial.
- `inside(lat, lon)` stands for `is_within_geofence`. It is applied to the two
  matched tokens. `Some(b)` is its answer. `None` means it raised: a numeral
  too long for a double becomes infinity under `float()`, and `sin` at line 27
  then raises `ValueError`, which ends the program like any other `Halt`.
- `activityDump(k, serial)` is the output of the activity dump, or `None`
  when running or decoding it raises. `get_foreground_app` catches every such
  exception and returns `None`.

## Model

| member | source | states |
|---|---|---|
| Text.Contains | adb_geofence.py:116 | Python's `sub in s`; its meaning is stated by `Text.ContainsIff` |
| Text.ContainsIff | adb_geofence.py:116 | `Contains(s, sub)` holds exactly when there is an index `i` with `s[i..i+|sub|] == sub` |
| Text.SplitOn | adb_geofence.py:115 | `s.split(sep)` yields one more piece than there are separators; no piece holds the separator; the first piece is the prefix before the first separator |
| Text.JoinSplit | adb_geofence.py:76 | splitting loses nothing: `sep.join(s.split(sep)) == s` |
| Text.SplitJoin | adb_geofence.py:76 | splitting the join of separator-free pieces gives back the pieces |
| Text.SplitPrefix | adb_geofence.py:117 | the text before the first separator is the first piece, and the rest is split on its own |
| Text.SplitNoSep | adb_geofence.py:117 | text without the separator splits into itself alone |
| Text.Fields | adb_geofence.py:81 | `line.split()` yields non-empty, whitespace-free fields; which fields come out is fixed by `Text.FieldsSkipSpace` and `Text.FieldsWord`, which together cover every text |
| Text.FieldsSkipSpace | adb_geofence.py:81 | any amount of leading whitespace is skipped: `Fields(ws + s) == Fields(s)` |
| Text.FieldsJoin | adb_geofence.py:81 | the fields of non-empty, whitespace-free words joined by single spaces are those words |
| Text.FieldsWord | adb_geofence.py:81 | a word followed by whitespace or by the end of the text is exactly one field |
| DeviceList.Serial | adb_geofence.py:117 | `line.split('\t')[0]` is a tab-free prefix of the line, followed by a tab or by the end of the line |
| DeviceList.Select | adb_geofence.py:115-117 | at most one serial per line, and none contains a tab |
| DeviceList.SelectMembers | adb_geofence.py:116-117 | a text is listed exactly when some line contains `"\tdevice"` and that text is the line's prefix before the first tab |
| DeviceList.SelectAppend | adb_geofence.py:115-117 | selection keeps the input order: selecting from `a + b` gives the selection from `a` followed by that from `b` |
| DeviceList.ParseDevices | adb_geofence.py:114-117 | no more devices than newlines, i.e. than lines after the first, and no device contains a tab |
| DeviceList.ParseDevicesDropsHeader | adb_geofence.py:115 | the first line is always dropped, whatever it holds, even `"\tdevice"` |
| DeviceList.ParseDevicesLines | adb_geofence.py:114-117 | for a header and newline-free lines joined by `'\n'`, the devices are the selection from the lines after the header |
| DeviceList.OnlineLine | adb_geofence.py:116-117 | a line `serial\tdevice...` is kept and yields `serial` |
| DeviceList.OtherStateLine | adb_geofence.py:116 | a line `serial\tstate` whose state does not start with `device` (offline, unauthorized) is dropped |
| DeviceList.SelectFirstOnly | adb_geofence.py:116-117 | of an online line, an other-state line and a trailing empty line, only the online line is listed |
| DeviceList.ThreeLines | adb_geofence.py:115 | a listing of a header, two lines and a final newline splits into those lines and an empty one |
| DeviceList.ParseOneOnline | adb_geofence.py:114-117 | a header, one online device and one device in another state give exactly the online serial |
| DeviceList.ParseDevicesExample | adb_geofence.py:114-117 | `"List of devices attached\nABC123\tdevice\nXYZ999\tunauthorized\n"` gives `["ABC123"]` |
| Patterns.MarkerEndAt | adb_geofence.py:45 | the marker matcher tried at `i` ends inside the text; `Patterns.MarkerEndAtIff` says where |
| Patterns.FindMarker | adb_geofence.py:45 | `re.search` for the marker reports a match that starts no earlier than the search and ends inside the text; `Patterns.FindMarkerIsFirst` and `Patterns.FindMarkerNone` say which |
| Patterns.MarkerEndAtIff | adb_geofence.py:45 | the marker matcher at `i` ends at `e` exactly when `s[i..e]` is `last`, one or more whitespace characters, then `location` |
| Patterns.FindMarkerLeftmost | adb_geofence.py:45 | the search reports the first start at which the matcher succeeds, and reports nothing only when it succeeds nowhere |
| Patterns.FindMarkerIsFirst | adb_geofence.py:45 | the search reports `(i, e)` exactly when `s[i..e]` is a marker match and no match starts before `i` |
| Patterns.FindMarkerNone | adb_geofence.py:45-47 | the search fails exactly when no substring matches the marker pattern |
| Patterns.NumeralEndAt | adb_geofence.py:49 | a match of the number pattern at `p` is non-empty and ends inside the text; `Patterns.NumeralEndAtIff` says where |
| Patterns.DecimalEndAtIff | adb_geofence.py:49 | the first alternative `[-+]?\d*\.\d+` tried at `p` ends at `e` exactly when `t[p..e]` is an optionally signed decimal and no digit follows it |
| Patterns.IntegerEndAtIff | adb_geofence.py:49 | the second alternative `\d+` tried at `p` ends at `e` exactly when `t[p..e]` is a non-empty run of digits that no digit follows |
| Patterns.NumeralEndAtIff | adb_geofence.py:49 | the whole pattern at `p` ends at `e` exactly when the first alternative matches there, or the second does and the first matches nowhere at `p` |
| Patterns.UnsignedDecimalStart | adb_geofence.py:49 | an unsigned decimal begins with a digit or the point, so a sign is never read twice |
| Patterns.SignNotTakenByInteger | adb_geofence.py:49 | in front of an integer without a point, the sign is not matched and the match starts at the first digit, so `-5` reads as `5` |
| Patterns.NoNumeralAt | adb_geofence.py:49 | no match starts at a character that is not a sign, a digit or the point |
| Patterns.FindNumeral | adb_geofence.py:49-50 | `re.search` for a number reports a non-empty match starting no earlier than the search; `Patterns.FindNumeralIsFirst` and `Patterns.FindNumeralNone` say which |
| Patterns.FindNumeralLeftmost | adb_geofence.py:49-50 | the search reports the first start at which the pattern matches, and reports nothing only when it matches nowhere |
| Patterns.FindNumeralIsFirst | adb_geofence.py:49-50 | the search reports `(p, e)` exactly when the pattern matches `t[p..e]` and no match starts before `p` |
| Patterns.FindNumeralNone | adb_geofence.py:49-50 | the search fails exactly when no substring matches the pattern |
| Patterns.FoundNumeral | adb_geofence.py:49-54 | whatever the search reports is a decimal or an integer numeral |
| Location.ReadLocation | adb_geofence.py:45-63 | what `get_device_location` makes of a dump; every case is stated by `Location.NoMarkerIsAbsent`, `Location.NoNumberCrashes`, `Location.OneNumberIsAbsent` and `Location.TwoNumbersAreCoordinates` |
| Location.ReadAfterMarker | adb_geofence.py:49-63 | the two searches after the marker; stated by `Location.BothSearchesFind`, `Location.TwoTokensAfterMarker` and `Location.AfterMarkerNumerals` |
| Location.AfterMarker | adb_geofence.py:45-50 | once the first marker match is found, the reading depends only on the text after it |
| Location.NoMarkerIsAbsent | adb_geofence.py:45-63 | a dump with no marker match gives `(None, None)` |
| Location.NoNumberCrashes | adb_geofence.py:49-50 | a marker followed by no numeral raises at line 50 instead of returning `(None, None)` |
| Location.OneNumberIsAbsent | adb_geofence.py:49-63 | a marker followed by exactly one numeral gives `(None, None)` |
| Location.BothSearchesFind | adb_geofence.py:49-58 | when both searches succeed, the coordinates are the two matched texts, the second taken from the slice after the first |
| Location.TwoTokensAfterMarker | adb_geofence.py:49-58 | after the marker, the latitude is the first token and the longitude the first token after the latitude's end |
| Location.TwoNumbersAreCoordinates | adb_geofence.py:45-58 | in whole-dump positions: the latitude is the leftmost token after the marker, and the longitude the leftmost token after it, so they never overlap and appear in text order |
| Location.AfterMarkerNumerals | adb_geofence.py:49-54 | the two coordinates read after the marker are numerals |
| Location.CoordinatesAreNumerals | adb_geofence.py:45-58 | whenever coordinates are returned, both are numerals as the pattern defines them |
| Foreground.FirstLineWith | adb_geofence.py:76-77 | the index found is that of a line containing the text, and no earlier line contains it; with no index, no line contains it |
| Foreground.PackageOf | adb_geofence.py:81-85 | there is a package exactly when the line has at least four fields; it is the fourth field up to its first `/`, or the whole field when it has none, and holds no `/` or whitespace |
| Foreground.ForegroundApp | adb_geofence.py:76-85 | a returned package never contains `/` or whitespace |
| Foreground.FirstLineAfter | adb_geofence.py:76-77 | when no earlier line contains the text, the search stops at the first line that does |
| Foreground.OnlyFirstMarkedLine | adb_geofence.py:76-82 | only the first line with `mResumedActivity` is examined: its package, or `None` when it has fewer than four fields, is the answer whatever the later lines hold |
| Foreground.NoMarkedLine | adb_geofence.py:76-85 | a dump with no `mResumedActivity` line gives `None` |
| Foreground.PackageOfFourthField | adb_geofence.py:81 | with three fields before it, the fourth field up to its first `/` is returned, whatever follows |
| Foreground.PackageOfFiveFields | adb_geofence.py:81 | the same for a line of five space-separated fields |
| Foreground.PackageOfExample | adb_geofence.py:81-82 | `mResumedActivity: ActivityRecord{a1 u0 com.whatsapp/.Main t12}` gives `com.whatsapp` |
| Foreground.IndentedPackageOfExample | adb_geofence.py:81-82 | the same line indented by four spaces, as `dumpsys` prints it, gives `com.whatsapp` too |
| Cycle.AppFromDump | adb_geofence.py:64-85 | a failed command gives `None`; a returned package never contains `/` |
| Cycle.DeviceStep | adb_geofence.py:126-138 | the loop body for one device; stated by `Cycle.DeviceStepCases` and `Cycle.ActivityOnlyInside` |
| Cycle.DeviceStepCases | adb_geofence.py:126-138 | the program halts exactly when the location command fails, line 50 raises, or the geofence test raises on the coordinates; the device is unlocated exactly when no coordinates are found; located devices split on the geofence test, and only inside ones get the foreground app |
| Cycle.Walk | adb_geofence.py:125 | the loop takes at most one step per device; `Cycle.WalkSteps` says which steps |
| Cycle.WalkSteps | adb_geofence.py:125-138 | the `i`-th step is the `i`-th device's, made with the `i`-th location call; only the last step may halt; the loop stops early only by halting |
| Cycle.WalkAgree | adb_geofence.py:125-138 | the loop's outcome depends only on the steps it actually takes |
| Cycle.Queued | adb_geofence.py:133-134 | at most one task per step, and no task has an empty package |
| Cycle.QueuedMembers | adb_geofence.py:133-134 | a task is queued exactly when some device was inside with a non-empty foreground app, as that device and app |
| Cycle.QueuedAppend | adb_geofence.py:124-134 | tasks are queued in device order |
| Cycle.BlockApp | adb_geofence.py:88 | a task force-stops its app exactly when the package is `com.whatsapp` or `com.google.android.youtube`, and otherwise issues no command |
| Cycle.Stops | adb_geofence.py:88-141 | the force-stops are exactly the queued tasks whose package is blocklisted |
| Cycle.StopsAppend | adb_geofence.py:141 | the force-stops keep the order of the tasks |
| Cycle.RunCycle | adb_geofence.py:114-141 | no devices gives no steps, tasks or stops; at most one task per step and one step per device; a halt prevents every force-stop; otherwise the blocklisted tasks, and only they, are force-stopped |
| Cycle.ActivityOnlyInside | adb_geofence.py:127-129 | for a device not inside the geofence, the step does not depend on the foreground-app oracle |
| Cycle.NoneInsideNoActivity | adb_geofence.py:125-138 | when no device is inside, the whole cycle is independent of the foreground-app oracle, so it was never consulted |
| Cycle.NoDevicesNoCalls | adb_geofence.py:119-121 | with no device listed, the outcome is empty and the same for every environment, so no other command runs |
| Cycle.OneDeviceInside | adb_geofence.py:125-141 | one device located inside with a non-empty app gets exactly one task, which force-stops only a blocklisted app |
| Cycle.WhatsAppStopped | adb_geofence.py:88-141 | a device inside the geofence running WhatsApp has WhatsApp force-stopped |

## Left out

- Running the commands: the `adb` subprocesses and their asyncio plumbing
  (lines 39, 66-71, 89-94, 106-110) and UTF-8 decoding. Their outputs are
  oracles in `Cycle.Env`. A failure of the location command, or any exception
  escaping `get_device_location`, becomes `Halt`. A failure inside
  `get_foreground_app` becomes `None`, because its `except Exception` catches
  it.
- The return code of `am force-stop` (lines 96-99): it only chooses what is
  printed, so a force-stop is recorded when it is issued.
- Concurrency: `asyncio.gather` (line 141) runs the queued tasks together.
  `Cycle.Stops` lists them in task order, but only which force-stops happen is
  promised, not their order.
- The `while True` loop (lines 144-146): one cycle is modelled. A `Halt` ends
  the program, because the exception or `SystemExit` leaves `asyncio.run`.
- `is_within_geofence` (lines 16-32): floating-point trigonometry. It is the
  uninterpreted oracle `Env.inside`, applied to the two matched tokens. Which
  tokens make it raise (those that `float()` turns into infinity) is not
  modelled; `None` from the oracle stands for that error. Line 27 multiplies by 2 where the haversine formula squares; the model
  neither reproduces nor corrects this.
- `float()` (lines 53-54): the coordinates stay as matched text. Every matched
  token is a numeral (`Location.CoordinatesAreNumerals`), which Python's
  `float` accepts.
- Printing and `exit()` messages.
- Character classes are ASCII:
  - `\d` is `0`-`9`;
  - `\s`, and the whitespace that `str.split()` splits on, is space, tab, line
    feed, carriage return, vertical tab and form feed.

  Python's Unicode digits and whitespace are not modelled. Neither are the
  separators `\x1c`-`\x1f`, which `str.split()` also treats as whitespace.
- The `adb devices` listing is split on `'\n'` only, like the source. A `'\r'`
  before the newline stays part of the line.
- Location.TwoNumbersAreCoordinates: the full example
  `"last location x 13.0321,77.5634"` is not proved as a literal. The general
  lemma covers it, with latitude `13.0321` as the first token after the marker
  and longitude `77.5634` as the first token after it.
