# ReView view history, modelled in Dafny

ReView is a Blender add-on that records the views a user settles on in the 3D
viewport. A repeating timer calls `store_view` every `update_rate` seconds. Each
call reads the viewport's rotation, location and distance (a view sample) and
compares it with the sample kept from the previous call (the last-view slot).
If the view has not changed over a whole interval, the view is recorded in a
bounded history (`review_views`, oldest first; an insert that takes it past
`save_count` entries drops the oldest one), or
the `count` of its existing entry goes up by one. The switch operator walks a
cursor (`view_idx`) over that history, newest first, and restores the view it
points at. The clear operator empties the history; the toggle operator turns
the timer on and off. Inside each stored record the rotation quaternion is kept
as the text `"w x y z"` and parsed back when needed.

The model:

- `Wrappers.dfy`: `Option` and `Result`.
- `ViewHistory.dfy`: the history as values. `TickViews` is what one tick does
  to the history, `Run` folds ticks over a sequence of samples, and the lemmas
  state what runs of ticks do (bounded length, ageing from the front, dwell
  counts, the two-slot eviction scenario). `FindMatch` is the search loop.
- `Navigation.dfy`: the cursor step `Stepped`, repeated steps, and the loop
  that lists the history newest first.
- `RotationCodec.dfy`: `set_data` / `convert_data` over an abstract number
  type, with the round trip proved.
- `ReView.dfy`: class `Tracker` holding the scene state (history, last-view
  slot, cursor, active flag, both settings). Its methods update that state as
  the operators do. `Tick` and `Switch` are proved against the functions above;
  the others state the new field values directly. `Valid()` keeps
  the settings within their bounds and the cursor on a view.

View samples are of any type with equality. Number printing and parsing are
the parameters `show` and `parse` of the codec.

Points where the code differs from a tidier design, all kept in the model:

- A newly recorded view has `count` 0, the property's default
  (`__init__.py:266`), not 1. After `n >= 2` ticks on one view its count is
  `n - 2` (`ViewHistory.DwellRecordsOnce`).
- One insert evicts at most one entry (`__init__.py:89-90`). Lowering
  `save_count` does not trim the history. Later inserts keep its length, so it
  stays above the bound until it is cleared or `save_count` is raised to its
  length again.
- The switch report names the cursor position from before the move
  (`__init__.py:163`), while the view restored is the one at the new position.
- Clearing keeps the last-view slot, so a user who stays put has the current
  view recorded again on the next tick.
- Toggling off keeps the last-view slot too (`Tracker.Toggle` changes only the
  flag), so a view held across an off/on gap is recorded on the first tick
  after re-activation.
- The history bound is 1 to 20 (default 10) and the update rate 1 to 60 seconds
  (default 10) (`__init__.py:245-258`).

## Model

| member | source | states |
|---|---|---|
| `ViewHistory.FirstMatch` | __init__.py:79-83 | the search finds the first entry recording the view, or reports that no entry records it |
| `ViewHistory.FindMatch` | __init__.py:77-83 | the loop with its match flag and break finds exactly the entry `FirstMatch` specifies |
| `ViewHistory.Commit` | __init__.py:84-90 | a new record goes last with count 0; the history grows by one unless it already held `save_count` or more, and then exactly the oldest entry is dropped, the others staying in order |
| `ViewHistory.TickViews` | __init__.py:66-90 | on the first tick or when the view moved the history is unchanged; otherwise it never shrinks, grows by at most one entry, and never passes `max(old length, save_count)` |
| `ViewHistory.TickOnRecorded` | __init__.py:79-83 | a dwell on a recorded view raises only the first matching entry's count, by one; length, order and all other entries are unchanged |
| `ViewHistory.TickOnNew` | __init__.py:84-90 | a dwell on a view no entry records appends it last with count 0, and drops exactly the front entry when the history already held `save_count` or more |
| `ViewHistory.RunLastSample` | __init__.py:93 | after any run of ticks the last-view slot holds the last tick's sample |
| `ViewHistory.RunKeepsBound` | __init__.py:84-90 | a history within `save_count` stays within it over any run of ticks |
| `ViewHistory.TickAges` | __init__.py:76-90 | one tick shifts entries towards the front by at most one place (eviction from index 0), keeps their order, and never lowers a count |
| `ViewHistory.RunAges` | __init__.py:76-90 | over `k` ticks entries shift at most `k` places towards the front, keep their order, and counts never decrease; this says something only for fewer ticks than entries |
| `ViewHistory.DwellCounts` | __init__.py:79-83 | each further tick on the newest recorded view raises its count by exactly one and changes nothing else |
| `ViewHistory.DwellRecordsOnce` | __init__.py:66-93 | `n >= 2` ticks on a view that is neither in the last-view slot nor in the history record it once, as the newest entry, with count `n - 2`; the oldest entry goes only if the history was full |
| `ViewHistory.EvictionScenario` | __init__.py:84-90 | bound 2, dwelling on A, B, C in turn leaves `[B:0, C:0]`: A was evicted |
| `Navigation.Stepped` | __init__.py:137-147 | the cursor stays in `[0, count-1]`; PREVIOUS moves one place older unless at the oldest, NEXT one place newer unless at the newest, FIRST goes to 0, LAST to `count-1`; on one view PREVIOUS and NEXT do nothing |
| `Navigation.StepsUndo` | __init__.py:138-143 | NEXT undoes an unclamped PREVIOUS and PREVIOUS undoes an unclamped NEXT |
| `Navigation.WalkPrevious` | __init__.py:138-140 | `k` PREVIOUS switches reach `min(idx + k, count - 1)`: clamped, never wrapped |
| `Navigation.WalkNext` | __init__.py:141-143 | `k` NEXT switches reach `max(idx - k, 0)`: clamped, never wrapped |
| `Navigation.MostRecentFirst` | __init__.py:153-156 | the reversed list has the same length and holds entry `count-1-i` at position `i` |
| `RotationCodec.Split` | __init__.py:46 | splitting on single spaces gives at least one piece, no piece holds a space, and gluing the pieces with spaces gives the text back |
| `RotationCodec.Encode` | __init__.py:40 | the rotation text is the four printed components joined by single spaces, in the order w, x, y, z |
| `RotationCodec.ParseAll` | __init__.py:47 | every piece is parsed in order; success gives one number per piece, failure names the first piece that is not a number |
| `RotationCodec.Decode` | __init__.py:46-48 | succeeds exactly when the text splits into four pieces that all parse, each parsed into its component in the order w, x, y, z; otherwise a parse error naming the first piece that is not a number, or a count error when every piece parses but there are not four |
| `RotationCodec.SetData` | __init__.py:38-42 | the stored rotation is the printed components joined by single spaces in the order w, x, y, z; location and distance are stored unchanged |
| `RotationCodec.ConvertData` | __init__.py:45-50 | succeeds exactly when the rotation decodes, with `Decode`'s quaternion as rotation and location and distance passed through; otherwise `Decode`'s error |
| `RotationCodec.DecodeEncode` | __init__.py:40-48 | decoding the text `"w x y z"` gives back the same four components in the same order |
| `RotationCodec.RoundTrip` | __init__.py:38-50 | a view written by `set_data` and read by `convert_data` is the same view |
| `RotationCodec.SetDataInjective` | __init__.py:72-80 | two views have the same stored form only if they are equal, so matching entries by stored form decides the same as comparing views |
| `ReView.Clamp` | __init__.py:245-258 | a setting is held within its bounds and unchanged when already within them |
| `ReView.Tracker.constructor` | __init__.py:241-266 | empty history, empty slot, inactive, cursor 0, both settings at their default 10 |
| `ReView.Tracker.Tick` | __init__.py:53-97 | the history becomes `TickViews` of the old history and slot; the slot holds the current sample; the result is the stop signal exactly when inactive, otherwise the update rate; nothing else changes and the cursor stays valid |
| `ReView.Tracker.Toggle` | __init__.py:105-113 | flips the active flag; on activation starts a timer whose first interval is the update rate |
| `ReView.Tracker.Switch` | __init__.py:132-167 | on an empty history reports the error and leaves the cursor alone; otherwise moves the cursor as `Stepped` says, restores entry `count-1-cursor`, and reports the old cursor plus one |
| `ReView.Tracker.Clear` | __init__.py:175-179 | empties the history and sets the cursor to 0 |
| `ReView.Tracker.SetUpdateRate` | __init__.py:245-251 | the update rate becomes the written value clamped to 1-60 |
| `ReView.Tracker.SetSaveCount` | __init__.py:252-258 | the history bound becomes the written value clamped to 1-20; the history itself is not trimmed |

## Left out

- Finding the 3D viewport and reading its view (`__init__.py:57-60`) is host I/O. The current sample is the parameter of `Tick`. The code indexes the list of 3D areas directly, so with no 3D viewport the tick raises an error. That path is not modelled.
- Writing the restored view into the viewport (`__init__.py:149-162`) is host I/O. `Switch` returns the view it would write.
- The host's timer (`bpy.app.timers.register`, `__init__.py:109`) is outside the model. `Toggle` returns the first interval it would register, and `Tick` returns the delay or the stop signal. Re-registering before a stopped timer has fired its last tick is not modelled.
- Status messages are reduced to `SwitchReport`. The info messages of toggle and clear carry no state and are not modelled.
- Panels, `register`/`unregister` and the property declarations (`__init__.py:182-297`) are host glue. Only their defaults and bounds are kept, as the constants and `Clamp` in `ReView.dfy`.
- Floating point: `show` and `parse` stand for Python's float printing and `float(...)`. The round trip is proved for every pair that prints without spaces and parses back exactly (`Printable`). NaN, which is not equal to itself, is outside that, and so are signed zeros: `0.0 == -0.0` in Python, yet they print as `0.0` and `-0.0`, so no `Printable` pair models Python floats with both.
- `get_data` only gathers the three view fields. `mathutils.Quaternion` / `mathutils.Vector` construction is a change of type. Neither is modelled separately.
- `Tracker.Tick`: history entries hold samples, not their stored text form, and the model treats the two comparisons of a tick, decoded samples at `__init__.py:76` and stored text at `__init__.py:80`, as one equality. `RotationCodec.SetDataInjective` shows they decide alike for components whose equality is exact and whose printing is faithful. With Python floats they can differ: a view containing `-0.0` equals its `0.0` twin at line 76 but prints differently at line 80, so the code then appends a second entry where the model raises the existing entry's count. The tolerance that `mathutils` applies when comparing quaternions and vectors widens the same gap; it is not modelled.
- `ViewHistory.TickViews`: `count` is an unbounded integer. The host stores it as a 32-bit integer, which would take about 68 years of one-second ticks to overflow.
- Named saved views with stable identifiers are not part of this model: this source file has no such collection.
