# Timezone meeting planner — a Dafny model of its selection and classification logic

The planner is a single React component (`TimezoneMeetingPlanner`, in
`src/App.jsx`). It keeps a list of selected IANA zone identifiers, lets the user
add zones from a fixed catalog through a dropdown and remove them through a
per-row control, and draws one row per selected zone. Each row holds a 24-cell
strip: cell `h` stands for hour `h` of the anchor zone (the host's local
zone, captioned London), shows the hour that instant has in the row's zone, is green when that hour is a working hour
(08:00 up to 18:00), and is ringed when `h` is the slider's hour.

This project models the part of the component that is logic rather than layout:

- `js_array.dfy` (module `JsArray`): the JavaScript array primitives the component
  uses, `filter` and `find`, as functions on sequences, with their laws.
- `selection.dfy` (module `Selection`): the initial selection and the two list
  transitions, `addTimezone` (append if absent) and `removeTimezone` (filter out),
  with the guard that offers removal only while more than one zone is selected.
- `catalog.dfy` (module `Catalog`): the fixed catalog of fifteen (identifier,
  label) entries, the dropdown's options (the catalog minus the selected
  identifiers) and a row's label lookup. The catalog's `label` field is called
  `name` here because `label` is a Dafny keyword; likewise a row's label is its
  `title`.
- `hours.dfy` (module `Hours`): `isWorkingHour` and the 24-cell strip. The hour
  projection (`getHourInTimezone`) is the host's `Intl`/`Date` facility; it
  enters as a function parameter and nothing is assumed about its range.
- `planner.dfy` (module `Planner`): the rows the view derives from the state, and
  the class `MeetingPlanner` holding the component's state
  (`selectedTimezones`, `sliderHour`) with one method per handler. Its invariant
  `Valid()` says the selection has no duplicates and is never empty and the
  slider stays in 0..23; every handler except the unguarded `RemoveTimezone`
  preserves it, and `ClickRemove` is the guarded removal that does.

Four points of the code that the model follows as written:

- `removeTimezone` (src/App.jsx:68-70) is unguarded and can empty the
  selection; only the view's guard at src/App.jsx:130 keeps the list
  non-empty. The model keeps both: `RemoveTimezone` is unguarded, and
  `ClickRemove` is the guarded click.
- Nothing bounds the hour that `getHourInTimezone` parses (src/App.jsx:59) to
  0..23, and there is no placeholder path for an unknown identifier; the model
  claims neither.
- The slider caption at src/App.jsx:103 says London, but `getHourInTimezone`
  and `getTimeInTimezone` call `Date.setHours`, which uses the host's own
  timezone. Cell `h` therefore stands for hour `h` of the browser's zone,
  which is London only on a host set to London. The model leaves the
  projection abstract, so this holds for it as well.
- The row label falls back to the identifier not only when the catalog has no
  entry but also when the first matching entry's label is empty, because the
  code uses JavaScript's `||` (src/App.jsx:118).

## Model

| member | source | states |
|---|---|---|
| JsArray.Filter | src/App.jsx:69 | `filter` keeps exactly the elements its callback accepts and never lengthens the list |
| JsArray.FilterConcat | src/App.jsx:69 | filtering a concatenation is the concatenation of the filtered parts, so survivors keep their relative order |
| JsArray.FilterKeepsAll | src/App.jsx:69 | a filter that rejects no element returns its input unchanged |
| JsArray.FilterDistinct | src/App.jsx:69 | filtering a duplicate-free list yields a duplicate-free list |
| JsArray.FilterDistinctBy | src/App.jsx:95-96 | filtering a list whose elements have distinct keys yields a list whose elements have distinct keys |
| JsArray.FindIndex | src/App.jsx:118 | `find` yields the first position whose element matches, with no match before it, or nothing when no element matches |
| Selection.Added | src/App.jsx:62-66 | after add the identifier is present, the old list is an unchanged prefix, at most one element is added and nothing but the identifier is new |
| Selection.Removed | src/App.jsx:68-70 | after remove the identifier is absent and every other identifier is present exactly when it was before |
| Selection.RemoveOffered | src/App.jsx:130 | a row's remove control is rendered exactly while more than one zone is selected |
| Selection.InitialSelectionDistinct | src/App.jsx:6-9 | the initial selection has two entries and no duplicates |
| Selection.AddedIdempotent | src/App.jsx:62-66 | adding an identifier twice gives the same list as adding it once |
| Selection.AddedCases | src/App.jsx:62-66 | adding a selected identifier changes nothing; adding a fresh one appends it last, the earlier entries unchanged and in order |
| Selection.AddedDistinct | src/App.jsx:62-66 | add preserves the absence of duplicates |
| Selection.RemovedDistinct | src/App.jsx:68-70 | remove preserves the absence of duplicates |
| Selection.RemovedAbsent | src/App.jsx:68-70 | removing an identifier that is not selected leaves the list unchanged |
| Selection.RemovedConcat | src/App.jsx:68-70 | remove acts on each part of the list separately, so the remaining identifiers keep their relative order |
| Selection.RemovedAt | src/App.jsx:68-70 | on a duplicate-free list, removing the identifier at position i deletes exactly that position and shortens the list by one |
| Selection.AddThenRemove | src/App.jsx:62-70 | adding a fresh identifier and then removing it restores the original list |
| Selection.GuardedRemoveNonEmpty | src/App.jsx:130-136 | when removal is offered (more than one entry) on a duplicate-free list, removing any identifier leaves a non-empty list that lost at most one entry |
| Catalog.AvailableZones | src/App.jsx:95 | the dropdown lists exactly the catalog entries whose identifier is not selected |
| Catalog.AvailableZonesInCatalogOrder | src/App.jsx:95 | the dropdown keeps catalog order: it distributes over any split of the catalog |
| Catalog.AvailableZonesNoneSelected | src/App.jsx:95 | when no catalog identifier is selected, the dropdown lists the whole catalog in order |
| Catalog.AvailableZonesDistinct | src/App.jsx:95-96 | the options are keyed by identifier: in a catalog with distinct identifiers no two options share one |
| Catalog.ChosenOptionIsAppended | src/App.jsx:87-95 | choosing any listed option takes add's append branch: the identifier was not selected and lands last |
| Catalog.LabelFor | src/App.jsx:118 | a row's label is the label of the first catalog entry with that identifier, or the identifier itself when no entry has it or that label is empty (the `||` fallback); a non-empty identifier never gets an empty label |
| Catalog.CatalogWellFormed | src/App.jsx:6-28 | the catalog has fifteen entries with distinct identifiers, and both initial selections are catalog identifiers |
| Catalog.LabelOfCatalogEntry | src/App.jsx:118 | in a catalog with distinct identifiers, an entry with a non-empty label is shown under that label |
| Catalog.CatalogLabels | src/App.jsx:12-28 | in the planner's catalog "Asia/Kolkata" is shown as "Mumbai" and "Europe/London" as "London" |
| Hours.IsWorkingHour | src/App.jsx:72-74 | `isWorkingHour`: the hour lies in the half-open window from 8 up to 18 |
| Hours.WorkingHourWindow | src/App.jsx:72-74 | an hour is a working hour exactly when 8 <= hour < 18, for every integer; 8 and 17 are in, 7 and 18 are out |
| Hours.HourStrip | src/App.jsx:142-145 | a strip has 24 cells, cell h standing for anchor hour h and showing the projected hour |
| Hours.StripWorkingCells | src/App.jsx:143-144 | a cell is green exactly when its projected hour lies in [8, 18), whatever the projection |
| Hours.StripCurrentCell | src/App.jsx:145 | for a slider hour in 0..23 exactly the cell at that hour is ringed; otherwise none is |
| Hours.IdentityProjectionWorkingCells | src/App.jsx:142-145 | with the identity projection the green cells are exactly cells 8 through 17 |
| Planner.Rows | src/App.jsx:117-145 | one row per selected zone, in selection order, titled by `LabelFor`, removable exactly when more than one zone is selected, each with 24 cells showing the projected hour, green exactly when it lies in [8, 18) and ringed exactly at the slider's hour |
| Planner.RemovableRows | src/App.jsx:130-136 | every row shows its remove control exactly when more than one zone is selected, so some row shows it exactly then |
| Planner.DismissShownRow | src/App.jsx:130-136 | pressing a shown remove control on a duplicate-free selection deletes exactly that row's zone and leaves at least one |
| Planner.MeetingPlanner.constructor | src/App.jsx:6-10 | the planner starts with London and Sydney selected and the slider at the clock's hour, in a valid state |
| Planner.MeetingPlanner.AddTimezone | src/App.jsx:62-66 | the selection becomes `Added` of the old one, the slider is unchanged, and the invariant holds |
| Planner.MeetingPlanner.RemoveTimezone | src/App.jsx:68-70 | the selection becomes `Removed` of the old one, stays duplicate-free if it was, and the slider is unchanged |
| Planner.MeetingPlanner.ClickRemove | src/App.jsx:130-136 | a click removes the row's zone when the control is shown and changes nothing otherwise; the selection never becomes empty |
| Planner.MeetingPlanner.ChooseOption | src/App.jsx:85-97 | the placeholder changes nothing; any listed option is appended to the selection |
| Planner.MeetingPlanner.MoveSlider | src/App.jsx:105-110 | the slider takes the chosen hour in 0..23 and the selection is unchanged |

## Left out

- `getHourInTimezone` and `getTimeInTimezone` (src/App.jsx:37-60): they call the host's `Date.setHours`, `Intl.DateTimeFormat` and `toLocaleString`, which rely on the host's timezone database and daylight-saving rules. The projection is a function parameter of `HourStrip` and `Rows`; no range is claimed for it, because nothing in the code bounds what `parseInt` returns.
- The formatted "HH:MM" time shown under each row's label (src/App.jsx:127) and the unused `currentHour` (src/App.jsx:119): both come from the foreign formatting calls above.
- The one-second `setInterval` clock and its cleanup (src/App.jsx:30-35): an asynchronous timer that only refreshes the date handed to the host facility.
- The initial slider hour `new Date().getHours()` (src/App.jsx:10): the host clock, taken as the constructor's parameter in 0..23.
- JSX layout, CSS classes, two-digit padding of displayed hours and DOM event plumbing such as resetting the dropdown to its placeholder (src/App.jsx:76-174): presentation only.
