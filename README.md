# NYPD allegations dashboard — a verified model of its filtering core

The dashboard (`main.js`) loads a table of civilian complaints against NYPD officers
and draws three linked views from it: a stacked timeline of allegations per year and
FADO category (Force, Abuse of Authority, Discourtesy, Offensive Language), a bar chart
of the twelve most frequent board dispositions, and a summary panel. A single filter
state, a year window and a set of enabled categories, drives all three. Two redundant
controls edit the year window: a dual-thumb slider and a brush drawn over the timeline.
A latch (`programmaticBrush`) keeps the brush from reacting to its own programmatic
repaint.

This project models the integer and collection logic of that file in Dafny:

- `strings.dfy` (`Strings`): JavaScript `trim` and `startsWith` on strings as character
  sequences.
- `records.dfy` (`Records`): the CSV row mapper that normalises each row, and
  `d3.extent` over the years.
- `tally.dfy` (`Tally`): `d3.rollups` with a counting reducer. It yields one entry per
  distinct key, in order of first appearance, each with its number of occurrences.
- `sorting.dfy` (`Sorting`): `Array.prototype.sort` with a numeric comparator, modelled
  as a stable insertion sort by an integer key.
- `views.dfy` (`Views`): the derived views `fullYearRange`, `filteredData`, `byYearFado`
  and `byDisposition`, and the counts of `renderDetails`.
- `controller.dfy` (`Controller`): the filter state and its transitions, as the class
  `Dashboard`. The transitions are the buttons, the checkboxes, the slider, the brush
  handler with its latch, the frame-coalesced render handle and the two resets.
- `config.dfy`, `wrappers.dfy`: the constants (`FADO_ORDER`, `'Unknown'`, the top-12
  and top-4 cut-offs) and an `Option` type.

`Dashboard` keeps `Consistent()` as an invariant of every transition: the window lies
inside the global extent `YEARS`, it is not inverted, and only known categories are
enabled. `Valid()` adds that the latch is released. The ghost counter `updates` counts
full refreshes (`updateAll`). Every user action is proved to cause exactly one refresh,
except clearing the brush while the window already equals the extent, which causes none;
a brush drag causes none either. The brush echo raised while the latch is set is proved to
change nothing.

## Model

| member | source | states |
|---|---|---|
| `Strings.Trim` | main.js:16 | `trim` returns a slice of the input framed by two runs of ECMAScript whitespace, with whitespace at neither end |
| `Strings.TrimEmptyIffWhitespace` | main.js:16 | a value trims to the empty string exactly when it is all whitespace |
| `Strings.TrimIdempotent` | main.js:16 | trimming twice gives the same as trimming once |
| `Records.NormalizeDisposition` | main.js:16-17 | a missing or whitespace-only disposition becomes "Unknown"; a trimmed value starting with "Substantiated" becomes exactly "Substantiated"; any other value is returned trimmed; the result is never empty and is trimmed |
| `Records.NormalizeDispositionIdempotent` | main.js:16-17 | normalising a disposition twice gives the same label as normalising it once |
| `Records.NormalizedDispositionIsFixed` | main.js:16-17 | every label the rule can produce is left unchanged by it |
| `Records.NormalizeFado` | main.js:21 | a missing or empty `fado_type` becomes "Unknown"; any other value is kept as is, untrimmed |
| `Records.NormalizeFadoIdempotent` | main.js:21 | normalising a category twice gives the same as once |
| `Records.MapRow` | main.js:14-25 | the row mapper keeps the year, normalises category and disposition, and keeps the precinct only when its text is non-empty |
| `Records.Extent` | main.js:27 | `d3.extent` of the years: undefined exactly for an empty table; otherwise the least and the greatest year, both occurring, bounding every row |
| `Config.UnknownIsNotACategory` | main.js:4 | "Unknown" is not one of the four known categories, and there are four of them |
| `Tally.Rollups` | main.js:157 | `d3.rollups` counting: keys are the distinct keys in order of first appearance, each count is the number of occurrences, and the counts add up to the input length |
| `Tally.TallyEntry` | main.js:157 | every entry of a tally is an occurring key with its exact count |
| `Tally.TallyHasKey` | main.js:157 | every occurring key has its entry in the tally |
| `Sorting.SortBy` | main.js:158 | the comparator sort returns a permutation of its input, ordered by the key |
| `Sorting.SortStable` | main.js:158 | elements with equal keys keep their relative order |
| `Sorting.SortDistinct` | main.js:158 | sorting keeps keys pairwise distinct |
| `Views.FullYearRange` | main.js:139-141 | for `y0 <= y1`, length `y1-y0+1` with element `i` equal to `y0+i`, strictly increasing, holding exactly the years in `[y0, y1]`; empty otherwise |
| `Views.FilteredData` | main.js:142-145 | every returned row lies in the year window and has an enabled category |
| `Views.FilteredIsOrderedSelection` | main.js:142-145 | the result is exactly the rows meeting the filter, in their original order: its k-th row is the row at the k-th selected index |
| `Views.FilteredMonotone` | main.js:142-145 | widening the window or enabling more categories never shrinks the result |
| `Views.FilteredEmptyWithoutCategories` | main.js:43 | with no category enabled ("Select None") the result is empty |
| `Controller.FilteredHasNoUnknown` | main.js:142-145 | when only known categories are enabled, no "Unknown"-category row is returned |
| `Views.GroupByYearFado` | main.js:147 | the nested `d3.rollup`: years present are exactly the rows' years; a category is present under a year exactly when it occurs there; every lookup, defaulted to 0, is the number of rows of that year and category |
| `Views.BuildYearEntry` | main.js:150-153 | the loop fills one field per known category with its count, or 0 when absent |
| `Views.ByYearFado` | main.js:146-155 | one entry per year of the global extent, ascending, whatever the rows; each category's count is the number of input rows of that year and category; no entry when the extent is undefined |
| `Views.CountYearFadoAbsent` | main.js:152 | a year and category with no row count 0 |
| `Views.FilteredCount` | main.js:142-152 | the timeline count of a year and category is the whole table's count inside the window for an enabled category, and 0 outside |
| `Views.TopByCount` | main.js:157-158 | the first `n` distinct keys by count, descending, with exact counts; a key left out means the list is full and counts no more than any shown key; the counts sum to at most the input length, and to exactly that when at most `n` keys occur |
| `Views.TopByCountTies` | main.js:157-158 | among equal counts, the keys shown are the first ones in order of first appearance |
| `Views.ByDisposition` | main.js:156-159 | at most 12 pairwise-distinct labels with non-increasing counts, each equal to the number of rows with that label; a label left out means 12 are shown, each counting at least as many rows; the counts sum to at most the row count, with equality when 12 or fewer labels occur |
| `Views.PeakYear` | main.js:416 | the peak year has the largest count, and no earlier year has the same count |
| `Views.YearCountsFacts` | main.js:415 | the per-year counts are in strictly ascending year order, exact, and cover every row's year |
| `Views.Details` | main.js:408-416 | nothing for an empty selection; otherwise the total, the top four categories, the per-year table in ascending order, and a peak year taken from that table |
| `Controller.SliderYears` | main.js:94 | the two thumbs in order: the smaller first, the same two values |
| `Controller.SliderYearsSymmetric` | main.js:94 | the ordered pair does not depend on which thumb is which |
| `Controller.ClampYear` | main.js:200 | one year pulled into the extent, unchanged when already inside |
| `Controller.BrushYearsAsWritten` | main.js:279 | each end of the brush selection is clamped on one side only |
| `Controller.BrushYearsAsWrittenEscapes` | main.js:279 | with extent 1985–2019 and a selection rounding to 2020–2020, the handler as written stores the inverted window 2020–2019 |
| `Controller.BrushYears` | main.js:276-279 | the corrected clamp: the window is ordered and lies inside the extent, and is the selection itself when the selection lies inside |
| `Controller.BrushYearsAgree` | main.js:279 | the corrected clamp and the one as written agree exactly when the selection overlaps the extent |
| `Controller.Dashboard.constructor` | main.js:11 | boot: years equal the extent, every category is enabled, the latch is released, nothing is pending |
| `Controller.Dashboard.Filtered` | main.js:142-145 | the rows of the current state: inside the window, enabled category, never "Unknown" |
| `Controller.Dashboard.UpdateAll` | main.js:429-436 | one refresh; the state and the pending flag are unchanged |
| `Controller.Dashboard.SyncBrushToState` | main.js:240-246 | the latch is set around the brush move and released on exit; the echo changes nothing |
| `Controller.Dashboard.Brushed` | main.js:263-292 | under the latch, nothing changes; a cleared brush restores the extent, refreshing only when the window differed; otherwise the window becomes the selection clamped at both ends (`BrushYears`, the corrected clamp of the finding below); a drag schedules one frame render when the window changed and none is pending; a release refreshes once |
| `Controller.Dashboard.AnimationFrame` | main.js:288 | the scheduled frame clears the handle and renders once |
| `Controller.Dashboard.OnInput` | main.js:102-107 | the readout shows the thumbs in order; the state is not touched |
| `Controller.Dashboard.CommitSlider` | main.js:91-100 | after a commit the window is the thumbs in order, the categories are unchanged, and one refresh runs |
| `Controller.Dashboard.SelectAll` | main.js:39 | every known category is enabled and the window is unchanged |
| `Controller.Dashboard.SelectNone` | main.js:43 | no category is enabled and nothing is selected |
| `Controller.Dashboard.ToggleCategory` | main.js:121-127 | a checkbox adds or removes its own category and nothing else |
| `Controller.Dashboard.ResetTimeline` | main.js:294-301 | the window returns to the extent and the categories are unchanged |
| `Controller.Dashboard.ResetAll` | main.js:304-317 | the window returns to the extent and every category is enabled, whatever the state was before |

## Findings

| source | as written | input that shows it | evidently intended | confidence | as-written member | corrected member |
|---|---|---|---|---|---|---|
| main.js:279 | `[Math.max(YEARS[0], y0), Math.min(YEARS[1], y1)]` clamps each end on one side only | the axis domain is `nice()`d, so it can extend past the data: with data from 1985 to 2019 the axis runs to 2020, and a brush at its right edge rounds to [2020, 2020], giving the window [2020, 2019] | both ends clamped into the extent, as the hover handler does at main.js:200, so the window stays ordered and inside `YEARS` | not executed; depends on the data extent not being a "nice" interval | `Controller.BrushYearsAsWritten`, `Controller.BrushYearsAsWrittenEscapes` | `Controller.BrushYears`, `Controller.BrushYearsAgree` |

`Dashboard.Brushed` uses the corrected clamp, so `Consistent()` holds after every brush
event.

## Left out

- Loading the CSV with `d3.csv` is not modelled (network I/O). The rows arrive as a
  `RawRow` sequence.
- The coercions `+d.year_received` and `+d.precinct` are not modelled. A row carries
  their results as integers, and NaN years do not arise.
- No rendering is modelled: SVG, axes, stacks, areas, bar transitions, legend, colour
  scales, tooltip HTML and positioning, z-index swaps of the slider thumbs, and the
  empty-state messages.
- Floating point is not modelled: `xScale.invert`, `Math.round` of pixel positions,
  `nice()`, `pct`, `fmt`, and the CSS `--start`/`--end` percentages. Brush selections
  arrive as already-rounded integer years, in order, because the scale is increasing.
  The hover handler's year lookup is represented only by `ClampYear`.
- `requestAnimationFrame` is modelled only as the boolean `renderPending`. The frame
  callback is the method `AnimationFrame`.
- The document listeners of `bindGlobalResetOnce` are not modelled. The outside click
  and the Escape key both call `ResetTimeline`.
- `renderFilters`, `renderLegend` and the slider DOM updates in `syncBrushToState` are
  presentation only.
- An empty table is not modelled. `YEARS` is then `[undefined, undefined]` and the year
  controls have no values. `Dashboard.constructor` requires at least one row, while
  `Views.ByYearFado` and `Records.Extent` do handle the empty case.
- The state literal `[1985, 2020]` at main.js:11 is overwritten by `state.years = YEARS`
  at main.js:439 before the first full refresh (`updateAll`); `renderFilters()` at
  main.js:438 still draws the slider values and the readout from that literal. The
  constructor models the state after boot.
- `state.years = YEARS` shares the `YEARS` array. The model stores a value instead.
  Nothing mutates either array in place, so the sharing is not observable.
- The early return of `syncBrushToState` before the first timeline render (main.js:241)
  is not modelled. The model starts after that render.
- `Dashboard.CommitSlider` requires both thumbs to lie within the extent. HTML range
  inputs with `min`/`max` set to `YEARS` keep their values there.
- The slider is not clamped in code; it relies on the range inputs' `min`/`max`.
- Ties between equal disposition counts keep first-seen order because the sort is stable
  (`Views.TopByCountTies`).
- Nothing rejects an empty or malformed file; an empty table gives empty views.
- Dashboard.Brushed: stores the corrected clamp `BrushYears` rather than main.js:279's
  one-sided clamp. The two differ exactly when the selection misses the extent
  (`Controller.BrushYearsAgree`); there the program stores an inverted window such as
  (2020, 2019). The part of `Consistent()` that keeps the window ordered and inside
  `YEARS` therefore holds for the model, not for the program.
