/** The filter state and the range-selection controller: the module-level `state`
    (`years`, `fado`), the `programmaticBrush` latch that keeps the brush from echoing its
    own repaint, the `brushRaf` handle that coalesces brush drags into one render per frame,
    and the user actions that change them. */
module Controller {
  import opened Wrappers
  import opened Config
  import opened Records
  import opened Views

  // ---- The year pair of the slider

  /** The two thumbs of the dual slider, in order: `if (y0 > y1) [y0, y1] = [y1, y0]`. */
  function SliderYears(a: int, b: int): (r: (int, int))
    ensures r.0 <= r.1
    ensures multiset{r.0, r.1} == multiset{a, b}
    ensures a <= b ==> r == (a, b)
  {
    if a > b then (b, a) else (a, b)
  }

  /** Ordering the thumbs does not depend on which thumb is which. */
  lemma SliderYearsSymmetric(a: int, b: int)
    ensures SliderYears(a, b) == SliderYears(b, a)
  {
  }

  // ---- The year pair of the brush

  /** `Math.max(YEARS[0], Math.min(YEARS[1], y))`: one year pulled into the extent, as the
      hover handler does. */
  function ClampYear(extent: (int, int), y: int): (r: int)
    requires extent.0 <= extent.1
    ensures extent.0 <= r <= extent.1
    ensures extent.0 <= y <= extent.1 ==> r == y
  {
    if y < extent.0 then extent.0 else if y > extent.1 then extent.1 else y
  }

  /** The brush handler as written: `[Math.max(YEARS[0], y0), Math.min(YEARS[1], y1)]`,
      each end clamped on one side only. */
  function BrushYearsAsWritten(extent: (int, int), y0: int, y1: int): (r: (int, int))
    ensures r.0 >= extent.0 && r.1 <= extent.1
    ensures r.0 == (if y0 < extent.0 then extent.0 else y0)
    ensures r.1 == (if y1 > extent.1 then extent.1 else y1)
  {
    (if extent.0 > y0 then extent.0 else y0, if extent.1 < y1 then extent.1 else y1)
  }

  /** The x-axis is `nice()`d, so it can reach past the last year of the data: with data
      from 1985 to 2019 the axis runs to 2020, a brush at its right edge rounds to
      [2020, 2020], and the handler as written stores [2020, 2019], an inverted window
      whose start lies outside the extent. */
  lemma BrushYearsAsWrittenEscapes()
    ensures BrushYearsAsWritten((1985, 2019), 2020, 2020) == (2020, 2019)
    ensures var r := BrushYearsAsWritten((1985, 2019), 2020, 2020); r.0 > r.1 && r.0 > 2019
  {
  }

  /** The brush selection, already rounded to years and in order, with both ends clamped
      into the extent: the window always lies inside the extent and is never inverted. */
  function BrushYears(extent: (int, int), y0: int, y1: int): (r: (int, int))
    requires extent.0 <= extent.1 && y0 <= y1
    ensures extent.0 <= r.0 <= r.1 <= extent.1
    ensures extent.0 <= y0 && y1 <= extent.1 ==> r == (y0, y1)
  {
    (ClampYear(extent, y0), ClampYear(extent, y1))
  }

  /** The corrected clamp differs from the one as written only for a selection that misses
      the extent altogether. */
  lemma BrushYearsAgree(extent: (int, int), y0: int, y1: int)
    requires extent.0 <= extent.1 && y0 <= y1
    ensures y0 <= extent.1 && extent.0 <= y1 <==> BrushYears(extent, y0, y1) == BrushYearsAsWritten(extent, y0, y1)
  {
  }

  // ---- The filtered rows under a valid filter state

  /** Since the enabled categories are always known ones, a row of the "Unknown" category
      is never selected. */
  lemma FilteredHasNoUnknown(data: seq<Record>, years: (int, int), fado: set<string>)
    requires fado <= FadoSet
    ensures forall i :: 0 <= i < |FilteredData(data, years, fado)| ==>
      FilteredData(data, years, fado)[i].fado in FadoSet && FilteredData(data, years, fado)[i].fado != Unknown
  {
    UnknownIsNotACategory();
  }

  // ---- The brush events

  /** The two events of a d3 brush that the handler listens to: 'brush' while dragging,
      'end' on release. */
  datatype BrushEventType = BrushMove | BrushEnd

  /** The dashboard: the loaded table, its year extent `YEARS`, the filter state and the
      two flags of the range controller. */
  class Dashboard {
    /** The normalised rows, loaded once. */
    const data: seq<Record>
    /** `YEARS`: the least and the greatest year of the table. */
    const extent: (int, int)

    /** `state.years`: the year window. */
    var years: (int, int)
    /** `state.fado`: the enabled categories. */
    var fado: set<string>
    /** `programmaticBrush`: set while the controller moves the brush itself. */
    var programmaticBrush: bool
    /** `brushRaf != null`: a frame render of the bars and the summary is scheduled. */
    var renderPending: bool

    /** How many full refreshes (`updateAll`) have run. */
    ghost var updates: nat
    /** How many scheduled frame renders have run. */
    ghost var frameRenders: nat

    /** The filter state keeps its invariants: the window lies inside the extent and is
        not inverted, and only known categories are enabled. */
    ghost predicate Consistent()
      reads this
    {
      && Extent(data) == Some(extent)
      && extent.0 <= years.0 <= years.1 <= extent.1
      && fado <= FadoSet
    }

    /** Between two events: the state is consistent and the latch is released. */
    ghost predicate Valid()
      reads this
    {
      Consistent() && !programmaticBrush
    }

    /** Boot: the table is loaded, `state.years = YEARS`, every category is enabled, and
        the first refresh has been drawn. */
    constructor (rows: seq<Record>)
      requires rows != []
      ensures Valid()
      ensures data == rows && Extent(rows) == Some(extent)
      ensures years == extent && fado == FadoSet
      ensures !renderPending && updates == 1 && frameRenders == 0
    {
      data := rows;
      extent := Extent(rows).value;
      years := Extent(rows).value;
      fado := FadoSet;
      programmaticBrush := false;
      renderPending := false;
      updates := 1;
      frameRenders := 0;
    }

    /** filteredData(): the rows the views are drawn from; never a row of the "Unknown"
        category. */
    function Filtered(): (rows: seq<Record>)
      reads this
      requires Consistent()
      ensures |rows| <= |data|
      ensures forall i :: 0 <= i < |rows| ==>
        years.0 <= rows[i].year <= years.1 && rows[i].fado in fado && rows[i].fado != Unknown
    {
      FilteredHasNoUnknown(data, years, fado);
      FilteredData(data, years, fado)
    }

    /** updateAll(): redraws every view. Drawing the timeline re-aligns the brush with the
        state (`syncBrushToState`), which leaves the state as it is. */
    method UpdateAll()
      requires Valid()
      modifies this
      decreases 2
      ensures Valid()
      ensures years == old(years) && fado == old(fado) && renderPending == old(renderPending)
      ensures updates == old(updates) + 1 && frameRenders == old(frameRenders)
    {
      SyncBrushToState();
      updates := updates + 1;
    }

    /** syncBrushToState(): moves the brush to the window under the latch. The brush
        echoes the move as a 'brush' and an 'end' event, which the handler ignores because
        the latch is set; the latch is released on exit and nothing else changes. */
    method SyncBrushToState()
      requires Valid()
      modifies this
      decreases 1
      ensures Valid()
      ensures years == old(years) && fado == old(fado) && renderPending == old(renderPending)
      ensures updates == old(updates) && frameRenders == old(frameRenders)
    {
      programmaticBrush := true;
      var selection := if years == extent then None else Some(years);
      Brushed(BrushMove, selection);
      Brushed(BrushEnd, selection);
      programmaticBrush := false;
    }

    /** brushed(event): the brush handler, with the selection already turned into rounded
        years (`None` when the brush was cleared). Under the latch it does nothing. A
        cleared brush restores the full extent, refreshing only when the window was not
        already the extent. Otherwise the window becomes the clamped selection; a drag
        schedules one frame render when the window changed and none is pending, and a
        release refreshes every view. */
    method Brushed(kind: BrushEventType, selection: Option<(int, int)>)
      requires Consistent()
      requires selection.Some? ==> selection.value.0 <= selection.value.1
      modifies this
      decreases if programmaticBrush then 0 else 3
      ensures Consistent() && programmaticBrush == old(programmaticBrush)
      ensures frameRenders == old(frameRenders) && fado == old(fado)
      ensures old(programmaticBrush) ==>
        years == old(years) && updates == old(updates) && renderPending == old(renderPending)
      ensures !old(programmaticBrush) && selection.None? ==>
        && years == extent
        && updates == old(updates) + (if old(years) != extent then 1 else 0)
        && renderPending == old(renderPending)
      ensures !old(programmaticBrush) && selection.Some? ==>
        years == BrushYears(extent, selection.value.0, selection.value.1)
      ensures !old(programmaticBrush) && selection.Some? && kind == BrushEnd ==>
        updates == old(updates) + 1 && renderPending == old(renderPending)
      ensures !old(programmaticBrush) && selection.Some? && kind == BrushMove ==>
        updates == old(updates) && renderPending == (old(renderPending) || years != old(years))
    {
      if programmaticBrush {
        return;
      }
      if selection.None? {
        if years != extent {
          years := extent;
          SyncBrushToState();
          UpdateAll();
        }
        return;
      }
      var newYears := BrushYears(extent, selection.value.0, selection.value.1);
      var changed := newYears != years;
      years := newYears;
      SyncBrushToState();
      if kind == BrushMove {
        if !changed {
          return;
        }
        if renderPending {
          return;
        }
        renderPending := true;
      } else {
        UpdateAll();
      }
    }

    /** The frame callback scheduled by a drag: clears the handle and redraws the bars and
        the summary. */
    method AnimationFrame()
      requires Valid() && renderPending
      modifies this
      ensures Valid() && !renderPending
      ensures years == old(years) && fado == old(fado)
      ensures updates == old(updates) && frameRenders == old(frameRenders) + 1
    {
      renderPending := false;
      frameRenders := frameRenders + 1;
    }

    /** onInput(): while a thumb moves, only the readout follows, in order; the state is
        not touched. */
    method OnInput(a: int, b: int) returns (lo: int, hi: int)
      ensures lo <= hi && multiset{lo, hi} == multiset{a, b}
    {
      lo, hi := a, b;
      if lo > hi {
        lo, hi := hi, lo;
      }
    }

    /** commitSlider(): on release the thumbs, in order, become the window; the categories
        stay as they are; the brush follows and every view is refreshed once. The range
        inputs keep their values between `min` and `max`, the extent. */
    method CommitSlider(a: int, b: int)
      requires Valid()
      requires extent.0 <= a <= extent.1 && extent.0 <= b <= extent.1
      modifies this
      ensures Valid()
      ensures years == SliderYears(a, b) && fado == old(fado)
      ensures updates == old(updates) + 1 && renderPending == old(renderPending)
      ensures frameRenders == old(frameRenders)
    {
      years := SliderYears(a, b);
      SyncBrushToState();
      UpdateAll();
    }

    /** The "Select All" button: every category is enabled. */
    method SelectAll()
      requires Valid()
      modifies this
      ensures Valid()
      ensures fado == FadoSet && years == old(years)
      ensures updates == old(updates) + 1 && renderPending == old(renderPending)
      ensures frameRenders == old(frameRenders)
    {
      fado := FadoSet;
      UpdateAll();
    }

    /** The "Select None" button: no category is enabled, so nothing is selected. */
    method SelectNone()
      requires Valid()
      modifies this
      ensures Valid()
      ensures fado == {} && years == old(years) && Filtered() == []
      ensures updates == old(updates) + 1 && renderPending == old(renderPending)
      ensures frameRenders == old(frameRenders)
    {
      fado := {};
      UpdateAll();
      FilteredEmptyWithoutCategories(data, years);
    }

    /** A category checkbox, the `k`-th of FADO_ORDER: checking it adds that category,
        unchecking removes it, and no other category changes. */
    method ToggleCategory(k: nat, checked: bool)
      requires Valid() && k < |FadoOrder|
      modifies this
      ensures Valid()
      ensures fado == if checked then old(fado) + {FadoOrder[k]} else old(fado) - {FadoOrder[k]}
      ensures years == old(years)
      ensures updates == old(updates) + 1 && renderPending == old(renderPending)
      ensures frameRenders == old(frameRenders)
    {
      var v := FadoOrder[k];
      if checked {
        fado := fado + {v};
      } else {
        fado := fado - {v};
      }
      UpdateAll();
    }

    /** resetTimeline(), bound to Escape and to a click outside the chart: clears the
        brush under the latch, restores the full extent and keeps the categories. */
    method ResetTimeline()
      requires Valid()
      modifies this
      ensures Valid()
      ensures years == extent && fado == old(fado)
      ensures updates == old(updates) + 1 && renderPending == old(renderPending)
      ensures frameRenders == old(frameRenders)
    {
      programmaticBrush := true;
      Brushed(BrushMove, None);
      Brushed(BrushEnd, None);
      programmaticBrush := false;
      years := extent;
      SyncBrushToState();
      UpdateAll();
    }

    /** resetAll(), the "Reset" button: clears the brush under the latch, restores the full
        extent and enables every category again, whatever the state was before. */
    method ResetAll()
      requires Valid()
      modifies this
      ensures Valid()
      ensures years == extent && fado == FadoSet
      ensures updates == old(updates) + 1 && renderPending == old(renderPending)
      ensures frameRenders == old(frameRenders)
    {
      programmaticBrush := true;
      Brushed(BrushMove, None);
      Brushed(BrushEnd, None);
      programmaticBrush := false;
      years := extent;
      SyncBrushToState();
      fado := FadoSet;
      UpdateAll();
    }
  }
}
