/** The planner component: its state (the selected identifiers and the
    slider's hour), the handlers that change that state, and the rows the
    view derives from it. The reference clock, which only supplies today's
    date to the host's date/time facility, is not part of this model; the
    hour projection it feeds enters as a parameter. */
module Planner {
  import opened JsArray
  import opened Selection
  import opened Catalog
  import opened Hours

  /** One rendered row: the zone, its title (`tzLabel`), whether its remove control is
      shown, and its 24-cell strip. */
  datatype Row = Row(timezone: TimezoneId, title: string, removable: bool, strip: seq<Cell>)

  /** `selectedTimezones.map(timezone => ...)`: one row per selected zone, in
      selection order. `project(tz, h)` is the hour in zone `tz` at anchor
      hour `h` on the current date. */
  function Rows(catalog: seq<Zone>, selected: seq<TimezoneId>, project: (TimezoneId, int) -> int, sliderHour: int): (r: seq<Row>)
    ensures |r| == |selected|
    ensures forall i :: 0 <= i < |r| ==> r[i].timezone == selected[i] && |r[i].strip| == 24
    ensures forall i :: 0 <= i < |r| ==> r[i].title == LabelFor(catalog, selected[i]) && (r[i].removable <==> |selected| > 1)
    ensures forall i, h :: 0 <= i < |r| && 0 <= h < 24 ==>
              r[i].strip[h].actualHour == project(selected[i], h)
              && (r[i].strip[h].isWorking <==> 8 <= project(selected[i], h) < 18)
              && (r[i].strip[h].isCurrentHour <==> h == sliderHour)
  {
    seq(|selected|, i requires 0 <= i < |selected| =>
      var tz := selected[i];
      Row(tz, LabelFor(catalog, tz), RemoveOffered(selected), HourStrip(h => project(tz, h), sliderHour)))
  }

  /** Every row offers its remove control exactly when more than one zone is
      selected, so some row offers it exactly then. */
  lemma RemovableRows(catalog: seq<Zone>, selected: seq<TimezoneId>, project: (TimezoneId, int) -> int, sliderHour: int)
    ensures forall i :: 0 <= i < |selected| ==> (Rows(catalog, selected, project, sliderHour)[i].removable <==> |selected| > 1)
    ensures (exists i :: 0 <= i < |selected| && Rows(catalog, selected, project, sliderHour)[i].removable) <==> |selected| > 1
  {
    var r := Rows(catalog, selected, project, sliderHour);
    if |selected| > 1 {
      assert r[0].removable;
    }
  }

  /** Pressing the remove control of any row that shows one, on a
      duplicate-free selection, deletes exactly that row's zone and leaves at
      least one zone. */
  lemma DismissShownRow(catalog: seq<Zone>, selected: seq<TimezoneId>, project: (TimezoneId, int) -> int, sliderHour: int, i: nat)
    requires Distinct(selected) && i < |selected|
    requires Rows(catalog, selected, project, sliderHour)[i].removable
    ensures Removed(selected, Rows(catalog, selected, project, sliderHour)[i].timezone) == selected[..i] + selected[i + 1..]
    ensures Removed(selected, Rows(catalog, selected, project, sliderHour)[i].timezone) != []
  {
    RemovedAt(selected, i);
  }

  /** The state of `TimezoneMeetingPlanner`. */
  class MeetingPlanner {
    var selectedTimezones: seq<TimezoneId>
    var sliderHour: int

    /** The selection has no duplicates and is never empty; the slider stays
        in its declared range 0..23. */
    ghost predicate Valid()
      reads this
    {
      Distinct(selectedTimezones) && selectedTimezones != [] && 0 <= sliderHour <= 23
    }

    /** Mounting: the initial selection, and the slider at the hour of the
        host clock, which `Date.getHours` gives in 0..23. */
    constructor (clockHour: int)
      requires 0 <= clockHour <= 23
      ensures Valid()
      ensures selectedTimezones == INITIAL_SELECTION && sliderHour == clockHour
    {
      selectedTimezones := INITIAL_SELECTION;
      sliderHour := clockHour;
      InitialSelectionDistinct();
    }

    /** `addTimezone(tz)`. */
    method AddTimezone(tz: TimezoneId)
      requires Valid()
      modifies this
      ensures Valid()
      ensures selectedTimezones == Added(old(selectedTimezones), tz)
      ensures sliderHour == old(sliderHour)
    {
      AddedDistinct(selectedTimezones, tz);
      if tz !in selectedTimezones {
        selectedTimezones := selectedTimezones + [tz];
      }
    }

    /** `removeTimezone(tz)`, which on its own may empty the selection. */
    method RemoveTimezone(tz: TimezoneId)
      modifies this
      ensures selectedTimezones == Removed(old(selectedTimezones), tz)
      ensures old(Distinct(selectedTimezones)) ==> Distinct(selectedTimezones)
      ensures sliderHour == old(sliderHour)
    {
      if Distinct(selectedTimezones) {
        RemovedDistinct(selectedTimezones, tz);
      }
      selectedTimezones := Filter(selectedTimezones, t => t != tz);
    }

    /** A click on the remove control of the row of `tz`. The control exists
        only while more than one zone is selected; with one zone left there is
        nothing to click and the selection stays as it is. */
    method ClickRemove(tz: TimezoneId)
      requires Valid() && tz in selectedTimezones
      modifies this
      ensures Valid()
      ensures selectedTimezones == if RemoveOffered(old(selectedTimezones)) then Removed(old(selectedTimezones), tz) else old(selectedTimezones)
      ensures |selectedTimezones| >= |old(selectedTimezones)| - 1
      ensures sliderHour == old(sliderHour)
    {
      if |selectedTimezones| > 1 {
        GuardedRemoveNonEmpty(selectedTimezones, tz);
        RemoveTimezone(tz);
      }
    }

    /** The dropdown's `onChange`: the placeholder (value "") is ignored, any
        other value is one of the listed options and is added. */
    method ChooseOption(value: TimezoneId)
      requires Valid()
      requires value == "" || exists z :: z in AvailableZones(CATALOG, selectedTimezones) && z.value == value
      modifies this
      ensures Valid()
      ensures selectedTimezones == if value == "" then old(selectedTimezones) else old(selectedTimezones) + [value]
      ensures sliderHour == old(sliderHour)
    {
      if value != "" {
        var z :| z in AvailableZones(CATALOG, selectedTimezones) && z.value == value;
        ChosenOptionIsAppended(CATALOG, selectedTimezones, z);
        AddTimezone(value);
      }
    }

    /** The slider's `onChange`, whose input is declared with range 0..23. */
    method MoveSlider(value: int)
      requires Valid() && 0 <= value <= 23
      modifies this
      ensures Valid()
      ensures sliderHour == value && selectedTimezones == old(selectedTimezones)
    {
      sliderHour := value;
    }
  }

  /** A client of the component: remove zones down to the last one, whose
      remove control is gone, then add a zone twice. */
  method RemoveAndAddScenario()
  {
    var planner := new MeetingPlanner(12);
    assert planner.selectedTimezones == ["Europe/London", "Australia/Sydney"];
    RemovedAt(planner.selectedTimezones, 0);
    planner.ClickRemove("Europe/London");
    assert planner.selectedTimezones == ["Australia/Sydney"];
    planner.ClickRemove("Australia/Sydney");
    assert planner.selectedTimezones == ["Australia/Sydney"];
    planner.AddTimezone("Asia/Tokyo");
    assert planner.selectedTimezones == ["Australia/Sydney", "Asia/Tokyo"];
    planner.AddTimezone("Asia/Tokyo");
    assert planner.selectedTimezones == ["Australia/Sydney", "Asia/Tokyo"];
  }
}
