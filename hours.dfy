/** The working-hours classifier and the 24-cell strip drawn in every row.
    Cell `h` stands for hour `h` of the anchor zone (the host's local zone,
    captioned London); it shows the
    hour that instant has in the row's zone, is green when that hour is a
    working hour, and is ringed when `h` is the slider's hour. The projection
    from anchor hour to zone hour is the host's date/time facility and enters
    here as a function parameter. */
module Hours {

  /** `isWorkingHour(hour)`: the half-open window from 08:00 up to 18:00. */
  predicate IsWorkingHour(hour: int) {
    hour >= 8 && hour < 18
  }

  /** One cell of a row's strip. */
  datatype Cell = Cell(hour: int, actualHour: int, isWorking: bool, isCurrentHour: bool)

  /** `[...Array(24)].map((_, hour) => ...)` for one row, where `project`
      gives the row zone's hour for an anchor hour. */
  function HourStrip(project: int -> int, sliderHour: int): (r: seq<Cell>)
    ensures |r| == 24
    ensures forall h :: 0 <= h < 24 ==> r[h].hour == h && r[h].actualHour == project(h)
  {
    seq(24, h => Cell(h, project(h), IsWorkingHour(project(h)), h == sliderHour))
  }

  /** The classifier accepts exactly the hours 8 to 17: 8 is the first
      working hour and 18 the first hour after work. */
  lemma WorkingHourWindow(hour: int)
    ensures IsWorkingHour(hour) <==> 8 <= hour < 18
    ensures IsWorkingHour(8) && IsWorkingHour(17) && !IsWorkingHour(7) && !IsWorkingHour(18)
  {
  }

  /** A cell is green exactly when the zone's hour it shows lies in the
      working window, whatever the projection. */
  lemma StripWorkingCells(project: int -> int, sliderHour: int, h: int)
    requires 0 <= h < 24
    ensures HourStrip(project, sliderHour)[h].isWorking <==> 8 <= project(h) < 18
  {
  }

  /** For a slider hour in its range 0..23 exactly one cell is ringed, the
      one at the slider's hour; outside that range none is. */
  lemma StripCurrentCell(project: int -> int, sliderHour: int)
    ensures 0 <= sliderHour < 24 ==> HourStrip(project, sliderHour)[sliderHour].isCurrentHour
    ensures forall h :: 0 <= h < 24 && HourStrip(project, sliderHour)[h].isCurrentHour ==> h == sliderHour
  {
  }

  /** Under an identity projection, a strip is green from cell 8 through
      cell 17 and nowhere else. */
  lemma IdentityProjectionWorkingCells(sliderHour: int, h: int)
    requires 0 <= h < 24
    ensures HourStrip(x => x, sliderHour)[h].isWorking <==> 8 <= h <= 17
  {
  }
}
