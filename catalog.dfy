/** The fixed catalog of timezones the planner offers, and the two queries the
    view makes of it: the dropdown's options (the catalog minus what is already
    selected) and a row's label (the catalog label of its identifier, or the
    identifier itself). */
module Catalog {
  import opened JsArray
  import opened Selection

  /** One catalog entry: an IANA identifier and the name shown for it. */
  datatype Zone = Zone(value: TimezoneId, name: string)

  const CATALOG: seq<Zone> := [
    Zone("Europe/London", "London"),
    Zone("America/New_York", "New York"),
    Zone("America/Los_Angeles", "Los Angeles"),
    Zone("America/Chicago", "Chicago"),
    Zone("Europe/Paris", "Paris"),
    Zone("Europe/Berlin", "Berlin"),
    Zone("Asia/Tokyo", "Tokyo"),
    Zone("Asia/Shanghai", "Shanghai"),
    Zone("Asia/Singapore", "Singapore"),
    Zone("Asia/Dubai", "Dubai"),
    Zone("Australia/Sydney", "Sydney"),
    Zone("Pacific/Auckland", "Auckland"),
    Zone("Asia/Hong_Kong", "Hong Kong"),
    Zone("Asia/Kolkata", "Mumbai"),
    Zone("Europe/Moscow", "Moscow")
  ]

  /** No identifier appears in two entries. */
  ghost predicate DistinctValues(catalog: seq<Zone>) {
    forall i, j :: 0 <= i < j < |catalog| ==> catalog[i].value != catalog[j].value
  }

  /** The options the dropdown lists after its placeholder:
      `timezones.filter(tz => !selectedTimezones.includes(tz.value))`. */
  function AvailableZones(catalog: seq<Zone>, selected: seq<TimezoneId>): (r: seq<Zone>)
    ensures forall z :: z in r <==> z in catalog && z.value !in selected
  {
    Filter(catalog, (z: Zone) => z.value !in selected)
  }

  /** The label of a row: `timezones.find(tz => tz.value === id)?.label || id`.
      The `||` falls back to the identifier when no entry matches and also when
      the matching entry's label is the empty string. */
  function LabelFor(catalog: seq<Zone>, id: TimezoneId): (r: string)
    ensures r == id || exists i :: 0 <= i < |catalog| && catalog[i].value == id && catalog[i].name == r
    ensures r != id ==> exists i :: 0 <= i < |catalog| && catalog[i].value == id && catalog[i].name == r
                                    && (forall j :: 0 <= j < i ==> catalog[j].value != id)
    ensures (forall z :: z in catalog ==> z.value != id) ==> r == id
    ensures forall i :: 0 <= i < |catalog| && catalog[i].value == id && (forall j :: 0 <= j < i ==> catalog[j].value != id)
                        ==> r == (if catalog[i].name != "" then catalog[i].name else id)
    ensures id != "" ==> r != ""
  {
    match FindIndex(catalog, (z: Zone) => z.value == id)
    case None => id
    case Some(i) => if catalog[i].name != "" then catalog[i].name else id
  }

  /** The identifiers of the catalog are distinct, and the initial selection
      is drawn from it. */
  lemma CatalogWellFormed()
    ensures DistinctValues(CATALOG) && |CATALOG| == 15
    ensures forall id :: id in INITIAL_SELECTION ==> exists z :: z in CATALOG && z.value == id
  {
  }

  /** The dropdown keeps catalog order: the catalog can be cut anywhere and
      each part offered on its own. */
  lemma AvailableZonesInCatalogOrder(a: seq<Zone>, b: seq<Zone>, selected: seq<TimezoneId>)
    ensures AvailableZones(a + b, selected) == AvailableZones(a, selected) + AvailableZones(b, selected)
  {
    FilterConcat(a, b, (z: Zone) => z.value !in selected);
  }

  /** With nothing of the catalog selected, every entry is offered. */
  lemma AvailableZonesNoneSelected(catalog: seq<Zone>, selected: seq<TimezoneId>)
    requires forall z :: z in catalog ==> z.value !in selected
    ensures AvailableZones(catalog, selected) == catalog
  {
    FilterKeepsAll(catalog, (z: Zone) => z.value !in selected);
  }

  /** The dropdown's options are keyed by identifier: in a catalog with
      distinct identifiers, no two options share one. */
  lemma AvailableZonesDistinct(catalog: seq<Zone>, selected: seq<TimezoneId>)
    requires DistinctValues(catalog)
    ensures DistinctValues(AvailableZones(catalog, selected))
  {
    var key := (z: Zone) => z.value;
    assert DistinctBy(catalog, key);
    FilterDistinctBy(catalog, key, (z: Zone) => z.value !in selected);
    assert DistinctBy(AvailableZones(catalog, selected), key);
  }

  /** Choosing any option of the dropdown takes the append branch of
      `addTimezone`: the chosen identifier is new, and it lands last. */
  lemma ChosenOptionIsAppended(catalog: seq<Zone>, selected: seq<TimezoneId>, z: Zone)
    requires z in AvailableZones(catalog, selected)
    ensures z.value !in selected
    ensures Added(selected, z.value) == selected + [z.value]
  {
  }

  /** An identifier of a duplicate-free catalog whose label is not empty is
      shown under that label. */
  lemma LabelOfCatalogEntry(catalog: seq<Zone>, i: nat)
    requires DistinctValues(catalog) && i < |catalog| && catalog[i].name != ""
    ensures LabelFor(catalog, catalog[i].value) == catalog[i].name
  {
  }

  /** The catalog shows every identifier it knows under its label; two
      samples. */
  lemma CatalogLabels()
    ensures LabelFor(CATALOG, "Asia/Kolkata") == "Mumbai"
    ensures LabelFor(CATALOG, "Europe/London") == "London"
  {
    CatalogWellFormed();
    LabelOfCatalogEntry(CATALOG, 13);
    LabelOfCatalogEntry(CATALOG, 0);
  }
}
