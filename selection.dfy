/** The list of selected timezone identifiers and the two transitions the
    planner applies to it: `addTimezone` appends an identifier that is not yet
    present, `removeTimezone` filters an identifier out. The remove control
    is rendered only while more than one identifier is selected. */
module Selection {
  import opened JsArray

  /** An IANA zone name such as "Europe/London". */
  type TimezoneId = string

  /** The list the planner starts with. */
  const INITIAL_SELECTION: seq<TimezoneId> := ["Europe/London", "Australia/Sydney"]

  /** The list after `addTimezone(tz)`: unchanged when `tz` is already
      included, otherwise `[...s, tz]`. */
  function Added(s: seq<TimezoneId>, tz: TimezoneId): (r: seq<TimezoneId>)
    ensures tz in r
    ensures |s| <= |r| <= |s| + 1 && r[..|s|] == s
    ensures forall x :: x in r ==> x in s || x == tz
  {
    if tz in s then s else s + [tz]
  }

  /** The list after `removeTimezone(tz)`: `s.filter(t => t !== tz)`. */
  function Removed(s: seq<TimezoneId>, tz: TimezoneId): (r: seq<TimezoneId>)
    ensures tz !in r
    ensures forall x :: x != tz ==> (x in r <==> x in s)
  {
    Filter(s, t => t != tz)
  }

  /** Whether a row offers its remove control. */
  predicate RemoveOffered(s: seq<TimezoneId>) {
    |s| > 1
  }

  lemma InitialSelectionDistinct()
    ensures Distinct(INITIAL_SELECTION) && |INITIAL_SELECTION| == 2
  {
  }

  /** Adding an identifier twice is the same as adding it once. */
  lemma AddedIdempotent(s: seq<TimezoneId>, tz: TimezoneId)
    ensures Added(Added(s, tz), tz) == Added(s, tz)
  {
  }

  /** Adding an identifier already selected changes nothing; adding a fresh
      one puts it last, behind the earlier identifiers in their order. */
  lemma AddedCases(s: seq<TimezoneId>, tz: TimezoneId)
    ensures tz in s ==> Added(s, tz) == s
    ensures tz !in s ==> |Added(s, tz)| == |s| + 1 && Added(s, tz)[..|s|] == s && Added(s, tz)[|s|] == tz
  {
  }

  /** Add keeps the list free of duplicates. */
  lemma AddedDistinct(s: seq<TimezoneId>, tz: TimezoneId)
    requires Distinct(s)
    ensures Distinct(Added(s, tz))
  {
  }

  /** Remove keeps the list free of duplicates. */
  lemma RemovedDistinct(s: seq<TimezoneId>, tz: TimezoneId)
    requires Distinct(s)
    ensures Distinct(Removed(s, tz))
  {
    FilterDistinct(s, t => t != tz);
  }

  /** Removing an identifier that is not selected changes nothing. */
  lemma RemovedAbsent(s: seq<TimezoneId>, tz: TimezoneId)
    requires tz !in s
    ensures Removed(s, tz) == s
  {
    FilterKeepsAll(s, t => t != tz);
  }

  /** Remove keeps the other identifiers in their relative order: the list
      can be cut anywhere and each part filtered on its own. */
  lemma RemovedConcat(a: seq<TimezoneId>, b: seq<TimezoneId>, tz: TimezoneId)
    ensures Removed(a + b, tz) == Removed(a, tz) + Removed(b, tz)
  {
    FilterConcat(a, b, t => t != tz);
  }

  /** On a duplicate-free list, removing the identifier at position `i`
      deletes exactly that position and nothing else. */
  lemma RemovedAt(s: seq<TimezoneId>, i: nat)
    requires Distinct(s) && i < |s|
    ensures Removed(s, s[i]) == s[..i] + s[i + 1..]
    ensures |Removed(s, s[i])| == |s| - 1
  {
    var tz, front, back := s[i], s[..i], s[i + 1..];
    assert s == front + [tz] + back;
    assert tz !in front by {
      forall k | 0 <= k < |front| ensures front[k] != tz { assert front[k] == s[k]; }
    }
    assert tz !in back by {
      forall k | 0 <= k < |back| ensures back[k] != tz { assert back[k] == s[i + 1 + k]; }
    }
    calc {
      Removed(s, tz);
      { RemovedConcat(front + [tz], back, tz); }
      Removed(front + [tz], tz) + Removed(back, tz);
      { RemovedConcat(front, [tz], tz); }
      Removed(front, tz) + Removed([tz], tz) + Removed(back, tz);
      { RemovedAbsent(front, tz); RemovedAbsent(back, tz); }
      front + [] + back;
    }
  }

  /** Adding a fresh identifier and then removing it restores the list. */
  lemma AddThenRemove(s: seq<TimezoneId>, tz: TimezoneId)
    requires tz !in s
    ensures Removed(Added(s, tz), tz) == s
  {
    RemovedConcat(s, [tz], tz);
    RemovedAbsent(s, tz);
    assert Removed([tz], tz) == [];
  }

  /** Removal is offered only while more than one identifier is selected,
      so on a duplicate-free list a removal the UI allows never empties it. */
  lemma GuardedRemoveNonEmpty(s: seq<TimezoneId>, tz: TimezoneId)
    requires Distinct(s) && RemoveOffered(s)
    ensures Removed(s, tz) != []
    ensures |Removed(s, tz)| >= |s| - 1
  {
    if tz in s {
      var i :| 0 <= i < |s| && s[i] == tz;
      RemovedAt(s, i);
    } else {
      RemovedAbsent(s, tz);
    }
  }
}
