/** The three JavaScript array primitives the planner relies on, as functions
    on sequences: `Array.prototype.filter` (used to remove a selected zone and
    to build the dropdown), `Array.prototype.find` (used to look up a zone's
    label) and, implicitly through `includes`, membership. Filter keeps the
    elements its callback accepts in their original order; find yields the
    first element its callback accepts, or nothing. */
module JsArray {

  datatype Option<T> = None | Some(value: T)

  /** No element occurs twice. */
  ghost predicate Distinct<T>(s: seq<T>) {
    forall i, j :: 0 <= i < j < |s| ==> s[i] != s[j]
  }

  /** `s.filter(keep)`: the elements of `s` that `keep` accepts, in order. */
  function Filter<T(==,!new)>(s: seq<T>, keep: T -> bool): (r: seq<T>)
    ensures |r| <= |s|
    ensures forall x :: x in r <==> x in s && keep(x)
  {
    if s == [] then []
    else (if keep(s[0]) then [s[0]] else []) + Filter(s[1..], keep)
  }

  /** Filtering a concatenation filters each part and keeps the parts in
      order: the survivors keep their relative order. */
  lemma {:induction false} FilterConcat<T(!new)>(a: seq<T>, b: seq<T>, keep: T -> bool)
    ensures Filter(a + b, keep) == Filter(a, keep) + Filter(b, keep)
  {
    if a == [] {
      assert a + b == b;
    } else {
      assert (a + b)[1..] == a[1..] + b;
      FilterConcat(a[1..], b, keep);
    }
  }

  /** A filter that rejects nothing returns its input unchanged. */
  lemma {:induction false} FilterKeepsAll<T(!new)>(s: seq<T>, keep: T -> bool)
    requires forall x :: x in s ==> keep(x)
    ensures Filter(s, keep) == s
  {
    if s != [] {
      assert forall x :: x in s[1..] ==> x in s;
      FilterKeepsAll(s[1..], keep);
      assert [s[0]] + s[1..] == s;
    }
  }

  /** No two elements share a key. */
  ghost predicate DistinctBy<T, K>(s: seq<T>, key: T -> K) {
    forall i, j :: 0 <= i < j < |s| ==> key(s[i]) != key(s[j])
  }

  /** Filtering never makes two survivors share a key. */
  lemma {:induction false} FilterDistinctBy<T(!new), K>(s: seq<T>, key: T -> K, keep: T -> bool)
    requires DistinctBy(s, key)
    ensures DistinctBy(Filter(s, keep), key)
  {
    if s != [] {
      assert DistinctBy(s[1..], key) by {
        forall i, j | 0 <= i < j < |s[1..]| ensures key(s[1..][i]) != key(s[1..][j]) {
          assert s[1..][i] == s[i + 1] && s[1..][j] == s[j + 1];
        }
      }
      FilterDistinctBy(s[1..], key, keep);
      var rest := Filter(s[1..], keep);
      assert forall x :: x in rest ==> key(x) != key(s[0]) by {
        forall x | x in rest ensures key(x) != key(s[0]) {
          var k :| 0 <= k < |s[1..]| && s[1..][k] == x;
          assert s[1..][k] == s[k + 1];
        }
      }
      var head := if keep(s[0]) then [s[0]] else [];
      forall i, j | 0 <= i < j < |head + rest| ensures key((head + rest)[i]) != key((head + rest)[j]) {
        if i < |head| {
          assert (head + rest)[j] in rest;
        } else {
          assert (head + rest)[i] == rest[i - |head|] && (head + rest)[j] == rest[j - |head|];
        }
      }
    }
  }

  /** Filtering never introduces a duplicate. */
  lemma FilterDistinct<T(!new)>(s: seq<T>, keep: T -> bool)
    requires Distinct(s)
    ensures Distinct(Filter(s, keep))
  {
    var id := (x: T) => x;
    assert DistinctBy(s, id);
    FilterDistinctBy(s, id, keep);
    assert DistinctBy(Filter(s, keep), id);
  }

  /** `s.findIndex(accept)` as an Option: the position of the first element
      that `accept` accepts. `s.find(accept)` is the element at that
      position. */
  function FindIndex<T>(s: seq<T>, accept: T -> bool): (r: Option<nat>)
    ensures r.Some? ==> r.value < |s| && accept(s[r.value])
    ensures r.Some? ==> forall j :: 0 <= j < r.value ==> !accept(s[j])
    ensures r.None? ==> forall j :: 0 <= j < |s| ==> !accept(s[j])
  {
    if s == [] then None
    else if accept(s[0]) then Some(0)
    else match FindIndex(s[1..], accept)
      case None => None
      case Some(k) => Some(k + 1)
  }
}
