/**
 The order of a `std::map` keyed by addresses: neighbours of a key, and iteration.
 */
module OrderedKeys {
  import opened Wrappers

  lemma {:induction false} Maximum(keys: set<nat>) returns (k: nat)
    requires keys != {}
    ensures k in keys && forall j :: j in keys ==> j <= k
    decreases |keys|
  {
    k :| k in keys;
    var rest := keys - {k};
    if rest != {} {
      var m := Maximum(rest);
      assert forall j :: j in keys ==> j == k || j in rest;
      if k < m {
        k := m;
      }
    }
  }

  lemma HasMaximum(keys: set<nat>)
    requires keys != {}
    ensures exists k :: k in keys && forall j :: j in keys ==> j <= k
  {
    var k := Maximum(keys);
  }

  lemma {:induction false} Minimum(keys: set<nat>) returns (k: nat)
    requires keys != {}
    ensures k in keys && forall j :: j in keys ==> k <= j
    decreases |keys|
  {
    k :| k in keys;
    var rest := keys - {k};
    if rest != {} {
      var m := Minimum(rest);
      assert forall j :: j in keys ==> j == k || j in rest;
      if m < k {
        k := m;
      }
    }
  }

  lemma HasMinimum(keys: set<nat>)
    requires keys != {}
    ensures exists k :: k in keys && forall j :: j in keys ==> k <= j
  {
    var k := Minimum(keys);
  }

  /** The greatest key at or below `a`: one before `upper_bound(a)`. */
  function Floor(keys: set<nat>, a: nat): (r: Option<nat>)
    ensures r.None? ==> forall k :: k in keys ==> k > a
    ensures r.Some? ==> r.value in keys && r.value <= a && forall k :: k in keys && k <= a ==> k <= r.value
  {
    var below := set k | k in keys && k <= a;
    assert forall k :: k in keys && k <= a ==> k in below;
    if below == {} then
      None
    else
      HasMaximum(below);
      var k :| k in below && forall j :: j in below ==> j <= k;
      Some(k)
  }

  /** The least key at or above `a`: `lower_bound(a)`. */
  function Ceiling(keys: set<nat>, a: nat): (r: Option<nat>)
    ensures r.None? ==> forall k :: k in keys ==> k < a
    ensures r.Some? ==> r.value in keys && r.value >= a && forall k :: k in keys && k >= a ==> k >= r.value
  {
    var above := set k | k in keys && k >= a;
    assert forall k :: k in keys && k >= a ==> k in above;
    if above == {} then
      None
    else
      HasMinimum(above);
      var k :| k in above && forall j :: j in above ==> k <= j;
      Some(k)
  }

  /** All keys in ascending order: the iteration order of the map. */
  function Ascending(keys: set<nat>): (r: seq<nat>)
    ensures forall i, j :: 0 <= i < j < |r| ==> r[i] < r[j]
    ensures forall k :: k in keys <==> k in r
    decreases |keys|
  {
    match Ceiling(keys, 0)
    case None =>
      assert keys == {};
      []
    case Some(k) =>
      var rest := Ascending(keys - {k});
      assert forall i :: 0 <= i < |rest| ==> rest[i] in keys - {k};
      [k] + rest
  }
}
