/** The greatest element of a finite set of integers. */
module Maxima {
  import opened Wrappers

  lemma Pick<T>(s: set<T>) returns (x: T)
    requires s != {}
    ensures x in s
  {
    x :| x in s;
  }

  lemma {:induction false} Maximum(s: set<int>) returns (m: int)
    requires s != {}
    ensures m in s && forall k :: k in s ==> k <= m
    decreases |s|
  {
    m := Pick(s);
    var rest := s - {m};
    assert forall k :: k in s ==> k == m || k in rest;
    if rest != {} {
      var m' := Maximum(rest);
      if m' > m { m := m'; }
    }
  }

  lemma MaxExists(s: set<int>)
    requires s != {}
    ensures exists m :: m in s && forall k :: k in s ==> k <= m
  {
    var m := Maximum(s);
  }

  /** ORDER BY t DESC LIMIT 1, or MAX(t). */
  function MaxOf(s: set<int>): (r: Option<int>)
    ensures r.None? <==> s == {}
    ensures r.Some? ==> r.value in s && forall k :: k in s ==> k <= r.value
  {
    if s == {} then None else
      MaxExists(s);
      var m :| m in s && forall k :: k in s ==> k <= m;
      Some(m)
  }
}

/** The few SQL queries of the roll-up, over the set of keys a table holds for one node. */
module Queries {
  import opened Wrappers
  import opened Maxima

  function LastIn(keys: set<int>, lo: int, hi: int): (r: Option<int>)
    ensures r.None? <==> forall k :: k in keys ==> !(lo <= k < hi)
    ensures r.Some? ==> r.value in keys && lo <= r.value < hi
                        && forall k :: k in keys && lo <= k < hi ==> k <= r.value
  {
    var inside := set k | k in keys && lo <= k < hi;
    assert forall k :: k in keys && lo <= k < hi ==> k in inside;
    MaxOf(inside)
  }

  function LastBefore(keys: set<int>, hi: int): (r: Option<int>)
    ensures r.None? <==> forall k :: k in keys ==> !(k < hi)
    ensures r.Some? ==> r.value in keys && r.value < hi
                        && forall k :: k in keys && k < hi ==> k <= r.value
  {
    var below := set k | k in keys && k < hi;
    assert forall k :: k in keys && k < hi ==> k in below;
    MaxOf(below)
  }

  predicate Ascending(s: seq<int>) {
    forall i, j :: 0 <= i < j < |s| ==> s[i] < s[j]
  }

  /** The keys in ascending order: ORDER BY t. */
  function Sorted(keys: set<int>): (s: seq<int>)
    ensures Ascending(s)
    ensures forall k :: k in s <==> k in keys
  {
    match MaxOf(keys)
    case None => []
    case Some(m) => Sorted(keys - {m}) + [m]
  }

  /** distinctBuckets: the periods of the listed times that end before the boundary, first seen first. */
  function Distinct(times: seq<int>, boundary: int, start: int -> int): (out: seq<int>)
    ensures forall t :: t in times && start(t) < boundary ==> start(t) in out
  {
    if times == [] then [] else
      var n := |times| - 1;
      var out := Distinct(times[..n], boundary, start);
      var b := start(times[n]);
      assert times == times[..n] + [times[n]];
      if b < boundary && b !in out then out + [b] else out
  }

  function BucketsToRoll(keys: set<int>, after: int, boundary: int, start: int -> int): seq<int> {
    Distinct(Sorted(set k | k in keys && after <= k < boundary), boundary, start)
  }
}
