/**
 * Keyed tables updated from an ordered list of (key, value) pairs, the way
 * the handlers' `setEventNames`, `setEventClassNames` and `setEntityRoutes`
 * walk a PHP array with `foreach`.
 */
module Tables {
  import opened Values

  /** The table after writing every pair in order; a later pair for a key overwrites an earlier one. */
  function Overlay<V>(m: map<string, V>, u: seq<(string, V)>): map<string, V>
    decreases |u|
  {
    if u == [] then m else Overlay(m, u[..|u| - 1])[u[|u| - 1].0 := u[|u| - 1].1]
  }

  /** Writing one pair first is the same as starting from the table with that pair written. */
  lemma {:induction false} OverlayCons<V>(m: map<string, V>, p: (string, V), u: seq<(string, V)>)
    ensures Overlay(m, [p] + u) == Overlay(m[p.0 := p.1], u)
    decreases |u|
  {
    if u == [] {
      assert ([p] + u)[..0] == [];
    } else {
      var w := [p] + u;
      assert w[..|w| - 1] == [p] + u[..|u| - 1];
      OverlayCons(m, p, u[..|u| - 1]);
    }
  }

  /**
   * Lookup after an overlay: a key is present iff it was present or some
   * pair names it; its value is that of the LAST pair naming it, or the
   * original value when no pair names it.
   */
  lemma {:induction false} OverlayLookup<V>(m: map<string, V>, u: seq<(string, V)>, k: string)
    ensures k in Overlay(m, u) <==> k in m || exists i :: 0 <= i < |u| && u[i].0 == k
    ensures (forall i :: 0 <= i < |u| ==> u[i].0 != k) && k in m ==> Overlay(m, u)[k] == m[k]
    ensures forall i :: 0 <= i < |u| && u[i].0 == k && (forall j :: i < j < |u| ==> u[j].0 != k) ==>
              k in Overlay(m, u) && Overlay(m, u)[k] == u[i].1
    decreases |u|
  {
    if u != [] {
      var n := |u| - 1;
      var pre := u[..n];
      OverlayLookup(m, pre, k);
      assert forall i :: 0 <= i < n ==> pre[i] == u[i];
      if u[n].0 != k {
        forall i | 0 <= i < |u| && u[i].0 == k && (forall j :: i < j < |u| ==> u[j].0 != k)
          ensures k in Overlay(m, u) && Overlay(m, u)[k] == u[i].1
        {
          assert i < n && pre[i].0 == k;
          assert forall j :: i < j < |pre| ==> pre[j].0 != k;
        }
      }
    }
  }

  /**
   * Applies pairs in order until `accepts` refuses one: answers the table
   * reached and, when a pair is refused, its index. Pairs after a refused one
   * are not applied; pairs before it stay applied.
   */
  function ApplyUntil<V>(m: map<string, V>, u: seq<(string, V)>, accepts: (string, V) -> bool)
    : (map<string, V>, Option<nat>)
    decreases |u|
  {
    if u == [] then (m, None)
    else if !accepts(u[0].0, u[0].1) then (m, Some(0))
    else
      var r := ApplyUntil(m[u[0].0 := u[0].1], u[1..], accepts);
      (r.0, if r.1.Some? then Some(r.1.value + 1) else None)
  }

  /**
   * ApplyUntil against the overlay: with no refusal the table is the overlay
   * of all pairs; with a refusal at index i every earlier pair was accepted,
   * pair i was refused, and the table is the overlay of exactly the pairs
   * before i.
   */
  lemma {:induction false} ApplyUntilSpec<V>(m: map<string, V>, u: seq<(string, V)>, accepts: (string, V) -> bool)
    ensures ApplyUntil(m, u, accepts).1.None? <==> forall i :: 0 <= i < |u| ==> accepts(u[i].0, u[i].1)
    ensures ApplyUntil(m, u, accepts).1.None? ==> ApplyUntil(m, u, accepts).0 == Overlay(m, u)
    ensures ApplyUntil(m, u, accepts).1.Some? ==>
              var i := ApplyUntil(m, u, accepts).1.value;
              && i < |u|
              && !accepts(u[i].0, u[i].1)
              && (forall j :: 0 <= j < i ==> accepts(u[j].0, u[j].1))
              && ApplyUntil(m, u, accepts).0 == Overlay(m, u[..i])
    decreases |u|
  {
    if u == [] {
    } else if !accepts(u[0].0, u[0].1) {
      assert u[..0] == [];
    } else {
      var m' := m[u[0].0 := u[0].1];
      var rest := u[1..];
      ApplyUntilSpec(m', rest, accepts);
      assert u == [u[0]] + rest;
      assert forall j :: 0 < j < |u| ==> u[j] == rest[j - 1];
      OverlayCons(m, u[0], rest);
      var r := ApplyUntil(m', rest, accepts);
      if r.1.Some? {
        var i := r.1.value;
        assert u[..i + 1] == [u[0]] + rest[..i];
        OverlayCons(m, u[0], rest[..i]);
      }
    }
  }

  /** One accepted step of ApplyUntil: the rest is applied to the updated table, and indices shift by one. */
  lemma ApplyUntilStep<V>(m: map<string, V>, u: seq<(string, V)>, i: nat, accepts: (string, V) -> bool)
    requires i < |u| && accepts(u[i].0, u[i].1)
    ensures var r := ApplyUntil(m, u[i..], accepts);
            var r' := ApplyUntil(m[u[i].0 := u[i].1], u[i + 1..], accepts);
            r.0 == r'.0 && (r.1.None? <==> r'.1.None?) && (r.1.Some? ==> r.1.value == r'.1.value + 1)
  {
    assert u[i..][0] == u[i];
    assert u[i..][1..] == u[i + 1..];
  }
}
