// A registry of fields keyed by event, with `put` semantics (Fields.kt).
module Registry {
  import opened Base

  /** `FieldImpl()`: a field object; only its identity matters here. */
  class FieldImpl<X> {
    constructor()
    {
    }
  }

  /** No event is listed twice. */
  ghost predicate Distinct<X>(s: seq<X>)
  {
    forall i, j :: 0 <= i < j < |s| ==> s[i] != s[j]
  }

  /** A sequence without repeats has as many elements as the set of its elements. */
  lemma {:induction false} DistinctCardinality<X>(s: seq<X>)
    requires Distinct(s)
    ensures |set x | x in s| == |s|
  {
    if s != [] {
      var n := |s| - 1;
      DistinctCardinality(s[..n]);
      assert (set x | x in s) == (set x | x in s[..n]) + {s[n]} by {
        forall x | x in s ensures x in s[..n] || x == s[n] {
          var i :| 0 <= i < |s| && s[i] == x;
          if i < n { assert s[..n][i] == x; }
        }
      }
      assert forall i :: 0 <= i < n ==> s[..n][i] != s[n];
    }
  }

  /** The values of `m` at `keys`, in the order of `keys`. */
  function ValuesOf<X(==), F>(m: map<X, F>, keys: seq<X>): (r: seq<F>)
    requires forall i :: 0 <= i < |keys| ==> keys[i] in m
    ensures |r| == |keys|
    ensures forall i :: 0 <= i < |keys| ==> r[i] == m[keys[i]]
  {
    if keys == [] then [] else [m[keys[0]]] + ValuesOf(m, keys[1..])
  }

  /**
   * `Fields`: a `mutableMapOf` from events to fields. `order` is the map's
   * insertion order, which `values` follows.
   */
  class Fields<X(==)> {
    var fields: map<X, FieldImpl<X>>
    var order: seq<X>

    ghost predicate Valid()
      reads this
    {
      && Distinct(order)
      && (forall i :: 0 <= i < |order| ==> order[i] in fields)
      && (forall e :: e in fields ==> e in order)
    }

    constructor()
      ensures Valid()
      ensures fields == map[] && order == []
    {
      fields := map[];
      order := [];
    }

    /**
     * `addField(event)`: a fresh field is stored under `event`; the field it
     * replaces is returned, or `null` when the event is new. A new event goes
     * last in the insertion order; a known one keeps its place.
     */
    method AddField(event: X) returns (previous: Nullable<FieldImpl<X>>)
      requires Valid()
      modifies this
      ensures Valid()
      ensures event !in old(fields) ==> previous == Null
      ensures event in old(fields) ==> previous == NonNull(old(fields)[event])
      ensures event in fields && fresh(fields[event])
      ensures fields.Keys == old(fields).Keys + {event}
      ensures forall e :: e in old(fields) && e != event ==> fields[e] == old(fields)[e]
      ensures order == if event in old(fields) then old(order) else old(order) + [event]
    {
      if event in fields {
        previous := NonNull(fields[event]);
      } else {
        previous := Null;
        order := order + [event];
      }
      var field := new FieldImpl<X>();
      fields := fields[event := field];
    }

    /** `retrieveAllFields()`: one field per event added so far, in insertion order. */
    function RetrieveAllFields(): (r: seq<FieldImpl<X>>)
      reads this
      requires Valid()
      ensures |r| == |fields| == |order|
      ensures forall i :: 0 <= i < |order| ==> r[i] == fields[order[i]]
      ensures forall e :: e in fields ==> fields[e] in r
    {
      assert fields.Keys == set x | x in order;
      DistinctCardinality(order);
      var r := ValuesOf(fields, order);
      assert forall e :: e in fields ==> fields[e] in r by {
        forall e | e in fields ensures fields[e] in r {
          var i :| 0 <= i < |order| && order[i] == e;
          assert r[i] == fields[e];
        }
      }
      r
    }
  }
}
