// A field: one device's view of a value across itself and its aligned neighbours.
module FieldModel {

  /**
   * The owning device's own entry is held apart from the neighbour entries, so
   * a field always has its local entry; `ToMap` lays it over the neighbours,
   * which is the `(localId, map)` view the source builds and reads.
   */
  datatype Field<ID, V> = Field(localId: ID, local: V, neighbors: map<ID, V>)
  {
    /** Every entry, local one included (`toMap`). */
    function ToMap(): (m: map<ID, V>)
      ensures localId in m && m[localId] == local
      ensures m.Keys == neighbors.Keys + {localId}
      ensures forall id :: id in neighbors && id != localId ==> m[id] == neighbors[id]
    {
      neighbors[localId := local]
    }

    /** The neighbour entries only (`excludeSelf`). */
    function ExcludeSelf(): (m: map<ID, V>)
      ensures localId !in m
      ensures m.Keys == ToMap().Keys - {localId}
      ensures forall id :: id in m ==> m[id] == ToMap()[id]
    {
      neighbors - {localId}
    }
  }

  /** The field whose entries are exactly `m`; `m` carries the local entry. */
  function FromMap<ID, V>(localId: ID, m: map<ID, V>): (f: Field<ID, V>)
    requires localId in m
    ensures f.localId == localId && f.ToMap() == m
  {
    Field(localId, m[localId], m - {localId})
  }
}
