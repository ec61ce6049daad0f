// Reductions and transforms on fields (field/FieldManipulation.kt).
module FieldManipulation {
  import opened Base
  import opened FieldModel

  /** The entries `min`/`max` range over: all of them, or the neighbours only. */
  function HandleIncludingSelf<ID, T>(f: Field<ID, T>, includingSelf: bool): (m: map<ID, T>)
    ensures includingSelf ==> m.Keys == f.neighbors.Keys + {f.localId}
    ensures !includingSelf ==> f.localId !in m
    ensures !includingSelf ==> m.Keys == f.ToMap().Keys - {f.localId}
    ensures forall id :: id in m ==> id in f.ToMap() && m[id] == f.ToMap()[id]
  {
    if includingSelf then f.ToMap() else f.ExcludeSelf()
  }

  /**
   * Kotlin's `reduce` with the step `if (better(acc, y)) acc else y`: it throws
   * on an empty collection, otherwise it keeps one of the values. The order in
   * which the collection is visited is not modelled (a value is picked).
   */
  ghost function Reduce<T(!new)>(values: set<T>, better: (T, T) -> bool): (r: Result<T>)
    ensures r.Failure? <==> values == {}
    ensures r.Failure? ==> r.error == EmptyCollection
    ensures r.Success? ==> r.value in values
    ensures r.Success? && TotalPreorder(better) ==> forall v :: v in values ==> better(r.value, v)
    decreases values
  {
    if values == {} then Failure(EmptyCollection)
    else
      var y :| y in values;
      var rest := values - {y};
      if rest == {} then
        assert values == {y};
        Success(y)
      else
        var acc := Reduce(rest, better).value;
        var kept := if better(acc, y) then acc else y;
        assert TotalPreorder(better) ==> forall v :: v in values ==> better(kept, v) by {
          if TotalPreorder(better) {
            forall v | v in values ensures better(kept, v) {
              if v != y { assert better(acc, v); }
            }
          }
        }
        Success(kept)
  }

  /** `min(includingSelf)`. */
  ghost function Min<ID, T(!new)>(f: Field<ID, T>, includingSelf: bool, le: (T, T) -> bool): (r: Result<T>)
    ensures r.Failure? <==> !includingSelf && f.ExcludeSelf() == map[]
    ensures r.Success? ==> r.value in HandleIncludingSelf(f, includingSelf).Values
    ensures r.Success? && TotalPreorder(le) ==>
      forall id :: id in HandleIncludingSelf(f, includingSelf) ==> le(r.value, HandleIncludingSelf(f, includingSelf)[id])
  {
    var values := HandleIncludingSelf(f, includingSelf);
    assert includingSelf ==> f.local in values.Values by {
      if includingSelf { assert values[f.localId] == f.local; }
    }
    assert values == map[] <==> values.Values == {} by {
      if values != map[] { var id :| id in values; assert values[id] in values.Values; }
    }
    Reduce(values.Values, le)
  }

  /** `max(includingSelf)`: the reduction keeps `x` when `x >= y`. */
  ghost function Max<ID, T(!new)>(f: Field<ID, T>, includingSelf: bool, le: (T, T) -> bool): (r: Result<T>)
    ensures r.Failure? <==> !includingSelf && f.ExcludeSelf() == map[]
    ensures r.Success? ==> r.value in HandleIncludingSelf(f, includingSelf).Values
    ensures r.Success? && TotalPreorder(le) ==>
      forall id :: id in HandleIncludingSelf(f, includingSelf) ==> le(HandleIncludingSelf(f, includingSelf)[id], r.value)
  {
    var values := HandleIncludingSelf(f, includingSelf);
    assert includingSelf ==> f.local in values.Values by {
      if includingSelf { assert values[f.localId] == f.local; }
    }
    assert values == map[] <==> values.Values == {} by {
      if values != map[] { var id :| id in values; assert values[id] in values.Values; }
    }
    var ge := (x, y) => le(y, x);
    assert TotalPreorder(le) ==> TotalPreorder(ge);
    var r := Reduce(values.Values, ge);
    assert r.Success? && TotalPreorder(le) ==> forall id :: id in values ==> le(values[id], r.value) by {
      if r.Success? && TotalPreorder(le) {
        forall id | id in values ensures le(values[id], r.value) {
          assert values[id] in values.Values;
          assert ge(r.value, values[id]);
        }
      }
    }
    r
  }

  /**
   * `a + b` as written: the element-wise sums are built and thrown away, and
   * the left operand is returned.
   */
  function Plus<ID, T>(a: Field<ID, T>, b: Field<ID, T>): (r: Field<ID, T>)
    ensures r == a
  {
    a
  }

  /**
   * The sum `plus` evidently means to return: over the left operand's entries,
   * each plus the right operand's entry for the same id, or `zero` when the
   * right operand has none.
   */
  function SummedPlus<ID, T>(a: Field<ID, T>, b: Field<ID, T>, add: (T, T) -> T, zero: T): (r: Field<ID, T>)
    ensures r.localId == a.localId && r.ToMap().Keys == a.ToMap().Keys
    ensures forall id :: id in a.ToMap() ==>
      r.ToMap()[id] == add(a.ToMap()[id], if id in b.ToMap() then b.ToMap()[id] else zero)
  {
    var left := a.ToMap();
    var right := b.ToMap();
    FromMap(a.localId, map id | id in left :: add(left[id], if id in right then right[id] else zero))
  }

  /** A right-hand value the sum should see and `Plus` ignores. */
  lemma PlusDropsRightOperand()
    ensures Plus(Field(0, 1, map[]), Field(0, 2, map[])).local == 1
    ensures SummedPlus(Field(0, 1, map[]), Field(0, 2, map[]), (x: int, y: int) => x + y, 0).local == 3
  {
    var s := SummedPlus(Field(0, 1, map[]), Field(0, 2, map[]), (x: int, y: int) => x + y, 0);
    assert s.ToMap()[0] == 3;
  }

  /** `map(function)`: the field rebuilt over every entry, keeping `localId`. */
  function Map<ID, A, B>(f: Field<ID, A>, function_: A -> B): (r: Field<ID, B>)
    ensures r.localId == f.localId
    ensures r.ToMap().Keys == f.ToMap().Keys
    ensures forall id :: id in f.ToMap() ==> r.ToMap()[id] == function_(f.ToMap()[id])
  {
    var messages := f.ToMap();
    FromMap(f.localId, map id | id in messages :: function_(messages[id]))
  }
}
