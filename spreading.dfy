// Gradient-cast and the distances built on it: one round of `share`'s body as
// a function of the neighbours' `(distance, data)` field and the metric field
// (it/unibo/collektive/stdlib/spreading/Spreading.kt).
module Spreading {
  import opened Base
  import opened FieldModel
  import FieldManipulation

  // ---------------------------------------------------------------------------
  // Kotlin's Int

  newtype Int32 = x: int | -0x8000_0000 <= x < 0x8000_0000

  const MinInt: Int32 := -0x8000_0000
  const MaxInt: Int32 := 0x7FFF_FFFF

  /** `Int::plus`: two's-complement addition, which wraps around on overflow. */
  function WrapAdd(a: Int32, b: Int32): (r: Int32)
    ensures (r as int - (a as int + b as int)) % 0x1_0000_0000 == 0
    ensures MinInt as int <= a as int + b as int <= MaxInt as int ==> r as int == a as int + b as int
  {
    var s := a as int + b as int;
    if s > MaxInt as int then (s - 0x1_0000_0000) as Int32
    else if s < MinInt as int then (s + 0x1_0000_0000) as Int32
    else s as Int32
  }

  /** Addition that sticks at the bounds instead of wrapping around. */
  function SaturatingAdd(a: Int32, b: Int32): (r: Int32)
    ensures MinInt as int <= a as int + b as int <= MaxInt as int ==> r as int == a as int + b as int
    ensures a as int + b as int > MaxInt as int ==> r == MaxInt
    ensures a as int + b as int < MinInt as int ==> r == MinInt
  {
    var s := a as int + b as int;
    if s > MaxInt as int then MaxInt else if s < MinInt as int then MinInt else s as Int32
  }

  /** `compareTo` on `Int`, read as `<=`. */
  function IntLe(a: Int32, b: Int32): bool
  {
    a <= b
  }

  lemma IntLeIsTotalPreorder()
    ensures TotalPreorder(IntLe)
  {
  }

  // ---------------------------------------------------------------------------
  // One neighbour's candidate

  /** The parameters of `gradientCast`, with `le(a, b)` standing for `a <= b` on distances. */
  datatype Gradient<!D, !X> = Gradient(bottom: D, top: D, le: (D, D) -> bool,
                                      accumulateData: (D, D, X) -> X, accumulateDistance: (D, D) -> D)

  /**
   * Kotlin's `coerceIn` on a `Comparable`: the lower bound for a value below
   * it, the upper bound for a value above it, the value itself otherwise.
   */
  function CoerceIn<D(!new)>(v: D, lo: D, hi: D, le: (D, D) -> bool): (r: D)
    requires le(lo, hi)
    ensures TotalPreorder(le) ==> le(lo, r) && le(r, hi)
    ensures le(lo, v) && le(v, hi) ==> r == v
    ensures !le(lo, v) ==> r == lo
    ensures le(lo, v) && !le(v, hi) ==> r == hi
  {
    if !le(lo, v) then lo else if !le(v, hi) then hi else v
  }

  /** `accumulateDistance(fromSource, toNeighbor).coerceIn(bottom, top)`. */
  function Total<D(!new), X>(g: Gradient<D, X>, fromSource: D, toNeighbor: D): D
    requires g.le(g.bottom, g.top)
  {
    CoerceIn(g.accumulateDistance(fromSource, toNeighbor), g.bottom, g.top, g.le)
  }

  /** The triangle-inequality `check` fails: the clamped total is below one of its two parts. */
  predicate Violates<D(!new), X>(g: Gradient<D, X>, fromSource: D, toNeighbor: D)
    requires g.le(g.bottom, g.top)
  {
    !(g.le(fromSource, Total(g, fromSource, toNeighbor)) && g.le(toNeighbor, Total(g, fromSource, toNeighbor)))
  }

  /**
   * The `alignedMap` lambda for one neighbour: the clamped total distance and
   * the accumulated data, or the `check`'s failure.
   */
  function Accumulate<D(!new), X>(g: Gradient<D, X>, fromSource: D, data: X, toNeighbor: D): (r: Result<(D, X)>)
    requires g.le(g.bottom, g.top)
    ensures r.Failure? <==> Violates(g, fromSource, toNeighbor)
    ensures r.Failure? ==> r.error == TriangleInequality
    ensures r.Success? ==> g.le(fromSource, r.value.0) && g.le(toNeighbor, r.value.0)
    ensures r.Success? && TotalPreorder(g.le) ==> g.le(g.bottom, r.value.0) && g.le(r.value.0, g.top)
    ensures r.Success? ==> r.value.0 == CoerceIn(g.accumulateDistance(fromSource, toNeighbor), g.bottom, g.top, g.le)
    ensures r.Success? ==> r.value.1 == g.accumulateData(fromSource, toNeighbor, data)
  {
    var totalDistance := Total(g, fromSource, toNeighbor);
    if g.le(fromSource, totalDistance) && g.le(toNeighbor, totalDistance)
    then Success((totalDistance, g.accumulateData(fromSource, toNeighbor, data)))
    else Failure(TriangleInequality)
  }

  // ---------------------------------------------------------------------------
  // All neighbours

  /** The neighbours `alignedMap` pairs up: those present in both fields. */
  function AlignedIds<ID, A, B>(neighborData: Field<ID, A>, metric: Field<ID, B>): set<ID>
  {
    neighborData.ExcludeSelf().Keys * metric.ExcludeSelf().Keys
  }

  /** The metric entry of an aligned neighbour, clamped to `[bottom, top]`. */
  function ClampedMetric<ID, D(!new), X>(g: Gradient<D, X>, metric: Field<ID, D>, id: ID): D
    requires g.le(g.bottom, g.top)
    requires id in metric.ExcludeSelf()
  {
    CoerceIn(metric.ExcludeSelf()[id], g.bottom, g.top, g.le)
  }

  /** The lambda's result for aligned neighbour `id`. */
  function CandidateOf<ID, D(!new), X>(g: Gradient<D, X>, neighborData: Field<ID, (D, X)>, metric: Field<ID, D>, id: ID): Result<(D, X)>
    requires g.le(g.bottom, g.top)
    requires id in AlignedIds(neighborData, metric)
  {
    var (fromSource, data) := neighborData.ExcludeSelf()[id];
    Accumulate(g, fromSource, data, ClampedMetric(g, metric, id))
  }

  /**
   * `paths`: every aligned neighbour's candidate, or the `check`'s failure
   * when any neighbour's candidate fails it.
   */
  function Candidates<ID, D(!new), X>(g: Gradient<D, X>, neighborData: Field<ID, (D, X)>, metric: Field<ID, D>)
    : (r: Result<map<ID, (D, X)>>)
    requires g.le(g.bottom, g.top)
    ensures r.Failure? <==> exists id :: id in AlignedIds(neighborData, metric) && CandidateOf(g, neighborData, metric, id).Failure?
    ensures r.Failure? ==> r.error == TriangleInequality
    ensures r.Success? ==> r.value.Keys == AlignedIds(neighborData, metric)
    ensures r.Success? ==> forall id :: id in r.value ==> r.value[id] == CandidateOf(g, neighborData, metric, id).value
  {
    var aligned := AlignedIds(neighborData, metric);
    if exists id :: id in aligned && CandidateOf(g, neighborData, metric, id).Failure?
    then Failure(TriangleInequality)
    else Success(map id | id in aligned :: CandidateOf(g, neighborData, metric, id).value)
  }

  /** Candidates ordered by their distance alone (`minBy`'s selector `it.first`). */
  function ByDistance<D, X>(le: (D, D) -> bool): ((D, X), (D, X)) -> bool
  {
    (p: (D, X), q: (D, X)) => le(p.0, q.0)
  }

  lemma ByDistanceIsTotalPreorder<D(!new), X(!new)>(le: (D, D) -> bool)
    requires TotalPreorder(le)
    ensures TotalPreorder(ByDistance<D, X>(le))
  {
    var f := ByDistance<D, X>(le);
    forall x: (D, X) ensures f(x, x) {
      assert le(x.0, x.0);
    }
    forall x: (D, X), y: (D, X) ensures f(x, y) || f(y, x) {
      assert le(x.0, y.0) || le(y.0, x.0);
    }
    forall x: (D, X), y: (D, X), z: (D, X) | f(x, y) && f(y, z) ensures f(x, z) {
      assert le(x.0, y.0) && le(y.0, z.0);
    }
  }

  /**
   * `minBy(base) { it.first }`: a candidate of least distance, or `base` when
   * there is none. Which of several equally near candidates is picked is left
   * open.
   */
  ghost function MinBy<ID, D(!new), X(!new)>(paths: map<ID, (D, X)>, base: (D, X), le: (D, D) -> bool): (r: (D, X))
    requires TotalPreorder(le)
    ensures paths == map[] ==> r == base
    ensures paths != map[] ==> exists id :: id in paths && paths[id] == r
    ensures forall id :: id in paths ==> le(r.0, paths[id].0)
  {
    if paths == map[] then base
    else
      var byDistance := ByDistance<D, X>(le);
      var id0 :| id0 in paths;
      assert paths[id0] in paths.Values;
      ByDistanceIsTotalPreorder<D, X>(le);
      var m := FieldManipulation.Reduce(paths.Values, byDistance);
      assert m.Success?;
      assert forall id :: id in paths ==> le(m.value.0, paths[id].0) by {
        forall id | id in paths ensures le(m.value.0, paths[id].0) {
          assert paths[id] in paths.Values;
          assert byDistance(m.value, paths[id]);
        }
      }
      m.value
  }

  /**
   * The value `share`'s body returns in one round: the failure of any
   * coercion or `check`; otherwise `(bottom, local)` at a source, and the
   * nearest candidate, or `(top, local)` when there is none, elsewhere.
   */
  ghost function GradientShare<ID, D(!new), X(!new)>(g: Gradient<D, X>, source: bool, local: X,
                                                     neighborData: Field<ID, (D, X)>, metric: Field<ID, D>)
    : (r: Result<(D, X)>)
    requires TotalPreorder(g.le)
    ensures r.Failure? <==>
      !g.le(g.bottom, g.top)
      || exists id :: id in AlignedIds(neighborData, metric) && CandidateOf(g, neighborData, metric, id).Failure?
    ensures r.Success? ==> g.le(g.bottom, r.value.0) && g.le(r.value.0, g.top)
    ensures r.Success? && source ==> r.value == (g.bottom, local)
    ensures r.Success? && !source && AlignedIds(neighborData, metric) == {} ==> r.value == (g.top, local)
    ensures r.Success? && !source && AlignedIds(neighborData, metric) != {} ==>
      && (exists id :: id in AlignedIds(neighborData, metric) && r.value == CandidateOf(g, neighborData, metric, id).value)
      && (forall id :: id in AlignedIds(neighborData, metric) ==> g.le(r.value.0, CandidateOf(g, neighborData, metric, id).value.0))
  {
    if !g.le(g.bottom, g.top) then Failure(EmptyRange)
    else
      match Candidates(g, neighborData, metric)
      case Failure(e) => Failure(e)
      case Success(paths) =>
        if source then Success((g.bottom, local))
        else
          var r := MinBy(paths, (g.top, local), g.le);
          assert paths != map[] ==> g.le(g.bottom, r.0) && g.le(r.0, g.top) by {
            if paths != map[] {
              var id :| id in paths && paths[id] == r;
            }
          }
          Success(r)
  }

  /** `gradientCast`: the data component of what `share`'s body returns. */
  ghost function GradientCast<ID, D(!new), X(!new)>(g: Gradient<D, X>, source: bool, local: X,
                                                    neighborData: Field<ID, (D, X)>, metric: Field<ID, D>): (r: Result<X>)
    requires TotalPreorder(g.le)
    ensures r.Failure? <==> GradientShare(g, source, local, neighborData, metric).Failure?
    ensures r.Success? ==> r.value == GradientShare(g, source, local, neighborData, metric).value.1
  {
    match GradientShare(g, source, local, neighborData, metric)
    case Failure(e) => Failure(e)
    case Success(p) => Success(p.1)
  }

  /**
   * With a well-formed range the only failure is the `check`; a source shares
   * `(bottom, local)`, and a device with no aligned neighbour `(top, local)`.
   */
  lemma GradientCastCases<ID, D(!new), X(!new)>(g: Gradient<D, X>, source: bool, local: X,
                                                neighborData: Field<ID, (D, X)>, metric: Field<ID, D>)
    requires TotalPreorder(g.le) && g.le(g.bottom, g.top)
    ensures GradientShare(g, source, local, neighborData, metric).Failure? ==>
      GradientShare(g, source, local, neighborData, metric).error == TriangleInequality
    ensures AlignedIds(neighborData, metric) == {} ==>
      GradientShare(g, source, local, neighborData, metric) == Success((if source then g.bottom else g.top, local))
    ensures GradientCast(g, source, local, neighborData, metric).Success? && (source || AlignedIds(neighborData, metric) == {}) ==>
      GradientCast(g, source, local, neighborData, metric).value == local
  {
  }

  /**
   * Every candidate's total lies in `[bottom, top]` and is at least both the
   * neighbour's distance and the clamped metric, which itself lies in
   * `[bottom, top]`.
   */
  lemma CandidatesInRange<ID, D(!new), X>(g: Gradient<D, X>, neighborData: Field<ID, (D, X)>, metric: Field<ID, D>, id: ID)
    requires TotalPreorder(g.le) && g.le(g.bottom, g.top)
    requires id in AlignedIds(neighborData, metric)
    ensures g.le(g.bottom, ClampedMetric(g, metric, id)) && g.le(ClampedMetric(g, metric, id), g.top)
    ensures CandidateOf(g, neighborData, metric, id).Success? ==>
      var total := CandidateOf(g, neighborData, metric, id).value.0;
      && g.le(g.bottom, total) && g.le(total, g.top)
      && g.le(neighborData.ExcludeSelf()[id].0, total) && g.le(ClampedMetric(g, metric, id), total)
  {
  }

  // ---------------------------------------------------------------------------
  // Distances

  /** `distanceTo`'s gradient: the data carried is the accumulated distance, whatever the neighbour's data was. */
  function DistanceGradient<D>(bottom: D, top: D, le: (D, D) -> bool, accumulateDistance: (D, D) -> D): Gradient<D, D>
  {
    Gradient(bottom, top, le, (fromSource: D, toNeighbor: D, _: D) => accumulateDistance(fromSource, toNeighbor), accumulateDistance)
  }

  /** `distanceTo`: a gradient whose local value is `bottom` at a source and `top` elsewhere. */
  ghost function DistanceTo<ID, D(!new)>(source: bool, bottom: D, top: D, le: (D, D) -> bool, accumulateDistance: (D, D) -> D,
                                        neighborData: Field<ID, (D, D)>, metric: Field<ID, D>): (r: Result<D>)
    requires TotalPreorder(le)
    ensures source && r.Success? ==> r.value == bottom
    ensures le(bottom, top) && AlignedIds(neighborData, metric) == {} ==> r == Success(if source then bottom else top)
    ensures le(bottom, top) && !source && r.Success? && AlignedIds(neighborData, metric) != {} ==>
      var g := DistanceGradient(bottom, top, le, accumulateDistance);
      exists id ::
        && id in AlignedIds(neighborData, metric)
        && r.value == accumulateDistance(neighborData.ExcludeSelf()[id].0, ClampedMetric(g, metric, id))
        && forall j :: j in AlignedIds(neighborData, metric) ==>
             le(Total(g, neighborData.ExcludeSelf()[id].0, ClampedMetric(g, metric, id)),
                Total(g, neighborData.ExcludeSelf()[j].0, ClampedMetric(g, metric, j)))
  {
    var g := DistanceGradient(bottom, top, le, accumulateDistance);
    var local := if source then bottom else top;
    assert le(bottom, top) && AlignedIds(neighborData, metric) == {} ==> GradientShare(g, source, local, neighborData, metric) == Success((local, local)) by {
      if le(bottom, top) {
        GradientCastCases(g, source, local, neighborData, metric);
      }
    }
    GradientCast(g, source, local, neighborData, metric)
  }

  /** A source that passes the `check` is at distance `bottom`. */
  lemma DistanceToAtSource<ID, D(!new)>(bottom: D, top: D, le: (D, D) -> bool, accumulateDistance: (D, D) -> D,
                                       neighborData: Field<ID, (D, D)>, metric: Field<ID, D>)
    requires TotalPreorder(le)
    ensures DistanceTo(true, bottom, top, le, accumulateDistance, neighborData, metric).Success? ==>
      DistanceTo(true, bottom, top, le, accumulateDistance, neighborData, metric).value == bottom
  {
  }

  /**
   * In `distanceTo` each candidate carries the unclamped accumulated distance
   * as its data, ignoring the neighbour's own data; it is the candidate's
   * distance whenever the accumulation stays within `[bottom, top]`.
   */
  lemma DistanceCarriesAccumulation<ID, D(!new)>(bottom: D, top: D, le: (D, D) -> bool, accumulateDistance: (D, D) -> D,
                                                neighborData: Field<ID, (D, D)>, metric: Field<ID, D>, id: ID)
    requires le(bottom, top)
    requires id in AlignedIds(neighborData, metric)
    ensures var g := DistanceGradient(bottom, top, le, accumulateDistance);
      var c := CandidateOf(g, neighborData, metric, id);
      var sum := accumulateDistance(neighborData.ExcludeSelf()[id].0, ClampedMetric(g, metric, id));
      c.Success? ==> c.value.1 == sum && (le(bottom, sum) && le(sum, top) ==> c.value.0 == sum)
  {
  }

  /** `neighboring(1)`: one for the device and for each of `neighbours`. */
  function Ones<ID>(localId: ID, neighbours: set<ID>): Field<ID, Int32>
  {
    Field(localId, 1, map id | id in neighbours :: 1)
  }

  /** `hopDistanceTo` as written: `distanceTo(source, 0, Int.MAX_VALUE, Int::plus) { neighboring(1) }`. */
  ghost function HopDistanceTo<ID>(source: bool, neighborData: Field<ID, (Int32, Int32)>, neighbours: set<ID>): (r: Result<Int32>)
    ensures source && r.Success? ==> r.value == 0
    ensures AlignedIds(neighborData, Ones(neighborData.localId, neighbours)) == {} ==> r == Success(if source then 0 else MaxInt)
    ensures !source && r.Success? && AlignedIds(neighborData, Ones(neighborData.localId, neighbours)) != {} ==>
      exists id :: id in AlignedIds(neighborData, Ones(neighborData.localId, neighbours)) &&
        r.value == WrapAdd(neighborData.ExcludeSelf()[id].0, 1)
    ensures !source && r.Success? ==>
      forall j :: j in AlignedIds(neighborData, Ones(neighborData.localId, neighbours)) ==>
        r.value as int <= neighborData.ExcludeSelf()[j].0 as int + 1
  {
    IntLeIsTotalPreorder();
    DistanceTo(source, 0, MaxInt, IntLe, WrapAdd, neighborData, Ones(neighborData.localId, neighbours))
  }

  /** A source that passes the `check` is at hop distance 0. */
  lemma HopDistanceAtSource<ID>(neighborData: Field<ID, (Int32, Int32)>, neighbours: set<ID>)
    ensures HopDistanceTo(true, neighborData, neighbours).Success? ==> HopDistanceTo(true, neighborData, neighbours).value == 0
  {
    IntLeIsTotalPreorder();
    DistanceToAtSource(0, MaxInt, IntLe, WrapAdd, neighborData, Ones(neighborData.localId, neighbours));
  }

  /**
   * As written, `hopDistanceTo` fails next to any aligned neighbour still at
   * `Int.MAX_VALUE` (the value every device starts from): `MAX_VALUE + 1`
   * wraps to `MIN_VALUE`, is clamped to 0, and 0 is below `MAX_VALUE`.
   */
  lemma HopDistanceFailsNextToTop<ID>(source: bool, neighborData: Field<ID, (Int32, Int32)>, neighbours: set<ID>, id: ID)
    requires id in AlignedIds(neighborData, Ones(neighborData.localId, neighbours))
    requires neighborData.ExcludeSelf()[id].0 == MaxInt
    ensures HopDistanceTo(source, neighborData, neighbours) == Failure(TriangleInequality)
  {
    IntLeIsTotalPreorder();
    var metric := Ones(neighborData.localId, neighbours);
    var g := DistanceGradient(0, MaxInt, IntLe, WrapAdd);
    assert metric.ExcludeSelf()[id] == 1;
    assert WrapAdd(MaxInt, 1) == MinInt;
    assert CandidateOf(g, neighborData, metric, id).Failure?;
  }

  /** `hopDistanceTo` with saturating addition in place of `Int::plus`. */
  ghost function HopDistanceToSaturating<ID>(source: bool, neighborData: Field<ID, (Int32, Int32)>, neighbours: set<ID>): Result<Int32>
  {
    IntLeIsTotalPreorder();
    DistanceTo(source, 0, MaxInt, IntLe, SaturatingAdd, neighborData, Ones(neighborData.localId, neighbours))
  }

  /** Adding two distances in `[0, MAX_VALUE]` with saturation gives at least either of them. */
  lemma SaturatingAddDominates(a: Int32, b: Int32)
    requires 0 <= a && 0 <= b
    ensures a <= SaturatingAdd(a, b) && b <= SaturatingAdd(a, b)
  {
  }

  /**
   * With saturating addition, non-negative distances never violate the
   * `check`, whatever the metric: the corrected gradient with `bottom = 0`
   * cannot fail.
   */
  lemma SaturatingNeverViolates<ID, X>(accumulateData: (Int32, Int32, X) -> X, neighborData: Field<ID, (Int32, X)>,
                                       metric: Field<ID, Int32>, id: ID)
    requires id in AlignedIds(neighborData, metric)
    requires 0 <= neighborData.ExcludeSelf()[id].0
    ensures CandidateOf(Gradient(0, MaxInt, IntLe, accumulateData, SaturatingAdd), neighborData, metric, id).Success?
  {
    var g := Gradient(0, MaxInt, IntLe, accumulateData, SaturatingAdd);
    var fromSource := neighborData.ExcludeSelf()[id].0;
    var toNeighbor := ClampedMetric(g, metric, id);
    SaturatingAddDominates(fromSource, toNeighbor);
  }

  /** With saturating addition, `hopDistanceTo` fails on no field whose distances are non-negative. */
  lemma HopDistanceSaturatingNeverFails<ID>(source: bool, neighborData: Field<ID, (Int32, Int32)>, neighbours: set<ID>)
    requires forall id :: id in neighborData.ExcludeSelf() ==> 0 <= neighborData.ExcludeSelf()[id].0
    ensures HopDistanceToSaturating(source, neighborData, neighbours).Success?
    ensures source ==> HopDistanceToSaturating(source, neighborData, neighbours).value == 0
  {
    IntLeIsTotalPreorder();
    var metric := Ones(neighborData.localId, neighbours);
    var g := DistanceGradient(0, MaxInt, IntLe, SaturatingAdd);
    forall id | id in AlignedIds(neighborData, metric) ensures CandidateOf(g, neighborData, metric, id).Success? {
      SaturatingNeverViolates(g.accumulateData, neighborData, metric, id);
    }
  }

  /** `gradientCast` over `Int`: `bottom = Int.MIN_VALUE`, `top = Int.MAX_VALUE`, accumulation by `Int::plus`. */
  ghost function GradientCastInt<ID, X(!new)>(source: bool, local: X, accumulateData: (Int32, Int32, X) -> X,
                                             neighborData: Field<ID, (Int32, X)>, metric: Field<ID, Int32>): (r: Result<X>)
    ensures source && r.Success? ==> r.value == local
    ensures AlignedIds(neighborData, metric) == {} ==> r == Success(local)
    ensures !source && r.Success? && AlignedIds(neighborData, metric) != {} ==>
      exists id ::
        && id in AlignedIds(neighborData, metric)
        && r.value == accumulateData(neighborData.ExcludeSelf()[id].0, metric.ExcludeSelf()[id], neighborData.ExcludeSelf()[id].1)
        && forall j :: j in AlignedIds(neighborData, metric) ==>
             WrapAdd(neighborData.ExcludeSelf()[id].0, metric.ExcludeSelf()[id])
               <= WrapAdd(neighborData.ExcludeSelf()[j].0, metric.ExcludeSelf()[j])
  {
    IntLeIsTotalPreorder();
    GradientCastCases(Gradient(MinInt, MaxInt, IntLe, accumulateData, WrapAdd), source, local, neighborData, metric);
    GradientCast(Gradient(MinInt, MaxInt, IntLe, accumulateData, WrapAdd), source, local, neighborData, metric)
  }

  /**
   * As written, `gradientCast` over `Int` fails next to any aligned source:
   * the source shares `Int.MIN_VALUE`, and `MIN_VALUE + m` is below a positive
   * metric `m`.
   */
  lemma GradientCastIntFailsNextToSource<ID, X(!new)>(source: bool, local: X, accumulateData: (Int32, Int32, X) -> X,
                                                     neighborData: Field<ID, (Int32, X)>, metric: Field<ID, Int32>, id: ID)
    requires id in AlignedIds(neighborData, metric)
    requires neighborData.ExcludeSelf()[id].0 == MinInt
    requires 0 < metric.ExcludeSelf()[id]
    ensures GradientCastInt(source, local, accumulateData, neighborData, metric) == Failure(TriangleInequality)
  {
    IntLeIsTotalPreorder();
    var g := Gradient(MinInt, MaxInt, IntLe, accumulateData, WrapAdd);
    assert CandidateOf(g, neighborData, metric, id).Failure?;
  }

  /** `gradientCast` over `Int` with distances from 0 and saturating addition. */
  ghost function GradientCastIntSaturating<ID, X(!new)>(source: bool, local: X, accumulateData: (Int32, Int32, X) -> X,
                                                       neighborData: Field<ID, (Int32, X)>, metric: Field<ID, Int32>): Result<X>
  {
    IntLeIsTotalPreorder();
    GradientCast(Gradient(0, MaxInt, IntLe, accumulateData, SaturatingAdd), source, local, neighborData, metric)
  }

  /**
   * The corrected `Int` gradient never fails on non-negative neighbour
   * distances, and a source gets its own value.
   */
  lemma GradientCastIntSaturatingNeverFails<ID, X(!new)>(source: bool, local: X, accumulateData: (Int32, Int32, X) -> X,
                                                        neighborData: Field<ID, (Int32, X)>, metric: Field<ID, Int32>)
    requires forall id :: id in neighborData.ExcludeSelf() ==> 0 <= neighborData.ExcludeSelf()[id].0
    ensures GradientCastIntSaturating(source, local, accumulateData, neighborData, metric).Success?
    ensures source ==> GradientCastIntSaturating(source, local, accumulateData, neighborData, metric).value == local
  {
    IntLeIsTotalPreorder();
    var g := Gradient(0, MaxInt, IntLe, accumulateData, SaturatingAdd);
    forall id | id in AlignedIds(neighborData, metric) ensures CandidateOf(g, neighborData, metric, id).Success? {
      SaturatingNeverViolates(accumulateData, neighborData, metric, id);
    }
  }
}
