// The per-round outbound envelope: one default payload per path plus
// per-receiver override buckets, materialised into one payload per receiver
// (it/unibo/collektive/networking/OutboundEnvelope.kt).
module Networking {
  import opened Base

  /** `SharedData`: the value every neighbour gets, and the values some neighbours get instead. */
  datatype SharedData<ID, V> = SharedData(default: V, overrides: map<ID, V>)

  /** `PayloadRepresentation`: a value and the sharing method (serialiser) for its type. */
  datatype Payload<V, M> = Payload(value: V, sharingMethod: M)

  /** One receiver's override bucket: `(path, payload)` pairs in insertion order. */
  type Bucket<K, V, M> = seq<(K, Payload<V, M>)>

  /** The envelope's two maps. */
  datatype Envelope<ID, K, V, M> = Envelope(defaults: map<K, Payload<V, M>>, overrides: map<ID, Bucket<K, V, M>>)

  // ---------------------------------------------------------------------------
  // Buckets

  /** `List<Pair>.toMap()`: a later pair for the same path wins. */
  function BucketToMap<K(==), V, M>(bucket: Bucket<K, V, M>): map<K, Payload<V, M>>
  {
    if bucket == [] then map[]
    else
      var n := |bucket| - 1;
      BucketToMap(bucket[..n])[bucket[n].0 := bucket[n].1]
  }

  /** The paths a bucket lists. */
  ghost function Paths<K, V, M>(bucket: Bucket<K, V, M>): set<K>
  {
    set i | 0 <= i < |bucket| :: bucket[i].0
  }

  /** A bucket's map has exactly the bucket's paths as keys. */
  lemma {:induction false} BucketToMapKeys<K, V, M>(bucket: Bucket<K, V, M>)
    ensures BucketToMap(bucket).Keys == Paths(bucket)
  {
    if bucket != [] {
      var n := |bucket| - 1;
      BucketToMapKeys(bucket[..n]);
      assert Paths(bucket) == Paths(bucket[..n]) + {bucket[n].0} by {
        forall k | k in Paths(bucket) ensures k in Paths(bucket[..n]) + {bucket[n].0} {
          var i :| 0 <= i < |bucket| && bucket[i].0 == k;
          if i < n { assert bucket[..n][i] == bucket[i]; }
        }
        forall k | k in Paths(bucket[..n]) ensures k in Paths(bucket) {
          var i :| 0 <= i < n && bucket[..n][i].0 == k;
          assert bucket[i].0 == k;
        }
      }
    }
  }

  /** No path is listed twice. */
  ghost predicate DistinctPaths<K, V, M>(bucket: Bucket<K, V, M>)
  {
    forall i, j :: 0 <= i < j < |bucket| ==> bucket[i].0 != bucket[j].0
  }

  /** In a bucket without repeated paths, each pair's payload is what the bucket's map holds at its path. */
  lemma {:induction false} BucketToMapValues<K, V, M>(bucket: Bucket<K, V, M>, i: int)
    requires DistinctPaths(bucket)
    requires 0 <= i < |bucket|
    ensures bucket[i].0 in BucketToMap(bucket) && BucketToMap(bucket)[bucket[i].0] == bucket[i].1
  {
    var n := |bucket| - 1;
    if i < n {
      assert bucket[..n][i] == bucket[i];
      BucketToMapValues(bucket[..n], i);
    }
  }

  // ---------------------------------------------------------------------------
  // The envelope as a value

  /** Every path of every bucket has a default, and no bucket lists a path twice. */
  ghost predicate WellFormed<ID, K, V, M>(e: Envelope<ID, K, V, M>)
  {
    && (forall id, i :: id in e.overrides && 0 <= i < |e.overrides[id]| ==> e.overrides[id][i].0 in e.defaults)
    && (forall id :: id in e.overrides ==> DistinctPaths(e.overrides[id]))
  }

  /** The bucket of `id`, empty when it has none (`getOrPut(id) { mutableListOf() }`). */
  function BucketOf<ID(==), K, V, M>(overrides: map<ID, Bucket<K, V, M>>, id: ID): Bucket<K, V, M>
  {
    if id in overrides then overrides[id] else []
  }

  /**
   * `addData(path, data, sharingMethod)`. A second default for the same path is
   * an alignment clash and records nothing. Otherwise the default is recorded
   * at `path` and each override `(id, v)` is appended to `id`'s bucket, which
   * is created when absent.
   */
  ghost function AddDataSpec<ID, K, V, M>(e: Envelope<ID, K, V, M>, path: K, data: SharedData<ID, V>, sharingMethod: M)
    : (r: (Outcome, Envelope<ID, K, V, M>))
    ensures r.0.Fail? <==> path in e.defaults
    ensures r.0.Fail? ==> r.0.error == AlignmentClash && r.1 == e
    ensures r.0.Pass? ==>
      && r.1.defaults.Keys == e.defaults.Keys + {path}
      && r.1.defaults[path] == Payload(data.default, sharingMethod)
      && (forall k :: k in e.defaults ==> r.1.defaults[k] == e.defaults[k])
    ensures r.0.Pass? ==> forall id :: id in data.overrides ==>
      id in r.1.overrides && r.1.overrides[id] == BucketOf(e.overrides, id) + [(path, Payload(data.overrides[id], sharingMethod))]
    ensures r.0.Pass? ==> r.1.overrides.Keys == e.overrides.Keys + data.overrides.Keys
    ensures r.0.Pass? ==> forall id :: id in e.overrides && id !in data.overrides ==> r.1.overrides[id] == e.overrides[id]
  {
    if path in e.defaults then (Fail(AlignmentClash), e)
    else
      var overrides := map id | id in e.overrides.Keys + data.overrides.Keys ::
        if id in data.overrides then BucketOf(e.overrides, id) + [(path, Payload(data.overrides[id], sharingMethod))]
        else e.overrides[id];
      (Pass, Envelope(e.defaults[path := Payload(data.default, sharingMethod)], overrides))
  }

  /** `addData` keeps every bucket path backed by a default and every bucket free of repeats. */
  lemma AddDataKeepsWellFormed<ID, K, V, M>(e: Envelope<ID, K, V, M>, path: K, data: SharedData<ID, V>, sharingMethod: M)
    requires WellFormed(e)
    ensures WellFormed(AddDataSpec(e, path, data, sharingMethod).1)
  {
    var r := AddDataSpec(e, path, data, sharingMethod).1;
    if path !in e.defaults {
      forall id | id in r.overrides ensures DistinctPaths(r.overrides[id]) {
        if id in data.overrides {
          var old_ := BucketOf(e.overrides, id);
          forall i | 0 <= i < |old_| ensures old_[i].0 != path {
            assert old_[i].0 in e.defaults;
          }
        }
      }
    }
  }

  /**
   * `prepareMessageFor(id)` as written: a receiver with an override bucket gets
   * that bucket alone; any other receiver gets the defaults.
   */
  function Materialize<ID(==), K(==), V, M>(e: Envelope<ID, K, V, M>, id: ID): (r: map<K, Payload<V, M>>)
    ensures id !in e.overrides ==> r == e.defaults
    ensures id in e.overrides ==> r.Keys == Paths(e.overrides[id])
  {
    if id in e.overrides then BucketToMapKeys(e.overrides[id]); BucketToMap(e.overrides[id]) else e.defaults
  }

  /**
   * What a receiver gets: the defaults when it has no bucket; otherwise exactly
   * the paths of its bucket, each with its override, and no default for any
   * other path.
   */
  lemma MaterializeTakesBucketOnly<ID, K, V, M>(e: Envelope<ID, K, V, M>, id: ID)
    requires WellFormed(e)
    ensures id !in e.overrides ==> Materialize(e, id) == e.defaults
    ensures id in e.overrides ==>
      && Materialize(e, id).Keys == Paths(e.overrides[id])
      && (forall i :: 0 <= i < |e.overrides[id]| ==> Materialize(e, id)[e.overrides[id][i].0] == e.overrides[id][i].1)
      && (forall k :: k in e.defaults && k !in Paths(e.overrides[id]) ==> k !in Materialize(e, id))
  {
    if id in e.overrides {
      BucketToMapKeys(e.overrides[id]);
      forall i | 0 <= i < |e.overrides[id]|
        ensures Materialize(e, id)[e.overrides[id][i].0] == e.overrides[id][i].1
      {
        BucketToMapValues(e.overrides[id], i);
      }
    }
  }

  /** The payload a receiver was meant to get: every default, with the receiver's overrides on top. */
  function MaterializeMerged<ID(==), K(==), V, M>(e: Envelope<ID, K, V, M>, id: ID): map<K, Payload<V, M>>
  {
    e.defaults + BucketToMap(BucketOf(e.overrides, id))
  }

  /**
   * The merged payload covers every recorded path: an overridden path carries
   * the receiver's override, any other path its default.
   */
  lemma MaterializeMergedCoversDefaults<ID, K, V, M>(e: Envelope<ID, K, V, M>, id: ID)
    requires WellFormed(e)
    ensures MaterializeMerged(e, id).Keys == e.defaults.Keys
    ensures forall i :: 0 <= i < |BucketOf(e.overrides, id)| ==>
      MaterializeMerged(e, id)[BucketOf(e.overrides, id)[i].0] == BucketOf(e.overrides, id)[i].1
    ensures forall k :: k in e.defaults && k !in Paths(BucketOf(e.overrides, id)) ==> MaterializeMerged(e, id)[k] == e.defaults[k]
  {
    var bucket := BucketOf(e.overrides, id);
    BucketToMapKeys(bucket);
    forall i | 0 <= i < |bucket| ensures MaterializeMerged(e, id)[bucket[i].0] == bucket[i].1 {
      BucketToMapValues(bucket, i);
    }
  }

  /**
   * A well-formed envelope in which receiver 7 overrides path 1 but not path 2:
   * as written, receiver 7 is not sent path 2 at all; merged, it gets path 2's
   * default.
   */
  lemma MaterializeDropsDefaults()
    ensures var e := Envelope(map[1 := Payload(10, 0), 2 := Payload(20, 0)], map[7 := [(1, Payload(11, 0))]]);
      && WellFormed(e)
      && 2 !in Materialize(e, 7)
      && 2 in MaterializeMerged(e, 7) && MaterializeMerged(e, 7)[2] == Payload(20, 0)
  {
    var e := Envelope(map[1 := Payload(10, 0), 2 := Payload(20, 0)], map[7 := [(1, Payload(11, 0))]]);
    var b: Bucket<int, int, int> := [(1, Payload(11, 0))];
    assert b[..0] == [];
    assert BucketToMap(b) == map[1 := Payload(11, 0)];
  }

  /** No receiver is sent a path that has no default, so an envelope without defaults sends nothing. */
  lemma MaterializeWithinDefaults<ID, K, V, M>(e: Envelope<ID, K, V, M>, id: ID)
    requires WellFormed(e)
    ensures Materialize(e, id).Keys <= e.defaults.Keys
    ensures e.defaults == map[] ==> Materialize(e, id) == map[]
  {
    if id in e.overrides {
      BucketToMapKeys(e.overrides[id]);
      forall k | k in Materialize(e, id) ensures k in e.defaults {
        var i :| 0 <= i < |e.overrides[id]| && e.overrides[id][i].0 == k;
      }
    }
  }

  // ---------------------------------------------------------------------------
  // The envelope object

  class OutboundEnvelope<ID(==), K(==), V, M> {
    var defaults: map<K, Payload<V, M>>
    var overrides: map<ID, Bucket<K, V, M>>

    function Snapshot(): Envelope<ID, K, V, M>
      reads this
    {
      Envelope(defaults, overrides)
    }

    ghost predicate Valid()
      reads this
    {
      WellFormed(Snapshot())
    }

    /** `OutboundEnvelope(expectedSize)`: both maps start empty; `expectedSize * 2` is only a capacity hint. */
    constructor(expectedSize: int)
      requires 0 <= expectedSize * 2 < 0x8000_0000
      ensures Valid()
      ensures defaults == map[] && overrides == map[]
    {
      defaults := map[];
      overrides := map[];
    }

    method AddData(path: K, data: SharedData<ID, V>, sharingMethod: M) returns (r: Outcome)
      requires Valid()
      modifies this
      ensures Valid()
      ensures (r, Snapshot()) == AddDataSpec(old(Snapshot()), path, data, sharingMethod)
    {
      AddDataKeepsWellFormed(Snapshot(), path, data, sharingMethod);
      if path in defaults {
        return Fail(AlignmentClash);
      }
      defaults := defaults[path := Payload(data.default, sharingMethod)];
      var pending := data.overrides.Keys;
      while pending != {}
        invariant pending <= data.overrides.Keys
        invariant defaults == old(defaults)[path := Payload(data.default, sharingMethod)]
        invariant forall id :: id in data.overrides && id !in pending ==>
          id in overrides && overrides[id] == BucketOf(old(overrides), id) + [(path, Payload(data.overrides[id], sharingMethod))]
        invariant forall id :: !(id in data.overrides && id !in pending) ==>
          (id in overrides <==> id in old(overrides)) && (id in overrides ==> overrides[id] == old(overrides)[id])
        decreases pending
      {
        var id :| id in pending;
        var destination := BucketOf(overrides, id);
        overrides := overrides[id := destination + [(path, Payload(data.overrides[id], sharingMethod))]];
        pending := pending - {id};
      }
      r := Pass;
      assert overrides == AddDataSpec(old(Snapshot()), path, data, sharingMethod).1.overrides;
    }

    /** `prepareMessageFor(id)`: the payload handed to the message factory for receiver `id`. */
    function PrepareMessageFor(id: ID): (r: map<K, Payload<V, M>>)
      reads this
      ensures id !in overrides ==> r == defaults
      ensures id in overrides ==> r == BucketToMap(overrides[id])
    {
      Materialize(Snapshot(), id)
    }

    /** `isEmpty()`: no path was recorded this round. */
    function IsEmpty(): (r: bool)
      reads this
      ensures r <==> |defaults| == 0
    {
      defaults == map[]
    }

    /** `isNotEmpty()`. */
    function IsNotEmpty(): (r: bool)
      reads this
      ensures r <==> !IsEmpty()
    {
      defaults != map[]
    }
  }

  /**
   * A round that made no aggregate call leaves a fresh envelope: it is empty
   * and every receiver's payload is empty.
   */
  method EmptyRoundPayload<ID(==), K(==), V, M>(expectedSize: int, receiver: ID) returns (empty: bool, payload: map<K, Payload<V, M>>)
    requires 0 <= expectedSize * 2 < 0x8000_0000
    ensures empty && payload == map[]
  {
    var envelope := new OutboundEnvelope<ID, K, V, M>(expectedSize);
    empty := envelope.IsEmpty();
    payload := envelope.PrepareMessageFor(receiver);
    MaterializeWithinDefaults(envelope.Snapshot(), receiver);
  }
}
