// The per-round aggregate context: `exchange`, `repeating` and `alignedOn`
// over an alignment stack, the previous round's state and the inbound messages
// (it/unibo/collektive/aggregate/AggregateContext.kt).
module Aggregate {
  import opened Base
  import opened FieldModel

  /** The identity of a program point: the alignment tokens on the stack. */
  datatype Path<T> = Path(tokens: seq<T>)

  /** `stack.currentPath()`. */
  function CurrentPath<T>(stack: seq<T>): Path<T>
  {
    Path(stack)
  }

  /** Two stacks give the same path exactly when they hold the same tokens. */
  lemma CurrentPathInjective<T>(s: seq<T>, t: seq<T>)
    ensures CurrentPath(s) == CurrentPath(t) <==> s == t
  {
  }

  /** A value retained at a path; `Null` is a retained `null`. */
  datatype State<T, V> = State(path: Path<T>, value: Nullable<V>)

  datatype InboundMessage<ID, T(==), V> = InboundMessage(senderId: ID, messages: map<Path<T>, Nullable<V>>)

  datatype OutboundMessage<ID, T(==), V> =
    | Isotropic(senderId: ID, message: map<Path<T>, Nullable<V>>)
    | Anisotropic(senderId: ID, receiverId: ID, message: map<Path<T>, Nullable<V>>)

  /** What the context is built from: its device, the inbound messages and the previous state. */
  datatype Inputs<ID, T(==), V> = Inputs(localId: ID, messages: seq<InboundMessage<ID, T, V>>, previousState: seq<State<T, V>>)

  /** The context's mutable part: the stack, `state` and `toBeSent`. */
  datatype Round<ID(==), T(==), V(==)> = Round(stack: seq<T>, state: seq<State<T, V>>, toBeSent: set<OutboundMessage<ID, T, V>>)

  type NField<ID, V> = Field<ID, Nullable<V>>

  /** An aggregate program: the calls a round makes on the context. */
  datatype Program<!ID, T, !V> =
    | ExchangeOp(initial: Nullable<V>, body: NField<ID, V> -> NField<ID, V>)
    | RepeatingOp(initial: Nullable<V>, step: Nullable<V> -> Nullable<V>)
    | AlignedOnOp(pivot: T, inner: Program<ID, T, V>)
    | Sequence(first: Program<ID, T, V>, next: Program<ID, T, V>)

  /** What a program returns: a field from `exchange`, a value from `repeating`. */
  datatype Returned<ID, V> = FieldValue(field: NField<ID, V>) | LocalValue(value: Nullable<V>)

  // ---------------------------------------------------------------------------
  // Reading the inputs

  /** Message `i` is from `id` and carries `path`. */
  ghost predicate Carries<ID, T, V>(messages: seq<InboundMessage<ID, T, V>>, id: ID, path: Path<T>, i: int)
  {
    0 <= i < |messages| && messages[i].senderId == id && path in messages[i].messages
  }

  /** Message `i` is the last one from `id` that carries `path`. */
  ghost predicate LastFrom<ID, T, V>(messages: seq<InboundMessage<ID, T, V>>, id: ID, path: Path<T>, i: int)
  {
    && 0 <= i < |messages|
    && messages[i].senderId == id
    && path in messages[i].messages
    && forall j :: i < j < |messages| && messages[j].senderId == id ==> path !in messages[j].messages
  }

  /**
   * `messagesAt(path)`: the senders whose message carries `path`, each with its
   * value there; `associate` keeps the last message of a repeated sender.
   */
  function MessagesAt<ID(==), T(==), V(==)>(messages: seq<InboundMessage<ID, T, V>>, path: Path<T>): (r: map<ID, Nullable<V>>)
    ensures forall id :: id in r ==> exists i :: Carries(messages, id, path, i)
  {
    if messages == [] then map[]
    else
      var n := |messages| - 1;
      var rest := MessagesAt(messages[..n], path);
      assert forall id :: id in rest ==> exists i :: Carries(messages, id, path, i) by {
        forall id | id in rest ensures exists i :: Carries(messages, id, path, i) {
          var i :| Carries(messages[..n], id, path, i);
          assert Carries(messages, id, path, i);
        }
      }
      assert path in messages[n].messages ==> Carries(messages, messages[n].senderId, path, n);
      if path in messages[n].messages then rest[messages[n].senderId := messages[n].messages[path]] else rest
  }

  /** Every sender whose message carries `path` is a key of `messagesAt(path)`. */
  lemma {:induction false} MessagesAtHasEverySender<ID, T, V>(messages: seq<InboundMessage<ID, T, V>>, path: Path<T>, i: int)
    requires 0 <= i < |messages| && path in messages[i].messages
    ensures messages[i].senderId in MessagesAt(messages, path)
  {
    var n := |messages| - 1;
    if i < n {
      assert messages[..n][i] == messages[i];
      MessagesAtHasEverySender(messages[..n], path, i);
    }
  }

  /**
   * Every key of `messagesAt(path)` is a sender, and its value is the one in the
   * last message from that sender carrying `path`.
   */
  lemma {:induction false} MessagesAtTakesLast<ID, T, V>(messages: seq<InboundMessage<ID, T, V>>, path: Path<T>, id: ID)
    requires id in MessagesAt(messages, path)
    ensures exists i :: LastFrom(messages, id, path, i) && MessagesAt(messages, path)[id] == messages[i].messages[path]
  {
    var n := |messages| - 1;
    var last := messages[n];
    var rest := MessagesAt(messages[..n], path);
    if path in last.messages && id == last.senderId {
      assert LastFrom(messages, id, path, n);
    } else {
      assert MessagesAt(messages, path)[id] == rest[id];
      MessagesAtTakesLast(messages[..n], path, id);
      var i :| LastFrom(messages[..n], id, path, i) && rest[id] == messages[..n][i].messages[path];
      LastFromExtends(messages, id, path, i);
    }
  }

  /** The last carrying message in a prefix stays the last one when the final message does not carry `path` from `id`. */
  lemma LastFromExtends<ID, T, V>(messages: seq<InboundMessage<ID, T, V>>, id: ID, path: Path<T>, i: int)
    requires |messages| > 0
    requires LastFrom(messages[..|messages| - 1], id, path, i)
    requires !(path in messages[|messages| - 1].messages && id == messages[|messages| - 1].senderId)
    ensures LastFrom(messages, id, path, i)
    ensures messages[..|messages| - 1][i] == messages[i]
  {
    var n := |messages| - 1;
    forall j | i < j < |messages| && messages[j].senderId == id ensures path !in messages[j].messages {
      if j < n {
        assert messages[..n][j] == messages[j];
      }
    }
  }

  /** Entry `i` is the first entry of `states` for `path`. */
  ghost predicate FirstAt<T, V>(states: seq<State<T, V>>, path: Path<T>, i: int)
  {
    0 <= i < |states| && states[i].path == path && forall j :: 0 <= j < i ==> states[j].path != path
  }

  /** `stateAt(path)`: the value of the first entry for `path`, `Null` when there is none. */
  function StateAt<T(==), V(==)>(states: seq<State<T, V>>, path: Path<T>): (r: Nullable<V>)
    ensures (forall i :: 0 <= i < |states| ==> states[i].path != path) ==> r == Null
    ensures forall i :: FirstAt(states, path, i) ==> r == states[i].value
  {
    if states == [] then Null
    else if states[0].path == path then states[0].value
    else
      var r := StateAt(states[1..], path);
      assert forall i :: FirstAt(states, path, i) ==> FirstAt(states[1..], path, i - 1);
      r
  }

  /** The local entry `exchange` starts from: the previous value, or `initial` when it is absent or null. */
  function Previous<ID(==), T(==), V(==)>(inputs: Inputs<ID, T, V>, path: Path<T>, initial: Nullable<V>): (r: Nullable<V>)
    ensures (forall i :: 0 <= i < |inputs.previousState| ==> inputs.previousState[i].path != path) ==> r == initial
    ensures forall i :: FirstAt(inputs.previousState, path, i) ==>
      r == if inputs.previousState[i].value.Null? then initial else inputs.previousState[i].value
  {
    var retained := StateAt(inputs.previousState, path);
    if retained.Null? then initial else retained
  }

  /** The field `exchange` hands to its body: the neighbours' values at `path` plus the local entry. */
  function Subject<ID(==), T(==), V(==)>(inputs: Inputs<ID, T, V>, path: Path<T>, initial: Nullable<V>): (f: NField<ID, V>)
    ensures f.localId == inputs.localId
    ensures f.ToMap()[inputs.localId] == Previous(inputs, path, initial)
    ensures f.ExcludeSelf() == MessagesAt(inputs.messages, path) - {inputs.localId}
  {
    Field(inputs.localId, Previous(inputs, path, initial), MessagesAt(inputs.messages, path))
  }

  /**
   * The neighbour entries of the subject field: every sender other than the
   * device whose message carries `path` has one, holding the value of its last
   * such message; there are no others. The device's own entry is the previous
   * value, even when a message from `localId` carries `path`.
   */
  lemma SubjectEntries<ID, T, V>(inputs: Inputs<ID, T, V>, path: Path<T>, initial: Nullable<V>)
    ensures var f := Subject(inputs, path, initial);
      && f.ToMap()[inputs.localId] == Previous(inputs, path, initial)
      && (forall i :: 0 <= i < |inputs.messages| && path in inputs.messages[i].messages ==>
            inputs.messages[i].senderId in f.ToMap())
      && (forall id :: id in f.ToMap() && id != inputs.localId ==>
            exists i :: LastFrom(inputs.messages, id, path, i) && f.ToMap()[id] == inputs.messages[i].messages[path])
  {
    var f := Subject(inputs, path, initial);
    forall i | 0 <= i < |inputs.messages| && path in inputs.messages[i].messages
      ensures inputs.messages[i].senderId in f.ToMap()
    {
      MessagesAtHasEverySender(inputs.messages, path, i);
    }
    forall id | id in f.ToMap() && id != inputs.localId
      ensures exists i :: LastFrom(inputs.messages, id, path, i) && f.ToMap()[id] == inputs.messages[i].messages[path]
    {
      MessagesAtTakesLast(inputs.messages, path, id);
    }
  }

  // ---------------------------------------------------------------------------
  // The state entries

  /** `state.filterNot { path == it.path }`. */
  function Without<T(==), V(==)>(states: seq<State<T, V>>, path: Path<T>): (r: seq<State<T, V>>)
    ensures forall i :: 0 <= i < |r| ==> r[i] in states && r[i].path != path
    ensures forall i :: 0 <= i < |states| && states[i].path != path ==> states[i] in r
  {
    if states == [] then []
    else (if states[0].path == path then [] else [states[0]]) + Without(states[1..], path)
  }

  /** The state after a value is recorded at `path`: older entries for `path` dropped, the new one last. */
  function Replaced<T(==), V(==)>(states: seq<State<T, V>>, path: Path<T>, value: Nullable<V>): (r: seq<State<T, V>>)
    ensures |r| > 0 && r[|r| - 1] == State(path, value)
    ensures forall i :: 0 <= i < |r| - 1 ==> r[i] in states && r[i].path != path
    ensures forall i :: 0 <= i < |states| && states[i].path != path ==> states[i] in r
  {
    Without(states, path) + [State(path, value)]
  }

  /** The entries of `states` for `path`, in order. */
  function EntriesAt<T(==), V(==)>(states: seq<State<T, V>>, path: Path<T>): seq<State<T, V>>
  {
    if states == [] then []
    else (if states[0].path == path then [states[0]] else []) + EntriesAt(states[1..], path)
  }

  lemma {:induction false} EntriesAtAppend<T, V>(a: seq<State<T, V>>, b: seq<State<T, V>>, path: Path<T>)
    ensures EntriesAt(a + b, path) == EntriesAt(a, path) + EntriesAt(b, path)
  {
    if a != [] {
      assert (a + b)[0] == a[0];
      assert (a + b)[1..] == a[1..] + b;
      EntriesAtAppend(a[1..], b, path);
    } else {
      assert a + b == b;
    }
  }

  lemma {:induction false} EntriesAtWithout<T, V>(states: seq<State<T, V>>, path: Path<T>, other: Path<T>)
    ensures EntriesAt(Without(states, path), other) == if other == path then [] else EntriesAt(states, other)
  {
    if states != [] {
      var head := if states[0].path == path then [] else [states[0]];
      EntriesAtAppend(head, Without(states[1..], path), other);
      EntriesAtWithout(states[1..], path, other);
    }
  }

  /**
   * After a value is recorded at `path`, the state holds exactly one entry for
   * `path`, carrying that value, and the entries of every other path are the
   * same, in the same order.
   */
  lemma ReplacedEntries<T, V>(states: seq<State<T, V>>, path: Path<T>, value: Nullable<V>, other: Path<T>)
    ensures EntriesAt(Replaced(states, path, value), path) == [State(path, value)]
    ensures other != path ==> EntriesAt(Replaced(states, path, value), other) == EntriesAt(states, other)
  {
    EntriesAtAppend(Without(states, path), [State(path, value)], path);
    EntriesAtWithout(states, path, path);
    EntriesAtAppend(Without(states, path), [State(path, value)], other);
    EntriesAtWithout(states, path, other);
  }

  /** No two entries share a path. */
  ghost predicate UniquePaths<T, V>(states: seq<State<T, V>>)
  {
    forall i, j :: 0 <= i < j < |states| ==> states[i].path != states[j].path
  }

  lemma {:induction false} WithoutKeepsUnique<T, V>(states: seq<State<T, V>>, path: Path<T>)
    requires UniquePaths(states)
    ensures UniquePaths(Without(states, path))
  {
    if states != [] {
      WithoutKeepsUnique(states[1..], path);
      var rest := Without(states[1..], path);
      if states[0].path != path {
        forall j | 0 <= j < |rest| ensures rest[j].path != states[0].path {
          assert rest[j] in states[1..];
        }
      }
    }
  }

  /** Recording a value keeps at most one entry per path. */
  lemma ReplacedKeepsUnique<T, V>(states: seq<State<T, V>>, path: Path<T>, value: Nullable<V>)
    requires UniquePaths(states)
    ensures UniquePaths(Replaced(states, path, value))
  {
    WithoutKeepsUnique(states, path);
    var w := Without(states, path);
    forall i | 0 <= i < |w| ensures w[i].path != path {
      assert w[i] in w;
    }
  }

  /**
   * The value recorded at `path` this round is the one `stateAt(path)` reads
   * when this round's state is the next round's previous state.
   */
  lemma {:induction false} RetainedNextRound<T, V>(states: seq<State<T, V>>, path: Path<T>, value: Nullable<V>)
    ensures StateAt(Replaced(states, path, value), path) == value
  {
    var w := Without(states, path);
    var r := Replaced(states, path, value);
    forall j | 0 <= j < |w| ensures r[j].path != path {
      assert r[j] == w[j] && w[j] in w;
    }
    assert FirstAt(r, path, |w|);
  }

  // ---------------------------------------------------------------------------
  // The messages to send

  predicate IsAnisotropicTo<ID(==), T(==), V(==)>(m: OutboundMessage<ID, T, V>, sender: ID, receiver: ID)
  {
    m.Anisotropic? && m.senderId == sender && m.receiverId == receiver
  }

  /** At most one anisotropic message from `sender` per receiver. */
  ghost predicate AnisotropicUnique<ID, T, V>(msgs: set<OutboundMessage<ID, T, V>>, sender: ID)
  {
    forall m1, m2 ::
      (m1 in msgs && m2 in msgs && m1.Anisotropic? && m2.Anisotropic?
       && m1.senderId == sender && m2.senderId == sender && m1.receiverId == m2.receiverId) ==> m1 == m2
  }

  /** The payload already queued for `receiver` (`firstOrNull`), empty when there is none. */
  ghost function Queued<ID, T, V>(msgs: set<OutboundMessage<ID, T, V>>, sender: ID, receiver: ID): map<Path<T>, Nullable<V>>
  {
    if exists m :: m in msgs && IsAnisotropicTo(m, sender, receiver)
    then (var m :| m in msgs && IsAnisotropicTo(m, sender, receiver); m.message)
    else map[]
  }

  lemma QueuedIs<ID, T, V>(msgs: set<OutboundMessage<ID, T, V>>, sender: ID, receiver: ID, m: OutboundMessage<ID, T, V>)
    requires AnisotropicUnique(msgs, sender)
    requires m in msgs && IsAnisotropicTo(m, sender, receiver)
    ensures Queued(msgs, sender, receiver) == m.message
  {
  }

  /** `toBeSent` with the messages from `sender` to `receiver` replaced by one carrying `payload`. */
  function Requeued<ID(==), T(==), V(==)>(msgs: set<OutboundMessage<ID, T, V>>, sender: ID, receiver: ID,
                                         payload: map<Path<T>, Nullable<V>>): set<OutboundMessage<ID, T, V>>
  {
    (set m | m in msgs && !IsAnisotropicTo(m, sender, receiver)) + {Anisotropic(sender, receiver, payload)}
  }

  /**
   * The messages after the anisotropic step of `exchange`: for each receiver in
   * `out`, the queued message from `sender` (if any) is replaced by one whose
   * payload is the queued payload plus `path -> out[receiver]`.
   */
  ghost function SendAnisotropic<ID, T, V>(msgs: set<OutboundMessage<ID, T, V>>, sender: ID, out: map<ID, Nullable<V>>, path: Path<T>)
    : (r: set<OutboundMessage<ID, T, V>>)
    ensures forall id :: id in out ==> Anisotropic(sender, id, Queued(msgs, sender, id)[path := out[id]]) in r
    ensures forall m :: m in msgs && !(m.Anisotropic? && m.senderId == sender && m.receiverId in out) ==> m in r
    ensures forall m :: m in r ==> m in msgs || (m.Anisotropic? && m.senderId == sender && m.receiverId in out)
  {
    (set m | m in msgs && !(m.Anisotropic? && m.senderId == sender && m.receiverId in out))
    + (set id | id in out :: Anisotropic(sender, id, Queued(msgs, sender, id)[path := out[id]]))
  }

  lemma SendAnisotropicToNobody<ID, T, V>(msgs: set<OutboundMessage<ID, T, V>>, sender: ID, path: Path<T>)
    ensures SendAnisotropic(msgs, sender, map[], path) == msgs
  {
  }

  /** The anisotropic step keeps at most one message per receiver. */
  lemma SendAnisotropicKeepsUnique<ID, T, V>(msgs: set<OutboundMessage<ID, T, V>>, sender: ID, out: map<ID, Nullable<V>>, path: Path<T>)
    requires AnisotropicUnique(msgs, sender)
    ensures AnisotropicUnique(SendAnisotropic(msgs, sender, out, path), sender)
  {
    var r := SendAnisotropic(msgs, sender, out, path);
    forall m1, m2 | m1 in r && m2 in r && m1.Anisotropic? && m2.Anisotropic?
        && m1.senderId == sender && m2.senderId == sender && m1.receiverId == m2.receiverId
      ensures m1 == m2
    {
      if m1.receiverId !in out {
        assert m1 in msgs && m2 in msgs;
      }
    }
  }

  /** A receiver the step has not reached yet still finds the payload queued before the step. */
  lemma SendAnisotropicQueued<ID, T, V>(msgs: set<OutboundMessage<ID, T, V>>, sender: ID, out: map<ID, Nullable<V>>, path: Path<T>, id: ID)
    requires AnisotropicUnique(msgs, sender)
    requires id !in out
    ensures Queued(SendAnisotropic(msgs, sender, out, path), sender, id) == Queued(msgs, sender, id)
  {
    var r := SendAnisotropic(msgs, sender, out, path);
    SendAnisotropicKeepsUnique(msgs, sender, out, path);
    if m :| m in msgs && IsAnisotropicTo(m, sender, id) {
      assert m in r;
      QueuedIs(msgs, sender, id, m);
      QueuedIs(r, sender, id, m);
    } else {
      assert !exists m :: m in r && IsAnisotropicTo(m, sender, id);
    }
  }

  /** Replacing one more receiver's message extends the anisotropic step by that receiver. */
  lemma SendAnisotropicStep<ID, T, V>(msgs: set<OutboundMessage<ID, T, V>>, sender: ID, out: map<ID, Nullable<V>>, path: Path<T>,
                                      id: ID, value: Nullable<V>)
    requires AnisotropicUnique(msgs, sender)
    requires id !in out
    ensures Requeued(SendAnisotropic(msgs, sender, out, path), sender, id, Queued(msgs, sender, id)[path := value])
         == SendAnisotropic(msgs, sender, out[id := value], path)
  {
    var before := SendAnisotropic(msgs, sender, out, path);
    var lhs := Requeued(before, sender, id, Queued(msgs, sender, id)[path := value]);
    var rhs := SendAnisotropic(msgs, sender, out[id := value], path);
    forall m ensures m in lhs <==> m in rhs {
    }
  }

  /**
   * After the anisotropic step, every receiver in `out` has exactly one message
   * from `sender`, holding its previously queued payload plus `path -> value`;
   * every other message is kept.
   */
  lemma SendAnisotropicEffect<ID, T, V>(msgs: set<OutboundMessage<ID, T, V>>, sender: ID, out: map<ID, Nullable<V>>, path: Path<T>)
    requires AnisotropicUnique(msgs, sender)
    ensures forall id, m :: id in out && m in SendAnisotropic(msgs, sender, out, path) && IsAnisotropicTo(m, sender, id) ==>
      m == Anisotropic(sender, id, Queued(msgs, sender, id)[path := out[id]])
    ensures forall id :: id in out ==>
      Anisotropic(sender, id, Queued(msgs, sender, id)[path := out[id]]) in SendAnisotropic(msgs, sender, out, path)
    ensures forall m :: m in msgs && !(m.Anisotropic? && m.senderId == sender && m.receiverId in out) ==>
      m in SendAnisotropic(msgs, sender, out, path)
  {
  }

  /** Adding an isotropic message changes neither uniqueness nor any queued payload. */
  lemma AddIsotropic<ID, T, V>(msgs: set<OutboundMessage<ID, T, V>>, sender: ID, payload: map<Path<T>, Nullable<V>>, id: ID)
    requires AnisotropicUnique(msgs, sender)
    ensures AnisotropicUnique(msgs + {Isotropic(sender, payload)}, sender)
    ensures Queued(msgs + {Isotropic(sender, payload)}, sender, id) == Queued(msgs, sender, id)
  {
    var more := msgs + {Isotropic(sender, payload)};
    if m :| m in msgs && IsAnisotropicTo(m, sender, id) {
      QueuedIs(msgs, sender, id, m);
      QueuedIs(more, sender, id, m);
    }
  }

  // ---------------------------------------------------------------------------
  // The operations as functions of the round

  /** The receivers of `exchange`'s anisotropic messages: every entry of the output but the device's own. */
  function Receivers<ID(==), V>(out: Field<ID, V>, self: ID): (m: map<ID, V>)
    ensures self !in m
    ensures m.Keys == out.ToMap().Keys - {self}
    ensures forall id :: id in m ==> m[id] == out.ToMap()[id]
  {
    out.ToMap() - {self}
  }

  /**
   * `exchange`: the body runs on the subject field; the isotropic message with
   * the output's local value is added; if any neighbour sent a value at this
   * path, each entry of the output other than the device's own is merged into its receiver's
   * anisotropic message; the output's local value replaces the state entry.
   */
  ghost function ExchangeSpec<ID, T, V>(inputs: Inputs<ID, T, V>, s: Round<ID, T, V>, initial: Nullable<V>,
                                        body: NField<ID, V> -> NField<ID, V>): (r: (NField<ID, V>, Round<ID, T, V>))
    ensures r.0 == body(Subject(inputs, CurrentPath(s.stack), initial))
    ensures r.1.stack == s.stack
  {
    var path := CurrentPath(s.stack);
    var out := body(Subject(inputs, path, initial));
    var withIsotropic := s.toBeSent + {Isotropic(inputs.localId, map[path := out.local])};
    var sent := if MessagesAt(inputs.messages, path) != map[]
                then SendAnisotropic(withIsotropic, inputs.localId, Receivers(out, inputs.localId), path)
                else withIsotropic;
    (out, Round(s.stack, Replaced(s.state, path, out.local), sent))
  }

  /** `exchange` keeps at most one state entry per path and one anisotropic message per receiver. */
  lemma ExchangeKeepsValid<ID, T, V>(inputs: Inputs<ID, T, V>, s: Round<ID, T, V>, initial: Nullable<V>,
                                     body: NField<ID, V> -> NField<ID, V>)
    requires UniquePaths(s.state) && AnisotropicUnique(s.toBeSent, inputs.localId)
    ensures var r := ExchangeSpec(inputs, s, initial, body);
      UniquePaths(r.1.state) && AnisotropicUnique(r.1.toBeSent, inputs.localId)
  {
    var path := CurrentPath(s.stack);
    var out := body(Subject(inputs, path, initial));
    ReplacedKeepsUnique(s.state, path, out.local);
    AddIsotropic(s.toBeSent, inputs.localId, map[path := out.local], inputs.localId);
    SendAnisotropicKeepsUnique(s.toBeSent + {Isotropic(inputs.localId, map[path := out.local])}, inputs.localId, Receivers(out, inputs.localId), path);
  }

  /** `repeating`'s value: `step(previous)` when a previous value exists and the step gives non-null, else `step(initial)`. */
  function RepeatingValue<ID(==), T(==), V(==)>(inputs: Inputs<ID, T, V>, path: Path<T>, initial: Nullable<V>, step: Nullable<V> -> Nullable<V>)
    : (r: Nullable<V>)
    ensures StateAt(inputs.previousState, path).Null? ==> r == step(initial)
    ensures StateAt(inputs.previousState, path).NonNull? && step(StateAt(inputs.previousState, path)).NonNull?
      ==> r == step(StateAt(inputs.previousState, path))
    ensures !(StateAt(inputs.previousState, path).NonNull? && step(StateAt(inputs.previousState, path)).NonNull?)
      ==> r == step(initial)
    ensures r.Null? ==> r == step(initial)
  {
    var retained := StateAt(inputs.previousState, path);
    if retained.NonNull? && step(retained).NonNull? then step(retained) else step(initial)
  }

  /** `repeating`: the value is recorded at the current path; nothing is sent. */
  function RepeatingSpec<ID(==), T(==), V(==)>(inputs: Inputs<ID, T, V>, s: Round<ID, T, V>, initial: Nullable<V>,
                                   step: Nullable<V> -> Nullable<V>): (r: (Nullable<V>, Round<ID, T, V>))
    ensures r.1.stack == s.stack && r.1.toBeSent == s.toBeSent
    ensures UniquePaths(s.state) ==> UniquePaths(r.1.state)
    ensures r.0 == RepeatingValue(inputs, CurrentPath(s.stack), initial, step)
    ensures StateAt(r.1.state, CurrentPath(s.stack)) == r.0
    ensures EntriesAt(r.1.state, CurrentPath(s.stack)) == [State(CurrentPath(s.stack), r.0)]
  {
    var path := CurrentPath(s.stack);
    var value := RepeatingValue(inputs, path, initial, step);
    ReplacedEntries(s.state, path, value, path);
    assert UniquePaths(s.state) ==> UniquePaths(Replaced(s.state, path, value)) by {
      if UniquePaths(s.state) { ReplacedKeepsUnique(s.state, path, value); }
    }
    assert StateAt(Replaced(s.state, path, value), path) == value by {
      RetainedNextRound(s.state, path, value);
    }
    (value, Round(s.stack, Replaced(s.state, path, value), s.toBeSent))
  }

  /**
   * A program run from round `s`. `alignedOn` pushes its pivot, runs its body
   * and pops; since every program leaves the stack as it found it, the pop
   * restores the stack the call started from.
   */
  ghost function Eval<ID, T, V>(inputs: Inputs<ID, T, V>, p: Program<ID, T, V>, s: Round<ID, T, V>): (r: (Returned<ID, V>, Round<ID, T, V>))
    ensures r.1.stack == s.stack
    decreases p
  {
    match p
    case ExchangeOp(initial, body) =>
      var e := ExchangeSpec(inputs, s, initial, body);
      (FieldValue(e.0), e.1)
    case RepeatingOp(initial, step) =>
      var e := RepeatingSpec(inputs, s, initial, step);
      (LocalValue(e.0), e.1)
    case AlignedOnOp(pivot, inner) =>
      var e := Eval(inputs, inner, s.(stack := s.stack + [pivot]));
      (e.0, e.1.(stack := e.1.stack[..|e.1.stack| - 1]))
    case Sequence(first, next) =>
      Eval(inputs, next, Eval(inputs, first, s).1)
  }

  /** Every program keeps at most one state entry per path and one anisotropic message per receiver. */
  lemma {:induction false} EvalKeepsValid<ID, T, V>(inputs: Inputs<ID, T, V>, p: Program<ID, T, V>, s: Round<ID, T, V>)
    requires UniquePaths(s.state) && AnisotropicUnique(s.toBeSent, inputs.localId)
    ensures UniquePaths(Eval(inputs, p, s).1.state) && AnisotropicUnique(Eval(inputs, p, s).1.toBeSent, inputs.localId)
    decreases p
  {
    match p
    case ExchangeOp(initial, body) =>
      ExchangeKeepsValid(inputs, s, initial, body);
    case RepeatingOp(initial, step) =>
    case AlignedOnOp(pivot, inner) =>
      EvalKeepsValid(inputs, inner, s.(stack := s.stack + [pivot]));
    case Sequence(first, next) =>
      EvalKeepsValid(inputs, first, s);
      EvalKeepsValid(inputs, next, Eval(inputs, first, s).1);
  }

  /** `alignedOn` returns what its body returns, and the body runs one token deeper. */
  lemma AlignedOnRunsBodyDeeper<ID, T, V>(inputs: Inputs<ID, T, V>, pivot: T, inner: Program<ID, T, V>, s: Round<ID, T, V>)
    ensures Eval(inputs, AlignedOnOp(pivot, inner), s).0 == Eval(inputs, inner, s.(stack := s.stack + [pivot])).0
    ensures Eval(inputs, AlignedOnOp(pivot, inner), s).1 == Eval(inputs, inner, s.(stack := s.stack + [pivot])).1.(stack := s.stack)
  {
  }

  /** `exchange` sends an isotropic message from the device mapping the current path to the output's local value. */
  lemma ExchangeSendsIsotropic<ID, T, V>(inputs: Inputs<ID, T, V>, s: Round<ID, T, V>, initial: Nullable<V>,
                                         body: NField<ID, V> -> NField<ID, V>)
    ensures var r := ExchangeSpec(inputs, s, initial, body);
      Isotropic(inputs.localId, map[CurrentPath(s.stack) := r.0.local]) in r.1.toBeSent
  {
  }

  /**
   * After `exchange`: the state holds exactly one entry for the current path,
   * carrying the output's local value, and every other path's entries are as
   * they were.
   */
  lemma ExchangeRecordsState<ID, T, V>(inputs: Inputs<ID, T, V>, s: Round<ID, T, V>, initial: Nullable<V>,
                                       body: NField<ID, V> -> NField<ID, V>, other: Path<T>)
    ensures var r := ExchangeSpec(inputs, s, initial, body);
      && EntriesAt(r.1.state, CurrentPath(s.stack)) == [State(CurrentPath(s.stack), r.0.local)]
      && (other != CurrentPath(s.stack) ==> EntriesAt(r.1.state, other) == EntriesAt(s.state, other))
  {
    var r := ExchangeSpec(inputs, s, initial, body);
    ReplacedEntries(s.state, CurrentPath(s.stack), r.0.local, other);
  }

  /**
   * The anisotropic messages of `exchange`. When no neighbour sent a value at
   * the current path, only the isotropic message is added. Otherwise every
   * id of the output other than the device's own has exactly one anisotropic message from the
   * device, whose payload is the one queued before plus `path -> value`, and
   * messages to other receivers are kept.
   */
  lemma ExchangeAnisotropic<ID, T, V>(inputs: Inputs<ID, T, V>, s: Round<ID, T, V>, initial: Nullable<V>,
                                      body: NField<ID, V> -> NField<ID, V>)
    requires AnisotropicUnique(s.toBeSent, inputs.localId)
    ensures var path := CurrentPath(s.stack);
      var r := ExchangeSpec(inputs, s, initial, body);
      var out := Receivers(r.0, inputs.localId);
      && (MessagesAt(inputs.messages, path) == map[] ==>
            r.1.toBeSent == s.toBeSent + {Isotropic(inputs.localId, map[path := r.0.local])})
      && (MessagesAt(inputs.messages, path) != map[] ==>
            && (forall id, m :: id in out && m in r.1.toBeSent && IsAnisotropicTo(m, inputs.localId, id) ==>
                  m == Anisotropic(inputs.localId, id, Queued(s.toBeSent, inputs.localId, id)[path := out[id]]))
            && (forall id :: id in out ==>
                  Anisotropic(inputs.localId, id, Queued(s.toBeSent, inputs.localId, id)[path := out[id]]) in r.1.toBeSent)
            && (forall m :: m in s.toBeSent && !(m.Anisotropic? && m.senderId == inputs.localId && m.receiverId in out) ==>
                  m in r.1.toBeSent)
            && (forall m :: m in r.1.toBeSent ==>
                  || m in s.toBeSent
                  || m == Isotropic(inputs.localId, map[path := r.0.local])
                  || (m.Anisotropic? && m.senderId == inputs.localId && m.receiverId in out)))
  {
    var path := CurrentPath(s.stack);
    var r := ExchangeSpec(inputs, s, initial, body);
    var out := Receivers(r.0, inputs.localId);
    var withIsotropic := s.toBeSent + {Isotropic(inputs.localId, map[path := r.0.local])};
    if MessagesAt(inputs.messages, path) != map[] {
      forall id | id in out ensures Queued(withIsotropic, inputs.localId, id) == Queued(s.toBeSent, inputs.localId, id) {
        AddIsotropic(s.toBeSent, inputs.localId, map[path := r.0.local], id);
      }
      AddIsotropic(s.toBeSent, inputs.localId, map[path := r.0.local], inputs.localId);
      SendAnisotropicEffect(withIsotropic, inputs.localId, out, path);
    }
  }

  /** `repeating` threads its value across rounds: what it records is what the next round reads back. */
  lemma RepeatingAcrossRounds<ID, T, V>(inputs: Inputs<ID, T, V>, s: Round<ID, T, V>, initial: Nullable<V>,
                                        step: Nullable<V> -> Nullable<V>, next: seq<InboundMessage<ID, T, V>>)
    ensures var r := RepeatingSpec(inputs, s, initial, step);
      var nextRound := Inputs(inputs.localId, next, r.1.state);
      && (r.0.NonNull? && step(r.0).NonNull? ==> RepeatingValue(nextRound, CurrentPath(s.stack), initial, step) == step(r.0))
      && (r.0.NonNull? && step(r.0).Null? ==> RepeatingValue(nextRound, CurrentPath(s.stack), initial, step) == step(initial))
      && (r.0.Null? ==> RepeatingValue(nextRound, CurrentPath(s.stack), initial, step) == step(initial))
  {
  }

  /**
   * After `repeating`: the state holds exactly one entry for the current path,
   * carrying the returned value, and every other path's entries are as they were.
   */
  lemma RepeatingRecordsState<ID, T, V>(inputs: Inputs<ID, T, V>, s: Round<ID, T, V>, initial: Nullable<V>,
                                        step: Nullable<V> -> Nullable<V>, other: Path<T>)
    ensures var r := RepeatingSpec(inputs, s, initial, step);
      && EntriesAt(r.1.state, CurrentPath(s.stack)) == [State(CurrentPath(s.stack), r.0)]
      && (other != CurrentPath(s.stack) ==> EntriesAt(r.1.state, other) == EntriesAt(s.state, other))
  {
    var r := RepeatingSpec(inputs, s, initial, step);
    ReplacedEntries(s.state, CurrentPath(s.stack), r.0, other);
  }

  // ---------------------------------------------------------------------------
  // The context object

  class AggregateContext<ID(==), T(==), V(==)> {
    const localId: ID
    const messages: seq<InboundMessage<ID, T, V>>
    const previousState: seq<State<T, V>>
    var stack: seq<T>
    var state: seq<State<T, V>>
    var toBeSent: set<OutboundMessage<ID, T, V>>

    /** What the context was built from. */
    function Given(): Inputs<ID, T, V>
    {
      Inputs(localId, messages, previousState)
    }

    function Snapshot(): Round<ID, T, V>
      reads this
    {
      Round(stack, state, toBeSent)
    }

    ghost predicate Valid()
      reads this
    {
      UniquePaths(state) && AnisotropicUnique(toBeSent, localId)
    }

    constructor(localId: ID, messages: seq<InboundMessage<ID, T, V>>, previousState: seq<State<T, V>>)
      ensures Valid()
      ensures this.localId == localId && this.messages == messages && this.previousState == previousState
      ensures stack == [] && state == [] && toBeSent == {}
    {
      this.localId := localId;
      this.messages := messages;
      this.previousState := previousState;
      stack := [];
      state := [];
      toBeSent := {};
    }

    /** `messagesToSend()`: at most one anisotropic message per receiver. */
    function MessagesToSend(): (r: set<OutboundMessage<ID, T, V>>)
      reads this
      requires Valid()
      ensures AnisotropicUnique(r, localId)
    {
      toBeSent
    }

    /** `newState()`: at most one entry per path. */
    function NewState(): (r: seq<State<T, V>>)
      reads this
      requires Valid()
      ensures UniquePaths(r)
    {
      state
    }

    method Exchange(initial: Nullable<V>, body: NField<ID, V> -> NField<ID, V>) returns (r: NField<ID, V>)
      requires Valid()
      modifies this`state, this`toBeSent
      ensures Valid()
      ensures (r, Snapshot()) == ExchangeSpec(Given(), old(Snapshot()), initial, body)
    {
      var path := CurrentPath(stack);
      var neighbors := MessagesAt(messages, path);
      var subject := Field(localId, Previous(Given(), path, initial), neighbors);
      r := body(subject);
      AddIsotropic(toBeSent, localId, map[path := r.local], localId);
      toBeSent := toBeSent + {Isotropic(localId, map[path := r.local])};
      if neighbors != map[] {
        ghost var start := toBeSent;
        var out := Receivers(r, localId);
        var pending := out.Keys;
        ghost var sent: map<ID, Nullable<V>> := map[];
        SendAnisotropicToNobody(start, localId, path);
        while pending != {}
          invariant state == old(state)
          invariant pending <= out.Keys
          invariant sent.Keys == out.Keys - pending
          invariant forall id :: id in sent ==> sent[id] == out[id]
          invariant toBeSent == SendAnisotropic(start, localId, sent, path)
          decreases pending
        {
          var id :| id in pending;
          SendAnisotropicKeepsUnique(start, localId, sent, path);
          SendAnisotropicQueued(start, localId, sent, path, id);
          var payload := map[path := out[id]];
          if m :| m in toBeSent && IsAnisotropicTo(m, localId, id) {
            QueuedIs(toBeSent, localId, id, m);
            payload := m.message;
          }
          assert payload[path := out[id]] == Queued(start, localId, id)[path := out[id]];
          SendAnisotropicStep(start, localId, sent, path, id, out[id]);
          toBeSent := Requeued(toBeSent, localId, id, payload[path := out[id]]);
          sent := sent[id := out[id]];
          pending := pending - {id};
        }
        assert sent == out;
        SendAnisotropicKeepsUnique(start, localId, out, path);
      }
      ReplacedKeepsUnique(state, path, r.local);
      state := Replaced(state, path, r.local);
    }

    method Repeating(initial: Nullable<V>, step: Nullable<V> -> Nullable<V>) returns (r: Nullable<V>)
      requires Valid()
      modifies this`state
      ensures Valid()
      ensures (r, Snapshot()) == RepeatingSpec(Given(), old(Snapshot()), initial, step)
    {
      var path := CurrentPath(stack);
      var retained := StateAt(previousState, path);
      if retained.NonNull? && step(retained).NonNull? {
        r := step(retained);
      } else {
        r := step(initial);
      }
      ReplacedKeepsUnique(state, path, r);
      state := Replaced(state, path, r);
    }

    method AlignedOn(pivot: T, body: Program<ID, T, V>) returns (r: Returned<ID, V>)
      requires Valid()
      modifies this`stack, this`state, this`toBeSent
      ensures Valid()
      ensures stack == old(stack)
      ensures (r, Snapshot()) == Eval(Given(), AlignedOnOp(pivot, body), old(Snapshot()))
      decreases body, 1
    {
      EvalKeepsValid(Given(), AlignedOnOp(pivot, body), Snapshot());
      stack := stack + [pivot];
      r := Run(body);
      stack := stack[..|stack| - 1];
    }

    /** Runs a program on this context. */
    method Run(p: Program<ID, T, V>) returns (r: Returned<ID, V>)
      requires Valid()
      modifies this`stack, this`state, this`toBeSent
      ensures Valid()
      ensures stack == old(stack)
      ensures (r, Snapshot()) == Eval(Given(), p, old(Snapshot()))
      decreases p, 0
    {
      EvalKeepsValid(Given(), p, Snapshot());
      match p
      case ExchangeOp(initial, body) =>
        var f := Exchange(initial, body);
        r := FieldValue(f);
      case RepeatingOp(initial, step) =>
        var v := Repeating(initial, step);
        r := LocalValue(v);
      case AlignedOnOp(pivot, inner) =>
        r := AlignedOn(pivot, inner);
      case Sequence(first, next) =>
        var _ := Run(first);
        r := Run(next);
    }
  }
}
