// The round driver of the map-based API generation: one round over a fresh
// context, and repeated rounds against a network until a condition fails
// (ComputationStyle.kt).
module ComputationStyle {
  import opened Base

  /** The process-wide alignment stack (`Stack`) that every context aligns on. */
  class AlignmentStack<T> {
    var tokens: seq<T>

    constructor()
      ensures tokens == []
    {
      tokens := [];
    }

    /** `Stack.clearStack()`. */
    method ClearStack()
      modifies this
      ensures tokens == []
    {
      tokens := [];
    }
  }

  /** `AggregateResult(result, toSend, newState)`. */
  datatype AggregateResult<X, O, P, V> = AggregateResult(result: X, toSend: O, newState: map<P, V>)

  /**
   * What running `compute` on a context built from `(localId, messages, state)`
   * yields: its value, the context's `messagesToSend()` and `newState()`, and
   * the alignment stack it leaves behind when started on `tokens`.
   */
  datatype Run<X, O, P, V, T> = Run(value: X, toSend: O, newState: map<P, V>, tokens: seq<T>)

  type Program<!ID(==), !P(==), !V, !T, X, O> = (ID, map<P, map<ID, V>>, map<P, V>, seq<T>) -> Run<X, O, P, V, T>

  /** The result of one round: `compute` runs on an empty stack, and its outputs are read afterwards. */
  function Cycle<ID(==), P(==), V, T, X, O>(compute: Program<ID, P, V, T, X, O>, localId: ID, messages: map<P, map<ID, V>>,
                                    state: map<P, V>): AggregateResult<X, O, P, V>
  {
    var run := compute(localId, messages, state, []);
    AggregateResult(run.value, run.toSend, run.newState)
  }

  /**
   * `singleCycle`: the stack is cleared, the program runs on a fresh context,
   * the result is read, and the stack is cleared again.
   */
  method SingleCycle<ID(==), P(==), V, T, X, O>(stack: AlignmentStack<T>, localId: ID, messages: map<P, map<ID, V>>, state: map<P, V>,
                                        compute: Program<ID, P, V, T, X, O>) returns (r: AggregateResult<X, O, P, V>)
    modifies stack
    ensures stack.tokens == []
    ensures r == Cycle(compute, localId, messages, state)
  {
    stack.ClearStack();
    var run := compute(localId, messages, state, stack.tokens);
    stack.tokens := run.tokens;
    r := AggregateResult(run.value, run.toSend, run.newState);
    stack.ClearStack();
  }

  // ---------------------------------------------------------------------------
  // The network and the rounds

  /**
   * The network a device runs against: `incoming(k)` is what the `k`-th
   * `receive()` hands over, already re-indexed by path (`switchIndexes`);
   * `sent` logs every `send`.
   */
  class Network<ID(==), P(==), V, O> {
    const incoming: nat -> map<P, map<ID, V>>
    var received: nat
    var sent: seq<(ID, O)>

    constructor(incoming: nat -> map<P, map<ID, V>>)
      ensures this.incoming == incoming && received == 0 && sent == []
    {
      this.incoming := incoming;
      received := 0;
      sent := [];
    }

    /** `receive().switchIndexes()`. */
    method Receive() returns (messages: map<P, map<ID, V>>)
      modifies this`received
      ensures messages == incoming(old(received))
      ensures received == old(received) + 1
    {
      messages := incoming(received);
      received := received + 1;
    }

    /** `send(localId, toSend)`. */
    method Send(localId: ID, toSend: O)
      modifies this`sent
      ensures sent == old(sent) + [(localId, toSend)]
    {
      sent := sent + [(localId, toSend)];
    }
  }

  /** The state round `k` starts from: empty for the first round, the previous round's `newState` after. */
  ghost function StateBefore<ID, P, V, T, X, O>(compute: Program<ID, P, V, T, X, O>, localId: ID,
                                               incoming: nat -> map<P, map<ID, V>>, offset: nat, k: nat): map<P, V>
    decreases k, 0
  {
    if k == 0 then map[] else RoundResult(compute, localId, incoming, offset, k - 1).newState
  }

  /** Round `k` of a run whose first `receive()` is the network's `offset`-th. */
  ghost function RoundResult<ID, P, V, T, X, O>(compute: Program<ID, P, V, T, X, O>, localId: ID,
                                               incoming: nat -> map<P, map<ID, V>>, offset: nat, k: nat): AggregateResult<X, O, P, V>
    decreases k, 1
  {
    Cycle(compute, localId, incoming(offset + k), StateBefore(compute, localId, incoming, offset, k))
  }

  /** The sends of the first `k` rounds, in order. */
  ghost function Sends<ID, P, V, T, X, O>(compute: Program<ID, P, V, T, X, O>, localId: ID,
                                         incoming: nat -> map<P, map<ID, V>>, offset: nat, k: nat): seq<(ID, O)>
  {
    if k == 0 then [] else Sends(compute, localId, incoming, offset, k - 1) + [(localId, RoundResult(compute, localId, incoming, offset, k - 1).toSend)]
  }

  /** Round `j` sends exactly once, from `localId`, carrying that round's `toSend`. */
  lemma {:induction false} SendsPerRound<ID, P, V, T, X, O>(compute: Program<ID, P, V, T, X, O>, localId: ID,
                                                           incoming: nat -> map<P, map<ID, V>>, offset: nat, k: nat)
    ensures |Sends(compute, localId, incoming, offset, k)| == k
    ensures forall j :: 0 <= j < k ==>
      Sends(compute, localId, incoming, offset, k)[j] == (localId, RoundResult(compute, localId, incoming, offset, j).toSend)
  {
    if k > 0 {
      SendsPerRound(compute, localId, incoming, offset, k - 1);
    }
  }

  /** Each round after the first starts from the state the round before it produced; the first starts empty. */
  lemma StateThreaded<ID, P, V, T, X, O>(compute: Program<ID, P, V, T, X, O>, localId: ID,
                                         incoming: nat -> map<P, map<ID, V>>, offset: nat, k: nat)
    ensures RoundResult(compute, localId, incoming, offset, 0) == Cycle(compute, localId, incoming(offset), map[])
    ensures RoundResult(compute, localId, incoming, offset, k + 1)
         == Cycle(compute, localId, incoming(offset + k + 1), RoundResult(compute, localId, incoming, offset, k).newState)
  {
  }

  /**
   * `runUntil`: while `condition` holds (its `k`-th evaluation is
   * `condition(k)`), receive, run one round on the state the last round left,
   * and send that round's messages. The result is the last round's, or
   * `NoResult` when no round ran. `rounds` counts the rounds that ran.
   */
  method RunUntil<ID(==), P(==), V, T, X, O>(stack: AlignmentStack<T>, localId: ID, condition: nat -> bool,
                                     network: Network<ID, P, V, O>, compute: Program<ID, P, V, T, X, O>)
    returns (r: Result<AggregateResult<X, O, P, V>>, ghost rounds: nat)
    requires exists k :: !condition(k)
    modifies stack, network
    ensures !condition(rounds) && forall k :: 0 <= k < rounds ==> condition(k)
    ensures network.received == old(network.received) + rounds
    ensures network.sent == old(network.sent) + Sends(compute, localId, network.incoming, old(network.received), rounds)
    ensures rounds == 0 ==> r == Failure(NoResult)
    ensures rounds > 0 ==> r == Success(RoundResult(compute, localId, network.incoming, old(network.received), rounds - 1))
    ensures rounds == 0 ==> stack.tokens == old(stack.tokens)
    ensures rounds > 0 ==> stack.tokens == []
  {
    ghost var start := network.received;
    ghost var stop :| !condition(stop);
    var state: map<P, V> := map[];
    var computed: Option<AggregateResult<X, O, P, V>> := None;
    var k := 0;
    while condition(k)
      invariant k <= stop
      invariant forall j :: 0 <= j < k ==> condition(j)
      invariant network.received == start + k
      invariant network.sent == old(network.sent) + Sends(compute, localId, network.incoming, start, k)
      invariant state == StateBefore(compute, localId, network.incoming, start, k)
      invariant k == 0 ==> computed == None
      invariant k > 0 ==> computed == Some(RoundResult(compute, localId, network.incoming, start, k - 1))
      invariant k == 0 ==> stack.tokens == old(stack.tokens)
      invariant k > 0 ==> stack.tokens == []
      decreases stop - k
    {
      var messages := network.Receive();
      var round := SingleCycle(stack, localId, messages, state, compute);
      computed := Some(round);
      state := round.newState;
      network.Send(localId, round.toSend);
      k := k + 1;
    }
    rounds := k;
    if computed.Some? {
      r := Success(computed.value);
    } else {
      r := Failure(NoResult);
    }
  }
}
