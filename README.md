# Collektive aggregate core, modelled in Dafny

Collektive is a Kotlin DSL for aggregate programming. A device runs the same
program in rounds. In each round it reads the messages its neighbours sent
last round and the state it kept. Every aggregate operator call is aligned
by its *path*, the position of the call on an alignment stack. The round
ends with two outputs: the messages for the neighbours and a new state.

This project models the following parts:

- **The aggregate context** (`Aggregate`, `aggregate_context.dfy`).
  - `exchange` builds the neighbour field from the inbound messages at the current path and from the local previous value, then runs the body.
  - It queues one isotropic message for everyone.
  - When it heard from neighbours, it also queues one anisotropic message per neighbour, merging into the message already queued for that neighbour.
  - It records the local result as state at the path.
  - `repeating` folds the previous state through a step function.
  - `alignedOn` pushes a pivot, runs a body and pops it.
  - The class `AggregateContext` keeps the context's mutable fields. Its methods are proved against ghost functions of the round (`ExchangeSpec`, `RepeatingSpec`, `Eval`).
- **The outbound envelope** (`Networking`, `outbound_envelope.dfy`).
  - Per path, it holds a default payload for everyone.
  - Per receiver, it holds a list of override entries.
  - `addData` refuses a path that is already present.
  - `prepareMessageFor` selects what one receiver gets.
- **The spreading library** (`Spreading`, `spreading.dfy`).
  - `gradientCast` computes, on top of `share`, the minimum-distance candidate over the aligned neighbours, with clamping and a triangle-inequality check.
  - `distanceTo`, `hopDistanceTo` and the `Int` overload of `gradientCast` are instances of it. Kotlin's 32-bit `Int` arithmetic is written out.
- **Field operations** (`FieldModel`, `FieldManipulation`): `min`, `max`, `plus`, `map` and the `includingSelf` selection.
- **The round driver of the map-based API** (`ComputationStyle`): `singleCycle` and `runUntil` against a network.
- **The field registry** (`Registry`): `Fields`, a `put`-semantics map from events to fields.

Failures that the Kotlin code signals by throwing are modelled as values:
- `Result`/`Outcome` in `base.dfy`, with one `Error` constructor per cause;
- `Nullable` for Kotlin's `null`.

## Model

| member | source | states |
|---|---|---|
| Aggregate.CurrentPathInjective | dsl/src/commonMain/kotlin/it/unibo/collektive/aggregate/AggregateContext.kt:60 | two alignment stacks give the same path exactly when they hold the same tokens: distinct stacks give distinct paths, and two calls made on the same stack share one |
| Aggregate.MessagesAt | dsl/src/commonMain/kotlin/it/unibo/collektive/aggregate/AggregateContext.kt:106-108 | every key of the neighbour map is the sender of some inbound message that carries the path |
| Aggregate.MessagesAtHasEverySender | dsl/src/commonMain/kotlin/it/unibo/collektive/aggregate/AggregateContext.kt:106-108 | every sender of an inbound message that carries the path has an entry in the neighbour map |
| Aggregate.MessagesAtTakesLast | dsl/src/commonMain/kotlin/it/unibo/collektive/aggregate/AggregateContext.kt:106-108 | each entry comes from a message of that sender carrying the path, namely the last such message (`associate` keeps the last pair per key) |
| Aggregate.StateAt | dsl/src/commonMain/kotlin/it/unibo/collektive/aggregate/AggregateContext.kt:111 | no entry at the path gives null; otherwise the value of the first entry at the path |
| Aggregate.Previous | dsl/src/commonMain/kotlin/it/unibo/collektive/aggregate/AggregateContext.kt:61 | with no entry at the path, the initial value; otherwise the first entry's value, or the initial value when that entry holds null |
| Aggregate.Subject | dsl/src/commonMain/kotlin/it/unibo/collektive/aggregate/AggregateContext.kt:60-62 | the exchange subject is centred on the device, holds the previous value (or the initial one) locally and exactly the neighbours' messages at the path elsewhere |
| Aggregate.SubjectEntries | dsl/src/commonMain/kotlin/it/unibo/collektive/aggregate/AggregateContext.kt:60-62 | the subject has an entry for every sender at the path, and each neighbour value is that sender's last message at the path |
| Aggregate.Without | dsl/src/commonMain/kotlin/it/unibo/collektive/aggregate/AggregateContext.kt:80 | filtering keeps exactly the state entries at other paths |
| Aggregate.Replaced | dsl/src/commonMain/kotlin/it/unibo/collektive/aggregate/AggregateContext.kt:79-81 | the new entry comes last; every earlier entry is an old one at another path; every old entry at another path is kept |
| Aggregate.ReplacedEntries | dsl/src/commonMain/kotlin/it/unibo/collektive/aggregate/AggregateContext.kt:79-81 | after recording, the path holds exactly one entry with the new value and every other path's entries are unchanged |
| Aggregate.ReplacedKeepsUnique | dsl/src/commonMain/kotlin/it/unibo/collektive/aggregate/AggregateContext.kt:79-81 | recording a value keeps the state at most one entry per path |
| Aggregate.RetainedNextRound | dsl/src/commonMain/kotlin/it/unibo/collektive/aggregate/AggregateContext.kt:79-81 | a state that is handed back as the next round's previous state yields the recorded value at that path |
| Aggregate.QueuedIs | dsl/src/commonMain/kotlin/it/unibo/collektive/aggregate/AggregateContext.kt:67-70 | when sends carry at most one anisotropic message per receiver, the message already queued for a receiver is the one found by `firstOrNull` |
| Aggregate.SendAnisotropicKeepsUnique | dsl/src/commonMain/kotlin/it/unibo/collektive/aggregate/AggregateContext.kt:66-77 | the per-neighbour sends keep at most one anisotropic message per receiver |
| Aggregate.SendAnisotropicQueued | dsl/src/commonMain/kotlin/it/unibo/collektive/aggregate/AggregateContext.kt:66-77 | a receiver the loop does not visit keeps its queued payload |
| Aggregate.SendAnisotropicStep | dsl/src/commonMain/kotlin/it/unibo/collektive/aggregate/AggregateContext.kt:67-76 | one iteration (remove the receiver's message, add the merged one) extends the sends by that receiver, whatever order the receivers are visited in |
| Aggregate.SendAnisotropicEffect | dsl/src/commonMain/kotlin/it/unibo/collektive/aggregate/AggregateContext.kt:65-77 | afterwards each visited neighbour has exactly one anisotropic message, equal to its earlier payload plus the path's value; other messages are untouched |
| Aggregate.AddIsotropic | dsl/src/commonMain/kotlin/it/unibo/collektive/aggregate/AggregateContext.kt:64 | queuing the isotropic message changes no receiver's anisotropic payload |
| Aggregate.SendAnisotropic | dsl/src/commonMain/kotlin/it/unibo/collektive/aggregate/AggregateContext.kt:66-77 | every receiver gets its queued payload plus the path's value; messages to other receivers are kept; nothing else is added |
| Aggregate.Receivers | dsl/src/commonMain/kotlin/it/unibo/collektive/aggregate/AggregateContext.kt:66 | the anisotropic receivers are every key of the returned field except the device's own id, with the field's values |
| Aggregate.ExchangeSpec | dsl/src/commonMain/kotlin/it/unibo/collektive/aggregate/AggregateContext.kt:59-83 | the exchange returns the body applied to the subject and leaves the alignment stack as it found it; the anisotropic receivers are the returned field's entries other than the device's own id |
| Aggregate.ExchangeKeepsValid | dsl/src/commonMain/kotlin/it/unibo/collektive/aggregate/AggregateContext.kt:64-81 | exchange keeps one state entry per path and one anisotropic message per receiver |
| Aggregate.ExchangeSendsIsotropic | dsl/src/commonMain/kotlin/it/unibo/collektive/aggregate/AggregateContext.kt:64 | exchange queues the isotropic message mapping the path to the result's local value |
| Aggregate.ExchangeRecordsState | dsl/src/commonMain/kotlin/it/unibo/collektive/aggregate/AggregateContext.kt:79-81 | exchange records the result's local value as the state at the path and leaves other paths unchanged |
| Aggregate.ExchangeAnisotropic | dsl/src/commonMain/kotlin/it/unibo/collektive/aggregate/AggregateContext.kt:65-77 | with no messages at the path only the isotropic message is added; otherwise every entry of the result other than the device's own reaches its neighbour, merged into what was already queued for it, other messages are kept, and nothing but these and the isotropic message is added |
| Aggregate.RepeatingValue | dsl/src/commonMain/kotlin/it/unibo/collektive/aggregate/AggregateContext.kt:90 | the step is applied to the previous state when there is one and it does not yield null; in every other case (no previous value, or the step maps it to null) to the initial value |
| Aggregate.RepeatingSpec | dsl/src/commonMain/kotlin/it/unibo/collektive/aggregate/AggregateContext.kt:89-93 | repeating returns `RepeatingValue`, records it as the single entry at the path, keeps one entry per path, and leaves the stack and the outbound messages unchanged |
| Aggregate.RepeatingAcrossRounds | dsl/src/commonMain/kotlin/it/unibo/collektive/aggregate/AggregateContext.kt:89-93 | the next round applies the step to the recorded value when that is non-null and the step keeps it non-null, and to the initial value otherwise |
| Aggregate.RepeatingRecordsState | dsl/src/commonMain/kotlin/it/unibo/collektive/aggregate/AggregateContext.kt:91 | after repeating the path holds exactly one entry with the returned value and every other path's entries are unchanged |
| Aggregate.Eval | dsl/src/commonMain/kotlin/it/unibo/collektive/aggregate/AggregateContext.kt:100-103 | any program leaves the alignment stack as it found it |
| Aggregate.EvalKeepsValid | dsl/src/commonMain/kotlin/it/unibo/collektive/aggregate/AggregateContext.kt:59-103 | any sequence of exchange, repeating and alignedOn keeps one state entry per path and one anisotropic message per receiver |
| Aggregate.AlignedOnRunsBodyDeeper | dsl/src/commonMain/kotlin/it/unibo/collektive/aggregate/AggregateContext.kt:100-103 | alignedOn runs its body one pivot deeper and restores the stack afterwards |
| Aggregate.AggregateContext.constructor | dsl/src/commonMain/kotlin/it/unibo/collektive/aggregate/AggregateContext.kt:21-29 | a context starts with an empty stack, no state and nothing to send |
| Aggregate.AggregateContext.MessagesToSend | dsl/src/commonMain/kotlin/it/unibo/collektive/aggregate/AggregateContext.kt:34 | the outbound set holds at most one anisotropic message per receiver |
| Aggregate.AggregateContext.NewState | dsl/src/commonMain/kotlin/it/unibo/collektive/aggregate/AggregateContext.kt:39 | the new state holds at most one entry per path |
| Aggregate.AggregateContext.Exchange | dsl/src/commonMain/kotlin/it/unibo/collektive/aggregate/AggregateContext.kt:59-83 | the in-place exchange, whose loop visits every entry of the returned field other than the device's own, returns and leaves exactly what `ExchangeSpec` describes |
| Aggregate.AggregateContext.Repeating | dsl/src/commonMain/kotlin/it/unibo/collektive/aggregate/AggregateContext.kt:89-93 | the in-place repeating returns and leaves exactly what `RepeatingSpec` describes |
| Aggregate.AggregateContext.AlignedOn | dsl/src/commonMain/kotlin/it/unibo/collektive/aggregate/AggregateContext.kt:100-103 | push, run, pop: the stack afterwards equals the stack before, and the outcome is the one `Eval` gives |
| Aggregate.AggregateContext.Run | dsl/src/commonMain/kotlin/it/unibo/collektive/aggregate/AggregateContext.kt:59-103 | running a program's operator calls in order on the context gives what `Eval` describes and keeps the context valid |
| Networking.BucketToMapKeys | dsl/src/commonMain/kotlin/it/unibo/collektive/networking/OutboundEnvelope.kt:97 | a receiver's override list becomes a map over exactly its paths |
| Networking.BucketToMapValues | dsl/src/commonMain/kotlin/it/unibo/collektive/networking/OutboundEnvelope.kt:97 | in a list without repeated paths, every entry's payload is the map's value at its path |
| Networking.AddDataSpec | dsl/src/commonMain/kotlin/it/unibo/collektive/networking/OutboundEnvelope.kt:66-89 | a path already present fails with an alignment clash and changes nothing; otherwise the default is stored, each overriding receiver's list grows by exactly this path's entry, and other receivers are untouched |
| Networking.AddDataKeepsWellFormed | dsl/src/commonMain/kotlin/it/unibo/collektive/networking/OutboundEnvelope.kt:71-88 | override paths stay among the default paths and are never repeated in a receiver's list |
| Networking.MaterializeTakesBucketOnly | dsl/src/commonMain/kotlin/it/unibo/collektive/networking/OutboundEnvelope.kt:97 | a receiver without overrides gets the defaults; a receiver with overrides gets exactly its override entries |
| Networking.Materialize | dsl/src/commonMain/kotlin/it/unibo/collektive/networking/OutboundEnvelope.kt:97 | a receiver without overrides gets the defaults; a receiver with overrides gets exactly the paths of its override list |
| Networking.MaterializeWithinDefaults | dsl/src/commonMain/kotlin/it/unibo/collektive/networking/OutboundEnvelope.kt:97-100 | no receiver gets a path that has no default, so an empty envelope sends nothing |
| Networking.MaterializeMergedCoversDefaults | dsl/src/commonMain/kotlin/it/unibo/collektive/networking/OutboundEnvelope.kt:97 | the corrected payload covers every default path, takes the receiver's overrides where present and the defaults elsewhere |
| Networking.MaterializeDropsDefaults | dsl/src/commonMain/kotlin/it/unibo/collektive/networking/OutboundEnvelope.kt:97 | concrete envelope in which a receiver with one override misses the other default path, while the merged payload has it |
| Networking.OutboundEnvelope.constructor | dsl/src/commonMain/kotlin/it/unibo/collektive/networking/OutboundEnvelope.kt:60-64 | a new envelope has no defaults and no overrides |
| Networking.OutboundEnvelope.AddData | dsl/src/commonMain/kotlin/it/unibo/collektive/networking/OutboundEnvelope.kt:66-89 | the in-place addData, with its loop over the overrides, returns and leaves exactly what `AddDataSpec` describes and keeps the envelope well formed |
| Networking.OutboundEnvelope.PrepareMessageFor | dsl/src/commonMain/kotlin/it/unibo/collektive/networking/OutboundEnvelope.kt:91-98 | a receiver with an override list gets that list as a map, any other receiver the defaults; the envelope is only read |
| Networking.OutboundEnvelope.IsEmpty | dsl/src/commonMain/kotlin/it/unibo/collektive/networking/OutboundEnvelope.kt:100 | empty exactly when there are no defaults |
| Networking.OutboundEnvelope.IsNotEmpty | dsl/src/commonMain/kotlin/it/unibo/collektive/networking/OutboundEnvelope.kt:102 | the negation of `isEmpty` |
| Networking.EmptyRoundPayload | dsl/src/commonTest/kotlin/it/unibo/collektive/alignment/BranchAlignmentTest.kt:48-67 | a round that shares nothing yields an empty envelope whose message for any receiver carries no path |
| Spreading.WrapAdd | stdlib/src/commonMain/kotlin/it/unibo/collektive/stdlib/spreading/Spreading.kt:48 | `Int::plus` agrees with the true sum modulo 2^32 and equals it when it fits in 32 bits |
| Spreading.SaturatingAdd | stdlib/src/commonMain/kotlin/it/unibo/collektive/stdlib/spreading/Spreading.kt:48 | the corrected addition equals the true sum when it fits and sticks at the bound that was passed otherwise |
| Spreading.CoerceIn | stdlib/src/commonMain/kotlin/it/unibo/collektive/stdlib/spreading/Spreading.kt:84-85 | the clamped value lies in [bottom, top]; it is the lower bound for a value below it, the upper bound for a value above it, and the value itself otherwise |
| Spreading.Accumulate | stdlib/src/commonMain/kotlin/it/unibo/collektive/stdlib/spreading/Spreading.kt:85-91 | fails (triangle inequality) exactly when the clamped total is below either operand; otherwise the distance is the accumulation clamped to [bottom, top], dominates both operands, and carries the accumulated data |
| Spreading.Candidates | stdlib/src/commonMain/kotlin/it/unibo/collektive/stdlib/spreading/Spreading.kt:83-92 | fails exactly when some aligned neighbour's candidate fails; otherwise it has one candidate per aligned neighbour |
| Spreading.MinBy | stdlib/src/commonMain/kotlin/it/unibo/collektive/stdlib/spreading/Spreading.kt:95 | with no paths the base value; otherwise one of the paths, at a distance no greater than any other |
| Spreading.GradientShare | stdlib/src/commonMain/kotlin/it/unibo/collektive/stdlib/spreading/Spreading.kt:81-96 | fails exactly on a bad range or a violated triangle inequality; a source shares (bottom, local); an isolated device shares (top, local); otherwise the nearest aligned candidate, always in [bottom, top] |
| Spreading.GradientCast | stdlib/src/commonMain/kotlin/it/unibo/collektive/stdlib/spreading/Spreading.kt:71-98 | the data part of the shared pair, failing exactly when the share fails |
| Spreading.GradientCastCases | stdlib/src/commonMain/kotlin/it/unibo/collektive/stdlib/spreading/Spreading.kt:93-96 | a failure comes from an aligned neighbour's check; with no aligned neighbour it never fails; a source or an isolated device returns its local value |
| Spreading.CandidatesInRange | stdlib/src/commonMain/kotlin/it/unibo/collektive/stdlib/spreading/Spreading.kt:84-86 | the clamped metric lies in range, and a surviving candidate dominates the neighbour's distance and the metric |
| Spreading.DistanceToAtSource | stdlib/src/commonMain/kotlin/it/unibo/collektive/stdlib/spreading/Spreading.kt:25-42 | a source's distance is bottom |
| Spreading.DistanceTo | stdlib/src/commonMain/kotlin/it/unibo/collektive/stdlib/spreading/Spreading.kt:25-42 | a source is at bottom; with no aligned neighbour a device is at bottom (source) or top; otherwise the distance is the accumulation through an aligned neighbour whose clamped total is the least among all aligned neighbours (the closest source) |
| Spreading.DistanceCarriesAccumulation | stdlib/src/commonMain/kotlin/it/unibo/collektive/stdlib/spreading/Spreading.kt:37-39 | in distanceTo the data carried along a path is the accumulated distance itself |
| Spreading.HopDistanceAtSource | stdlib/src/commonMain/kotlin/it/unibo/collektive/stdlib/spreading/Spreading.kt:47-48 | a source's hop distance is 0 |
| Spreading.HopDistanceTo | stdlib/src/commonMain/kotlin/it/unibo/collektive/stdlib/spreading/Spreading.kt:47-48 | a source is at 0; an isolated non-source at `Int.MAX_VALUE`; otherwise one more (32-bit `Int::plus`) than some aligned neighbour, and no more than one more than any aligned neighbour (the nearest) |
| Spreading.HopDistanceFailsNextToTop | stdlib/src/commonMain/kotlin/it/unibo/collektive/stdlib/spreading/Spreading.kt:48 | as written, any aligned neighbour still at `Int.MAX_VALUE` (the initial share value) makes hopDistanceTo throw |
| Spreading.SaturatingNeverViolates | stdlib/src/commonMain/kotlin/it/unibo/collektive/stdlib/spreading/Spreading.kt:85-89 | with saturating addition on [0, MAX_VALUE], no non-negative neighbour distance fails the triangle check |
| Spreading.HopDistanceSaturatingNeverFails | stdlib/src/commonMain/kotlin/it/unibo/collektive/stdlib/spreading/Spreading.kt:47-48 | the corrected hop distance never fails on non-negative neighbour distances and is 0 at a source |
| Spreading.GradientCastIntFailsNextToSource | stdlib/src/commonMain/kotlin/it/unibo/collektive/stdlib/spreading/Spreading.kt:114 | as written, the Int gradientCast throws at any device next to a source (neighbour distance `Int.MIN_VALUE`, positive metric) |
| Spreading.GradientCastInt | stdlib/src/commonMain/kotlin/it/unibo/collektive/stdlib/spreading/Spreading.kt:107-114 | a source or an isolated device returns its local value; otherwise the data accumulated from the aligned neighbour with the least total distance (the closest source) |
| Spreading.GradientCastIntSaturatingNeverFails | stdlib/src/commonMain/kotlin/it/unibo/collektive/stdlib/spreading/Spreading.kt:114 | with bottom 0 and saturating addition the Int gradientCast never fails on non-negative distances and a source returns its local value |
| FieldModel.Field.ToMap | dsl/src/commonMain/kotlin/field/FieldManipulation.kt:14 | the full map of a field: the local entry plus every neighbour entry |
| FieldModel.Field.ExcludeSelf | dsl/src/commonMain/kotlin/field/FieldManipulation.kt:14 | the full map without the local device |
| FieldModel.FromMap | dsl/src/commonMain/kotlin/field/FieldManipulation.kt:25 | a field built from a map that contains the local id has exactly that map as its full map |
| FieldManipulation.HandleIncludingSelf | dsl/src/commonMain/kotlin/field/FieldManipulation.kt:13-14 | with `includingSelf` the whole field; otherwise exactly the neighbour entries (every key but the local one), with the values unchanged |
| FieldManipulation.Reduce | dsl/src/commonMain/kotlin/field/FieldManipulation.kt:7 | reducing fails exactly on an empty collection, and otherwise returns a member that is best under a total preorder |
| FieldManipulation.Min | dsl/src/commonMain/kotlin/field/FieldManipulation.kt:6-7 | fails exactly when the local entry is excluded and there are no neighbours; otherwise a selected value no greater than any other |
| FieldManipulation.Max | dsl/src/commonMain/kotlin/field/FieldManipulation.kt:10-11 | fails exactly when the local entry is excluded and there are no neighbours; otherwise a selected value no smaller than any other |
| FieldManipulation.Plus | dsl/src/commonMain/kotlin/field/FieldManipulation.kt:16-19 | as written, `a + b` is `a`: the element-wise sums are computed and discarded |
| FieldManipulation.SummedPlus | dsl/src/commonMain/kotlin/field/FieldManipulation.kt:16-19 | the corrected sum: same device and keys as the left operand, each value added to the right operand's value at that key (0 where absent) |
| FieldManipulation.PlusDropsRightOperand | dsl/src/commonMain/kotlin/field/FieldManipulation.kt:16-19 | concrete fields with local values 1 and 2: `plus` yields 1, the corrected sum 3 |
| FieldManipulation.Map | dsl/src/commonMain/kotlin/field/FieldManipulation.kt:21-26 | same local device and keys, each value transformed by the function |
| ComputationStyle.AlignmentStack.ClearStack | dsl/src/commonMain/kotlin/ComputationStyle.kt:11 | the stack is empty afterwards |
| ComputationStyle.SingleCycle | dsl/src/commonMain/kotlin/ComputationStyle.kt:5-17 | the result is the program's run on an empty stack over the given inputs, and the stack is empty afterwards |
| ComputationStyle.Network.Receive | dsl/src/commonMain/kotlin/ComputationStyle.kt:27 | returns the next inbound messages, re-indexed by path, and advances the receive count by one |
| ComputationStyle.Network.Send | dsl/src/commonMain/kotlin/ComputationStyle.kt:30 | appends exactly one (sender, messages) entry to the send log |
| ComputationStyle.SendsPerRound | dsl/src/commonMain/kotlin/ComputationStyle.kt:26-31 | k rounds send k times, and the j-th send carries round j's outbound messages from the local device |
| ComputationStyle.StateThreaded | dsl/src/commonMain/kotlin/ComputationStyle.kt:24-29 | the first round starts from empty state and each later round from the previous round's new state |
| ComputationStyle.RunUntil | dsl/src/commonMain/kotlin/ComputationStyle.kt:19-33 | runs exactly while the condition holds, receives and sends once per round, returns the last round's result, and fails when no round ran |
| Registry.ValuesOf | src/commonMain/kotlin/Fields.kt:4 | the values of the map at the given keys, one per key, in key order |
| Registry.Fields.constructor | src/commonMain/kotlin/Fields.kt:2 | the registry starts empty |
| Registry.Fields.AddField | src/commonMain/kotlin/Fields.kt:6 | a fresh field is stored under the event; the replaced field is returned, or null for a new event; other events keep their fields; a new event goes last in insertion order |
| Registry.Fields.RetrieveAllFields | src/commonMain/kotlin/Fields.kt:4 | exactly one field per registered event, in insertion order, including every stored field |

## Left out

- Unchecked casts (`as T`, `as? T`) in `messagesAt`, `stateAt`, `min`, `max` and `map` are left out. One value type stands for every type, so a value of the wrong type (a `ClassCastException`, or `null` from `as?`) is not modelled.
- Aggregate programs are a small datatype: exchange with a pure field body, repeating with a pure step, alignedOn, and sequencing. A body cannot call aggregate operators inside exchange or repeating, and it cannot throw. So the missing pop in `alignedOn` when the body throws (AggregateContext.kt:102) is not modelled.
- `Path`, `Stack`, `Field` and `FieldImpl` are not part of this model. A path is the stack's token sequence, which is injective by construction. A field is a local value plus a neighbour map.
- Kotlin's `Set` is modelled in two ways:
  - `previousState`/`state` are sequences, so the first-match order of `stateAt` is kept;
  - `toBeSent` is a Dafny `set`, so set equality on data classes is value equality.
  - `AggregateContext.Exchange` visits the neighbours in an arbitrary order. Its postcondition holds for every order.
- Aggregate.ExchangeSpec: the inbound messages are a sequence in `associate`'s iteration order. Nothing fixes the iteration order of a Kotlin `Set`.
- Networking: the `MessageFactory`, `Message`, serialization and `DataSharingMethod` are opaque. `PrepareMessageFor` returns the payload map that is handed to the factory. `LinkedHashMap` insertion order of the defaults is not modelled.
- Networking.OutboundEnvelope.constructor: only sizes in [0, 2^30) are modelled. Outside it, Kotlin's `expectedSize * 2` wraps, and `LinkedHashMap` throws only when the wrapped capacity is negative.
- Spreading.GradientShare: `alignedMap` is taken to be eager. `paths` is computed before the `when` (Spreading.kt:83-96), so the triangle check runs on every aligned neighbour, and a source fails when any neighbour's candidate fails. The `Field` implementation of `alignedMap` is not part of this model.
- Spreading: the `share`, `neighboring` and `metric()` evaluation are parameters. The neighbour field and the metric field are given.
  - `alignedMap` is modelled over the neighbour ids that both fields hold. Whether the local entry also passes through the triangle check is not stated by the source in view.
  - Which element `minBy` picks among ties is abstract; any minimal candidate is allowed.
  - The `Double` overloads (Spreading.kt:56-60 and 123-130) are left out, because they use floating point.
  - Convergence and self-stabilisation across rounds are left out.
- FieldManipulation: the `Double` arithmetic of `plus` is generic (`add`, `zero`). `map` reads `messages` as the field's whole map.
- ComputationStyle:
  - `IntId()` generation, `receive`, `send` and `switchIndexes` are outside the model. The local id is a parameter, and the network is an oracle of already re-indexed inbound maps.
  - `condition` is an oracle indexed by how often it was evaluated.
  - `compute` is a deterministic function of the context's inputs and the stack.
- ComputationStyle.RunUntil: requires that the condition eventually returns false. A run that never stops is not modelled.
- Registry: a `FieldImpl` is modelled by its identity only.
- The compiler plugin (alignment insertion and the branch-returns-field checker), the gossip library and the build tooling are not part of this model.

## Findings

Where the documented intent and the code disagree, the model follows the code: `Networking.OutboundEnvelope.PrepareMessageFor`, `Spreading.HopDistanceTo`, `Spreading.GradientCastInt` and `FieldManipulation.Plus` are as written. Each row pairs that behaviour with a corrected definition whose intended property is proved.

| source | as written | input that shows it | evidently intended | confidence | as-written member | corrected member |
|---|---|---|---|---|---|---|
| dsl/src/commonMain/kotlin/it/unibo/collektive/networking/OutboundEnvelope.kt:97 | a receiver with any override gets only its override entries; the defaults for other paths are dropped | defaults at paths 1 and 2; receiver 7 overrides path 1 only; its message lacks path 2 | every default path, with the receiver's overrides on top | high, not executed | Networking.MaterializeDropsDefaults | Networking.MaterializeMergedCoversDefaults |
| stdlib/src/commonMain/kotlin/it/unibo/collektive/stdlib/spreading/Spreading.kt:48 | `Int::plus` wraps `Int.MAX_VALUE + 1` to `Int.MIN_VALUE`; clamping gives 0, below the operand, so the triangle check throws | a non-source device with an aligned neighbour still at the initial share value (`Int.MAX_VALUE`, _) | saturating addition, so unreachable neighbours stay at the top and nothing throws | high, not executed | Spreading.HopDistanceFailsNextToTop | Spreading.HopDistanceSaturatingNeverFails |
| stdlib/src/commonMain/kotlin/it/unibo/collektive/stdlib/spreading/Spreading.kt:114 | bottom is `Int.MIN_VALUE`, so a source shares `MIN_VALUE`; the total `MIN_VALUE + 1` is then below the metric 1, and the check throws | a device with an aligned source neighbour and the default metric `neighboring(1)` | bottom 0 (as in hopDistanceTo) with saturating addition | medium, not executed | Spreading.GradientCastIntFailsNextToSource | Spreading.GradientCastIntSaturatingNeverFails |
| dsl/src/commonMain/kotlin/field/FieldManipulation.kt:16-19 | the element-wise sums are computed and discarded; `this` is returned | fields with local values 1 and 2 give 1 | a field of element-wise sums, 0 where the right operand lacks a key | high, not executed | FieldManipulation.PlusDropsRightOperand | FieldManipulation.SummedPlus |
