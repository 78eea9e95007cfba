/** Operations run on the worker pool, their results collected into two maps. */
module OperationParallelizer {
  import opened Common
  import opened FanOut

  const MAX_NUM_CONCURRENT_REQUESTS: nat := 25

  type OperationID = string

  /** What an operation returns; without an error it succeeded. */
  datatype Outcome<+D, +E> = Outcome(data: D, err: Option<E>)

  type Results<D, E> = seq<(OperationID, Outcome<D, E>)>

  function ParallelSetup<D, E>(numOperations: nat): Setup<Outcome<D, E>> {
    Setup(MAX_NUM_CONCURRENT_REQUESTS, numOperations, (_: Outcome<D, E>) => true)
  }

  function Successes<D, E>(results: Results<D, E>): map<OperationID, D> {
    if results == [] then map[]
    else
      var init, (id, outcome) := Successes(results[..|results| - 1]), results[|results| - 1];
      if outcome.err.None? then init[id := outcome.data] else init
  }

  function Failures<D, E>(results: Results<D, E>): map<OperationID, E> {
    if results == [] then map[]
    else
      var init, (id, outcome) := Failures(results[..|results| - 1]), results[|results| - 1];
      if outcome.err.None? then init else init[id := outcome.err.value]
  }

  method Drain<D, E>(results: Results<D, E>) returns (succeeded: map<OperationID, D>, failed: map<OperationID, E>)
    ensures succeeded == Successes(results) && failed == Failures(results)
  {
    succeeded, failed := map[], map[];
    for i := 0 to |results|
      invariant succeeded == Successes(results[..i]) && failed == Failures(results[..i])
    {
      var (id, outcome) := results[i];
      assert results[..i + 1][..i] == results[..i];
      if outcome.err.None? {
        succeeded := succeeded[id := outcome.data];
      } else {
        failed := failed[id := outcome.err.value];
      }
    }
    assert results[..|results|] == results;
  }

  /** The two maps for given outcomes, with no mention of any schedule. */
  ghost function ExpectedSuccesses<D, E>(outcomes: map<OperationID, Outcome<D, E>>): map<OperationID, D> {
    map id | id in outcomes && outcomes[id].err.None? :: outcomes[id].data
  }

  ghost function ExpectedFailures<D, E>(outcomes: map<OperationID, Outcome<D, E>>): map<OperationID, E> {
    map id | id in outcomes && outcomes[id].err.Some? :: outcomes[id].err.value
  }

  ghost predicate EachOnce<D, E>(results: Results<D, E>, outcomes: map<OperationID, Outcome<D, E>>) {
    && (forall i, j | 0 <= i < j < |results| :: results[i].0 != results[j].0)
    && (forall i | 0 <= i < |results| :: results[i].0 in outcomes && results[i].1 == outcomes[results[i].0])
    && ChannelIds(results) == outcomes.Keys
  }

  lemma EachOnceWithoutLast<D, E>(results: Results<D, E>, outcomes: map<OperationID, Outcome<D, E>>)
    requires EachOnce(results, outcomes) && results != []
    ensures var n := |results| - 1;
            EachOnce(results[..n], outcomes - {results[n].0})
  {
    var n := |results| - 1;
    assert results == results[..n] + [(results[n].0, results[n].1)];
    ChannelIdsSnoc(results[..n], results[n].0, results[n].1);
    assert results[n].0 !in ChannelIds(results[..n]);
  }

  lemma ExpectedOfOneMore<D, E>(outcomes: map<OperationID, Outcome<D, E>>, id: OperationID)
    requires id in outcomes
    ensures var o, fewer := outcomes[id], outcomes - {id};
            && ExpectedSuccesses(outcomes) ==
                 (if o.err.None? then ExpectedSuccesses(fewer)[id := o.data] else ExpectedSuccesses(fewer))
            && ExpectedFailures(outcomes) ==
                 (if o.err.None? then ExpectedFailures(fewer) else ExpectedFailures(fewer)[id := o.err.value])
  {
  }

  lemma {:induction false} DrainedMapsAreExpected<D, E>(results: Results<D, E>,
                                                        outcomes: map<OperationID, Outcome<D, E>>)
    requires EachOnce(results, outcomes)
    ensures Successes(results) == ExpectedSuccesses(outcomes) && Failures(results) == ExpectedFailures(outcomes)
  {
    hide ExpectedSuccesses, ExpectedFailures;
    if results == [] {
      NothingExpected(outcomes);
    } else {
      var n := |results| - 1;
      EachOnceWithoutLast(results, outcomes);
      DrainedMapsAreExpected(results[..n], outcomes - {results[n].0});
      ExpectedOfOneMore(outcomes, results[n].0);
    }
  }

  lemma NothingExpected<D, E>(outcomes: map<OperationID, Outcome<D, E>>)
    requires outcomes.Keys == {}
    ensures ExpectedSuccesses(outcomes) == map[] && ExpectedFailures(outcomes) == map[]
  {
  }

  lemma ExpectedMapsPartition<D, E>(outcomes: map<OperationID, Outcome<D, E>>)
    ensures ExpectedSuccesses(outcomes).Keys !! ExpectedFailures(outcomes).Keys
    ensures ExpectedSuccesses(outcomes).Keys + ExpectedFailures(outcomes).Keys == outcomes.Keys
    ensures forall id | id in ExpectedSuccesses(outcomes) ::
              id in outcomes && outcomes[id] == Outcome(ExpectedSuccesses(outcomes)[id], None)
    ensures forall id | id in ExpectedFailures(outcomes) ::
              id in outcomes && outcomes[id].err == Some(ExpectedFailures(outcomes)[id])
  {
  }

  /** What deterministic operations return, one answer each. */
  ghost function FixedOutcomes<D, E>(operations: map<OperationID, Task<Outcome<D, E>>>)
    : map<OperationID, Outcome<D, E>>
  {
    map id | id in operations :: operations[id](0)
  }

  lemma DeterministicOperationsReturnFixed<D, E>(operations: map<OperationID, Task<Outcome<D, E>>>,
                                                 returned: map<OperationID, Outcome<D, E>>)
    requires returned.Keys == operations.Keys
    requires forall id | id in operations :: Deterministic(operations[id])
    requires forall id | id in operations :: MayReturn(operations[id], returned[id])
    ensures returned == FixedOutcomes(operations)
  {
    forall id | id in operations ensures returned[id] == operations[id](0) {
      var t: nat :| operations[id](t) == returned[id];
      assert Deterministic(operations[id]);
    }
  }

  /** Once the channel is closed it holds every operation's own result, once. */
  lemma ClosedChannelIsComplete<D, E>(ids: set<OperationID>, p: Pool<OperationID, Outcome<D, E>>)
    requires Invariant(ParallelSetup<D, E>(|ids|), ids, p) && p.closed
    ensures p.returned.Keys == ids && EachOnce(p.channel, p.returned)
  {
    assert ReportedIds(ParallelSetup<D, E>(|ids|), p) == p.returned.Keys;
  }

  /**
    For operations whose result is fixed, every complete run ends with the same two maps: the
    ones read off the operations.
   */
  lemma MapsIndependentOfSchedule<D, E>(
    outcomes: map<OperationID, Outcome<D, E>>,
    ps: seq<Pool<OperationID, Outcome<D, E>>>, steps: seq<Step<OperationID, Outcome<D, E>>>)
    requires IsRun(ParallelSetup<D, E>(|outcomes|), outcomes.Keys, ps, steps) && ps[|steps|].closed
    requires forall i | 0 <= i < |steps| && steps[i].Return? && steps[i].id in outcomes ::
               steps[i].outcome == outcomes[steps[i].id]
    ensures Successes(ps[|steps|].channel) == ExpectedSuccesses(outcomes)
    ensures Failures(ps[|steps|].channel) == ExpectedFailures(outcomes)
  {
    var setup, ids, p := ParallelSetup<D, E>(|outcomes|), outcomes.Keys, ps[|steps|];
    assert |ids| == |outcomes|;
    RunKeepsInvariant(setup, ids, ps, steps);
    ClosedChannelIsComplete(ids, p);
    forall id | id in ids ensures p.returned[id] == outcomes[id] {
      ReturnedInRun(setup, ids, ps, steps, id);
    }
    assert p.returned == outcomes;
    DrainedMapsAreExpected(p.channel, outcomes);
  }

  /**
    Whatever the schedule: the maps split the operations between them, each entry is something
    that very operation returned, and fixed operations leave no choice at all.
   */
  method RunOperationsInParallel<D, E>(operations: map<OperationID, Task<Outcome<D, E>>>)
    returns (successfulOperations: map<OperationID, D>, failedOperations: map<OperationID, E>)
    ensures successfulOperations.Keys !! failedOperations.Keys
    ensures successfulOperations.Keys + failedOperations.Keys == operations.Keys
    ensures forall id | id in successfulOperations ::
              MayReturn(operations[id], Outcome(successfulOperations[id], None))
    ensures forall id | id in failedOperations ::
              exists data :: MayReturn(operations[id], Outcome(data, Some(failedOperations[id])))
    ensures (forall id | id in operations :: Deterministic(operations[id])) ==>
              && successfulOperations == ExpectedSuccesses(FixedOutcomes(operations))
              && failedOperations == ExpectedFailures(FixedOutcomes(operations))
  {
    hide Invariant, EachOnce, Successes, Failures, ExpectedSuccesses, ExpectedFailures, FixedOutcomes, Deterministic;
    var pool := RunToClose(ParallelSetup<D, E>(|operations|), operations);
    ghost var ids := operations.Keys;
    assert |ids| == |operations|;
    ClosedChannelIsComplete(ids, pool);
    DrainedMapsAreExpected(pool.channel, pool.returned);
    ExpectedMapsPartition(pool.returned);
    successfulOperations, failedOperations := Drain(pool.channel);
    if forall id | id in operations :: Deterministic(operations[id]) {
      DeterministicOperationsReturnFixed(operations, pool.returned);
    }
  }

  /** At most 25 at once, room for every result, and every result reported. */
  lemma ParallelSetupIs<D, E>(numOperations: nat, o: Outcome<D, E>)
    ensures var setup := ParallelSetup<D, E>(numOperations);
            setup.workers == 25 && setup.capacity == numOperations && setup.emits(o)
  {
  }
}
