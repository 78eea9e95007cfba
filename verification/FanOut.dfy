/**
  Fan-out over a bounded worker pool and fan-in over a buffered channel, as a step system:
  every interleaving of submitting, starting, finishing and sending is a run of it.

  The pool's contract is all that is modelled of the pool: submitting never blocks, at most
  `workers` tasks are in progress, and StopWait waits for every task.
 */
module FanOut {

  /** `returned` records what each finished task returned; `sending` have yet to report it. */
  datatype Pool<!Id(==), +O> = Pool(
    pending: set<Id>,
    queued: set<Id>,
    running: set<Id>,
    sending: set<Id>,
    returned: map<Id, O>,
    channel: seq<(Id, O)>,
    closed: bool)

  datatype Step<Id, O> = Submit(id: Id) | Begin(id: Id) | Return(id: Id, outcome: O) | Send(id: Id) | StopWaitAndClose

  /** How many workers there are, how much the channel holds, and which outcomes are reported on it. */
  datatype Setup<!O> = Setup(workers: nat, capacity: nat, emits: O -> bool)

  function Initial<Id, O>(ids: set<Id>): Pool<Id, O> {
    Pool(ids, {}, {}, {}, map[], [], false)
  }

  predicate Enabled<Id, O>(setup: Setup<O>, p: Pool<Id, O>, step: Step<Id, O>) {
    match step
    case Submit(id) => id in p.pending
    case Begin(id) => id in p.queued && |p.running| + |p.sending| < setup.workers
    case Return(id, _) => id in p.running
    case Send(id) => id in p.sending && id in p.returned && |p.channel| < setup.capacity && !p.closed
    case StopWaitAndClose => p.pending + p.queued + p.running + p.sending == {} && !p.closed
  }

  function Next<Id, O>(setup: Setup<O>, p: Pool<Id, O>, step: Step<Id, O>): Pool<Id, O>
    requires Enabled(setup, p, step)
  {
    match step
    case Submit(id) => p.(pending := p.pending - {id}, queued := p.queued + {id})
    case Begin(id) => p.(queued := p.queued - {id}, running := p.running + {id})
    case Return(id, outcome) =>
      p.(running := p.running - {id},
         sending := if setup.emits(outcome) then p.sending + {id} else p.sending,
         returned := p.returned[id := outcome])
    case Send(id) => p.(sending := p.sending - {id}, channel := p.channel + [(id, p.returned[id])])
    case StopWaitAndClose => p.(closed := true)
  }

  // ---------- What every step keeps ----------

  ghost function ChannelIds<Id, O>(channel: seq<(Id, O)>): set<Id> {
    set i | 0 <= i < |channel| :: channel[i].0
  }

  ghost function ReportedIds<Id, O>(setup: Setup<O>, p: Pool<Id, O>): set<Id> {
    set id | id in p.returned && id !in p.sending && setup.emits(p.returned[id])
  }

  /** Every id is in exactly one stage, and closing leaves none behind. */
  ghost predicate Partitioned<Id(!new), O>(ids: set<Id>, p: Pool<Id, O>) {
    && (forall id :: id in ids <==> id in p.pending || id in p.queued || id in p.running || id in p.returned)
    && (forall id | id in p.pending :: id !in p.queued && id !in p.running && id !in p.returned)
    && (forall id | id in p.queued :: id !in p.running && id !in p.returned)
    && (forall id | id in p.running :: id !in p.returned)
    && (forall id | id in p.sending :: id in p.returned)
    && (p.closed ==> p.pending + p.queued + p.running + p.sending == {})
  }

  /** No more tasks are in progress than there are workers. */
  ghost predicate WithinWorkers<Id(!new), O>(setup: Setup<O>, p: Pool<Id, O>) {
    |p.running| + |p.sending| <= setup.workers
  }

  /** The channel holds each reported result once, as it was returned. */
  ghost predicate ChannelExact<Id(!new), O>(setup: Setup<O>, p: Pool<Id, O>) {
    && (forall id | id in p.sending && id in p.returned :: setup.emits(p.returned[id]))
    && (forall i | 0 <= i < |p.channel| ::
          p.channel[i].0 in p.returned && p.channel[i].1 == p.returned[p.channel[i].0])
    && (forall i, j | 0 <= i < j < |p.channel| :: p.channel[i].0 != p.channel[j].0)
    && ChannelIds(p.channel) == ReportedIds(setup, p)
  }

  ghost predicate Invariant<Id(!new), O>(setup: Setup<O>, ids: set<Id>, p: Pool<Id, O>) {
    Partitioned(ids, p) && WithinWorkers(setup, p) && ChannelExact(setup, p)
  }

  lemma InitialInvariant<Id(!new), O>(setup: Setup<O>, ids: set<Id>)
    ensures Invariant(setup, ids, Initial<Id, O>(ids))
  {
  }

  lemma ChannelIdsSnoc<Id(!new), O>(channel: seq<(Id, O)>, id: Id, o: O)
    ensures ChannelIds(channel + [(id, o)]) == ChannelIds(channel) + {id}
  {
    var longer := channel + [(id, o)];
    assert longer[|channel|].0 == id;
    forall x | x in ChannelIds(channel) ensures x in ChannelIds(longer) {
      var i :| 0 <= i < |channel| && channel[i].0 == x;
      assert longer[i].0 == x;
    }
  }

  lemma MoveOne<T>(a: set<T>, x: T)
    ensures x in a ==> |a - {x}| == |a| - 1
    ensures x !in a ==> |a + {x}| == |a| + 1
  {
  }

  lemma StepKeepsPartition<Id(!new), O>(setup: Setup<O>, ids: set<Id>, p: Pool<Id, O>, step: Step<Id, O>)
    requires Partitioned(ids, p) && Enabled(setup, p, step)
    ensures Partitioned(ids, Next(setup, p, step))
  {
  }

  lemma StepKeepsWithinWorkers<Id(!new), O>(setup: Setup<O>, p: Pool<Id, O>, step: Step<Id, O>)
    requires WithinWorkers(setup, p) && Enabled(setup, p, step)
    ensures WithinWorkers(setup, Next(setup, p, step))
  {
    if !step.StopWaitAndClose? {
      MoveOne(p.running, step.id);
      MoveOne(p.sending, step.id);
    }
  }

  lemma StepKeepsChannelExact<Id(!new), O>(setup: Setup<O>, ids: set<Id>, p: Pool<Id, O>, step: Step<Id, O>)
    requires Invariant(setup, ids, p) && Enabled(setup, p, step)
    ensures ChannelExact(setup, Next(setup, p, step))
  {
    var q := Next(setup, p, step);
    match step
    case Submit(id) =>
    case Begin(id) =>
    case Return(id, outcome) =>
      ReturnKeepsChannelExact(setup, ids, p, id, outcome);
    case Send(id) =>
      SendKeepsChannelExact(setup, ids, p, id);
    case StopWaitAndClose =>
      assert ReportedIds(setup, q) == ReportedIds(setup, p);
  }

  lemma ReturnKeepsChannelExact<Id(!new), O>(setup: Setup<O>, ids: set<Id>, p: Pool<Id, O>, id: Id, o: O)
    requires Invariant(setup, ids, p) && id in p.running
    ensures ChannelExact(setup, Next(setup, p, Return(id, o)))
  {
    var q := Next(setup, p, Return(id, o));
    assert id !in p.returned;
    assert ReportedIds(setup, q) == ReportedIds(setup, p);
  }

  lemma SendKeepsChannelExact<Id(!new), O>(setup: Setup<O>, ids: set<Id>, p: Pool<Id, O>, id: Id)
    requires Invariant(setup, ids, p) && Enabled(setup, p, Send(id))
    ensures ChannelExact(setup, Next(setup, p, Send(id)))
  {
    var q := Next(setup, p, Send(id));
    ChannelIdsSnoc(p.channel, id, p.returned[id]);
    assert ReportedIds(setup, q) == ReportedIds(setup, p) + {id};
    forall i | 0 <= i < |p.channel| ensures q.channel[i].0 != id {
      assert p.channel[i].0 in ChannelIds(p.channel);
    }
  }

  lemma StepKeepsInvariant<Id(!new), O>(setup: Setup<O>, ids: set<Id>, p: Pool<Id, O>, step: Step<Id, O>)
    requires Invariant(setup, ids, p) && Enabled(setup, p, step)
    ensures Invariant(setup, ids, Next(setup, p, step))
  {
    StepKeepsPartition(setup, ids, p, step);
    StepKeepsWithinWorkers(setup, p, step);
    StepKeepsChannelExact(setup, ids, p, step);
  }

  lemma {:induction false} DistinctChannelSize<Id(!new), O>(channel: seq<(Id, O)>)
    requires forall i, j | 0 <= i < j < |channel| :: channel[i].0 != channel[j].0
    ensures |ChannelIds(channel)| == |channel|
  {
    if channel != [] {
      var n := |channel| - 1;
      DistinctChannelSize(channel[..n]);
      assert channel == channel[..n] + [(channel[n].0, channel[n].1)];
      ChannelIdsSnoc(channel[..n], channel[n].0, channel[n].1);
    }
  }

  lemma SubsetSize<T>(a: set<T>, b: set<T>)
    requires a <= b
    ensures |a| <= |b|
  {
    assert b == a + (b - a);
  }

  /** No worker ever blocks on a channel with room for every task. */
  lemma SendersNeverBlock<Id(!new), O>(setup: Setup<O>, ids: set<Id>, p: Pool<Id, O>, id: Id)
    requires Invariant(setup, ids, p) && setup.capacity == |ids| && id in p.sending
    ensures Enabled(setup, p, Send(id))
  {
    DistinctChannelSize(p.channel);
    SubsetSize(ChannelIds(p.channel), ids - {id});
  }

  /** No deadlock: until the channel is closed some step can be taken. */
  lemma SomeStepEnabled<Id(!new), O>(setup: Setup<O>, ids: set<Id>, p: Pool<Id, O>, anyOutcome: O)
    returns (step: Step<Id, O>)
    requires Invariant(setup, ids, p) && setup.capacity == |ids| && setup.workers > 0 && !p.closed
    ensures Enabled(setup, p, step)
  {
    if p.pending != {} {
      var id :| id in p.pending;
      step := Submit(id);
    } else if p.running != {} {
      var id :| id in p.running;
      step := Return(id, anyOutcome);
    } else if p.sending != {} {
      var id :| id in p.sending;
      SendersNeverBlock(setup, ids, p, id);
      step := Send(id);
    } else if p.queued != {} {
      var id :| id in p.queued;
      step := Begin(id);
    } else {
      step := StopWaitAndClose;
    }
  }

  function Measure<Id, O>(p: Pool<Id, O>): nat {
    4 * |p.pending| + 3 * |p.queued| + 2 * |p.running| + |p.sending| + if p.closed then 0 else 1
  }

  lemma StepDecreasesMeasure<Id(!new), O>(setup: Setup<O>, ids: set<Id>, p: Pool<Id, O>, step: Step<Id, O>)
    requires Invariant(setup, ids, p) && Enabled(setup, p, step)
    ensures Measure(Next(setup, p, step)) < Measure(p)
  {
    hide ChannelExact;
    match step
    case Submit(id) => MoveOne(p.pending, id); MoveOne(p.queued, id);
    case Begin(id) => MoveOne(p.queued, id); MoveOne(p.running, id);
    case Return(id, outcome) => MoveOne(p.running, id); MoveOne(p.sending, id);
    case Send(id) => MoveOne(p.sending, id);
    case StopWaitAndClose =>
  }

  lemma NextReturned<Id(!new), O>(setup: Setup<O>, p: Pool<Id, O>, step: Step<Id, O>)
    requires Enabled(setup, p, step)
    ensures Next(setup, p, step).returned ==
            if step.Return? then p.returned[step.id := step.outcome] else p.returned
  {
  }

  // ---------- Whole runs ----------

  /** The states a schedule goes through. */
  ghost predicate IsRun<Id(!new), O>(setup: Setup<O>, ids: set<Id>, ps: seq<Pool<Id, O>>, steps: seq<Step<Id, O>>) {
    && |ps| == |steps| + 1 && ps[0] == Initial(ids)
    && forall i | 0 <= i < |steps| :: Enabled(setup, ps[i], steps[i]) && ps[i + 1] == Next(setup, ps[i], steps[i])
  }

  lemma {:induction false} RunKeepsInvariant<Id(!new), O>(setup: Setup<O>, ids: set<Id>, ps: seq<Pool<Id, O>>,
                                                          steps: seq<Step<Id, O>>)
    requires IsRun(setup, ids, ps, steps)
    ensures Invariant(setup, ids, ps[|steps|])
    ensures |steps| + Measure(ps[|steps|]) <= 4 * |ids| + 1
  {
    if steps == [] {
      InitialInvariant(setup, ids);
    } else {
      var n := |steps| - 1;
      RunKeepsInvariant(setup, ids, ps[..n + 1], steps[..n]);
      StepKeepsInvariant(setup, ids, ps[n], steps[n]);
      StepDecreasesMeasure(setup, ids, ps[n], steps[n]);
    }
  }

  /**
    In every run: never more tasks in progress than workers, at most four steps a task and
    one to close, no sender blocked; and a run that cannot go on has closed the channel.
   */
  lemma EveryScheduleIsSafe<Id(!new), O>(setup: Setup<O>, ids: set<Id>, ps: seq<Pool<Id, O>>,
                                         steps: seq<Step<Id, O>>, anyOutcome: O)
    requires setup.capacity == |ids| && setup.workers > 0 && IsRun(setup, ids, ps, steps)
    ensures var p := ps[|steps|];
            && Invariant(setup, ids, p)
            && |p.running| + |p.sending| <= setup.workers
            && |steps| + Measure(p) <= 4 * |ids| + 1
            && (forall id | id in p.sending :: Enabled(setup, p, Send(id)))
            && ((forall step :: !Enabled(setup, p, step)) ==> p.closed)
  {
    var p := ps[|steps|];
    RunKeepsInvariant(setup, ids, ps, steps);
    forall id | id in p.sending ensures Enabled(setup, p, Send(id)) {
      SendersNeverBlock(setup, ids, p, id);
    }
    if !p.closed {
      var step := SomeStepEnabled(setup, ids, p, anyOutcome);
    }
  }

  /** A task that waits starts exactly if a worker is free, whatever else is going on. */
  lemma StartsIff<Id, O>(setup: Setup<O>, p: Pool<Id, O>, id: Id)
    ensures Enabled(setup, p, Begin(id)) <==> id in p.queued && |p.running| + |p.sending| < setup.workers
  {
  }

  lemma RunOneStep<Id(!new), O>(setup: Setup<O>, ids: set<Id>, ps: seq<Pool<Id, O>>, steps: seq<Step<Id, O>>,
                                step: Step<Id, O>)
    requires IsRun(setup, ids, ps, steps) && Enabled(setup, ps[|steps|], step)
    ensures IsRun(setup, ids, ps + [Next(setup, ps[|steps|], step)], steps + [step])
  {
    var more := ps + [Next(setup, ps[|steps|], step)];
    assert forall i | 0 <= i <= |steps| :: more[i] == ps[i];
  }

  /** The bound is not stricter than that: up to `workers` tasks do get to run at once. */
  lemma {:induction false} WorkersAreUsed<Id(!new), O>(setup: Setup<O>, ids: set<Id>, k: nat)
    returns (ps: seq<Pool<Id, O>>, steps: seq<Step<Id, O>>)
    requires k <= |ids| && k <= setup.workers
    ensures IsRun(setup, ids, ps, steps) && |ps[|steps|].running| == k
    ensures var p := ps[|steps|];
            p.queued == {} && p.sending == {} && p.pending + p.running == ids && p.pending !! p.running
  {
    if k == 0 {
      ps, steps := [Initial(ids)], [];
    } else {
      ps, steps := WorkersAreUsed(setup, ids, k - 1);
      var p := ps[|steps|];
      assert p.running != ids;
      assert p.pending != {};
      var id :| id in p.pending;
      RunOneStep(setup, ids, ps, steps, Submit(id));
      var submitted := Next(setup, p, Submit(id));
      ps, steps := ps + [submitted], steps + [Submit(id)];
      RunOneStep(setup, ids, ps, steps, Begin(id));
      ps, steps := ps + [Next(setup, submitted, Begin(id))], steps + [Begin(id)];
    }
  }

  /** What the run's Return steps say a task returned. */
  ghost predicate ReturnedBy<Id(!new), O>(steps: seq<Step<Id, O>>, id: Id, o: O) {
    exists i :: 0 <= i < |steps| && steps[i] == Return(id, o)
  }

  /** Nothing is made up: a recorded result is one the task returned in this run. */
  lemma {:induction false} ReturnedInRun<Id(!new), O>(setup: Setup<O>, ids: set<Id>, ps: seq<Pool<Id, O>>,
                                                steps: seq<Step<Id, O>>, id: Id)
    requires IsRun(setup, ids, ps, steps) && id in ps[|steps|].returned
    ensures ReturnedBy(steps, id, ps[|steps|].returned[id])
  {
    if steps != [] {
      var n := |steps| - 1;
      if steps[n] != Return(id, ps[n + 1].returned[id]) {
        ReturnedInRun(setup, ids, ps[..n + 1], steps[..n], id);
        var i :| 0 <= i < n && steps[..n][i] == Return(id, ps[n].returned[id]);
        assert steps[i] == Return(id, ps[n + 1].returned[id]);
      }
    }
  }

  // ---------- Driving the pool ----------

  /** What a task returns if it finishes at the given moment of the schedule. */
  type Task<+O> = nat -> O

  /** At some moment the task returns `o`. */
  ghost predicate MayReturn<O>(task: Task<O>, o: O) {
    exists t: nat :: task(t) == o
  }

  ghost predicate Deterministic<O>(task: Task<O>) {
    forall s, t :: task(s) == task(t)
  }

  /** Runs the pool under any schedule until the channel is closed. It always gets there. */
  method RunToClose<Id(!new), O>(setup: Setup<O>, tasks: map<Id, Task<O>>) returns (p: Pool<Id, O>)
    requires setup.workers > 0 && setup.capacity == |tasks|
    ensures p.closed && Invariant(setup, tasks.Keys, p) && p.returned.Keys == tasks.Keys
    ensures forall id | id in tasks :: MayReturn(tasks[id], p.returned[id])
  {
    hide Next, Measure, ChannelExact;
    var ids := tasks.Keys;
    var clock := 0;
    p := Initial(ids);
    InitialInvariant(setup, ids);
    while !p.closed
      invariant Invariant(setup, ids, p)
      invariant forall id | id in p.returned :: MayReturn(tasks[id], p.returned[id])
      decreases Measure(p)
    {
      var step: Step<Id, O> := StopWaitAndClose;
      if {
        case p.pending != {} =>
          var id :| id in p.pending;
          step := Submit(id);
        case p.queued != {} && |p.running| + |p.sending| < setup.workers =>
          var id :| id in p.queued;
          step := Begin(id);
        case p.running != {} =>
          var id :| id in p.running;
          step := Return(id, tasks[id](clock));
        case p.sending != {} =>
          var id :| id in p.sending;
          SendersNeverBlock(setup, ids, p, id);
          step := Send(id);
        case p.pending + p.queued + p.running + p.sending == {} =>
          step := StopWaitAndClose;
      }
      StepKeepsInvariant(setup, ids, p, step);
      StepDecreasesMeasure(setup, ids, p, step);
      NextReturned(setup, p, step);
      p := Next(setup, p, step);
      clock := clock + 1;
    }
  }
}
