/**
  Any number of clients operating on the store at once, under its reader-writer lock, once
  the persistence is initialised. Reading and writing the file may fail at any time. An
  operation is identified by its place in the order in which operations acquire the lock.
 */
module StoreSerialisability {
  import opened Common
  import opened ContextsConfig

  /** How far an operation that holds the lock has come. */
  datatype Progress = Acquired | Loaded(config: Config) | Persisted | Failed

  /** `failed` are the operations whose load or write has failed; they are answered None. */
  datatype State = State(disk: Config, log: seq<Op>, failed: set<nat>,
                         active: map<nat, Progress>, answers: map<nat, Option<Answer>>)

  datatype Step =
    | Acquire(op: Op)
    | Load(i: nat) | LoadFails(i: nat)
    | Write(i: nat) | WriteFails(i: nat)
    | Release(i: nat)

  /** The reserved name is refused before anything is loaded. */
  predicate RefusedUnread(op: Op) {
    op.Add? && op.context.name == DEFAULT_CONTEXT_NAME
  }

  predicate WellIndexed(s: State) {
    forall i | i in s.active :: i < |s.log|
  }

  /** Readers share the lock; a writer holds it alone. */
  predicate LockAdmits(s: State, op: Op)
    requires WellIndexed(s)
  {
    if IsRead(op) then forall i | i in s.active :: IsRead(s.log[i]) else s.active == map[]
  }

  predicate Enabled(s: State, step: Step)
    requires WellIndexed(s)
  {
    match step
    case Acquire(op) => LockAdmits(s, op)
    case Load(i) => MustLoad(s, i)
    case LoadFails(i) => MustLoad(s, i)
    case Write(i) => MustWrite(s, i)
    case WriteFails(i) => MustWrite(s, i)
    case Release(i) => MayRelease(s, i)
  }

  predicate MustLoad(s: State, i: nat)
    requires WellIndexed(s)
  {
    i in s.active && s.active[i].Acquired? && !RefusedUnread(s.log[i])
  }

  predicate MustWrite(s: State, i: nat)
    requires WellIndexed(s)
  {
    i in s.active && s.active[i].Loaded? && Writes(s.log[i], s.active[i].config)
  }

  predicate MayRelease(s: State, i: nat)
    requires WellIndexed(s)
  {
    && i in s.active
    && match s.active[i]
       case Acquired => RefusedUnread(s.log[i])
       case Loaded(c) => !Writes(s.log[i], c)
       case Persisted => true
       case Failed => true
  }

  function Next(s: State, step: Step): State
    requires WellIndexed(s) && Enabled(s, step)
  {
    match step
    case Acquire(op) => s.(log := s.log + [op], active := s.active[|s.log| := Acquired])
    case Load(i) => s.(active := s.active[i := Loaded(s.disk)])
    case LoadFails(i) => s.(failed := s.failed + {i}, active := s.active[i := Failed])
    case Write(i) => s.(disk := Perform(s.log[i], s.active[i].config).0, active := s.active[i := Persisted])
    case WriteFails(i) => s.(failed := s.failed + {i}, active := s.active[i := Failed])
    case Release(i) => s.(active := s.active - {i}, answers := s.answers[i := Answered(s.log[i], s.active[i])])
  }

  function Answered(op: Op, progress: Progress): Option<Answer> {
    match progress
    case Acquired => Some(Refused(ReservedName))
    case Loaded(c) => Some(Perform(op, c).1)
    case Persisted => Some(Done)
    case Failed => None
  }

  // ---------- One at a time ----------

  /** An operation on its own: a failed one changes nothing. */
  function PerformOrFail(op: Op, fails: bool, c: Config): (Config, Option<Answer>) {
    if fails then (c, None) else (Perform(op, c).0, Some(Perform(op, c).1))
  }

  function Serial(c0: Config, log: seq<Op>, failed: set<nat>): Config {
    if log == [] then c0
    else
      var n := |log| - 1;
      PerformOrFail(log[n], n in failed, Serial(c0, log[..n], failed)).0
  }

  function SerialAnswer(c0: Config, log: seq<Op>, failed: set<nat>, i: nat): Option<Answer>
    requires i < |log|
  {
    PerformOrFail(log[i], i in failed, Serial(c0, log[..i], failed)).1
  }

  /** If nothing fails it is the replay on values. */
  lemma {:induction false} WithoutFailuresIsReplay(c0: Config, log: seq<Op>)
    ensures Serial(c0, log, {}) == Replay(c0, log)
    ensures forall i: nat | i < |log| :: SerialAnswer(c0, log, {}, i) == Some(AnswerAt(c0, log, i))
  {
    if log != [] {
      var n := |log| - 1;
      WithoutFailuresIsReplay(c0, log[..n]);
      forall i: nat | i < |log| ensures SerialAnswer(c0, log, {}, i) == Some(AnswerAt(c0, log, i)) {
        if i < n {
          assert SerialAnswer(c0, log[..n], {}, i) == Some(AnswerAt(c0, log[..n], i));
          assert log[..n][..i] == log[..i];
        }
      }
    }
  }

  // ---------- The invariant ----------

  /** Every operation is active or answered, and the lock is respected. */
  ghost predicate LockInvariant(s: State) {
    && WellIndexed(s)
    && (forall i: nat :: i < |s.log| <==> i in s.active || i in s.answers)
    && (forall i | i in s.active :: i !in s.answers)
    && (forall i | i in s.active && !IsRead(s.log[i]) :: i == |s.log| - 1 && s.active.Keys == {i})
    && (forall i, j: nat | i in s.active && IsRead(s.log[i]) && i <= j < |s.log| :: IsRead(s.log[j]))
  }

  /** What an operation that holds the lock has seen and done is what it would one at a time. */
  ghost predicate OnTrack(c0: Config, s: State, i: nat)
    requires i in s.active && i < |s.log|
  {
    && (s.active[i].Failed? <==> i in s.failed)
    && match s.active[i]
       case Acquired => s.disk == Serial(c0, s.log[..i], s.failed)
       case Loaded(c) => s.disk == c == Serial(c0, s.log[..i], s.failed)
       case Persisted =>
         && !IsRead(s.log[i]) && s.disk == Serial(c0, s.log, s.failed)
         && SerialAnswer(c0, s.log, s.failed, i) == Some(Done)
       case Failed => s.disk == Serial(c0, s.log[..i], s.failed)
  }

  ghost predicate DataInvariant(c0: Config, s: State)
    requires WellIndexed(s)
  {
    && (forall i | i in s.failed :: i < |s.log|)
    && (forall i | i in s.active :: OnTrack(c0, s, i))
    && (s.active == map[] ==> s.disk == Serial(c0, s.log, s.failed))
    && (forall i | i in s.answers && i < |s.log| ::
          && s.answers[i] == SerialAnswer(c0, s.log, s.failed, i) && (s.answers[i].None? <==> i in s.failed))
  }

  ghost predicate Invariant(c0: Config, s: State) {
    LockInvariant(s) && DataInvariant(c0, s)
  }

  lemma {:induction false} ReadsDoNotMatter(c0: Config, log: seq<Op>, failed: set<nat>, i: nat)
    requires i <= |log| && forall j | i <= j < |log| :: IsRead(log[j])
    ensures Serial(c0, log, failed) == Serial(c0, log[..i], failed)
    decreases |log|
  {
    if i == |log| {
      assert log[..i] == log;
    } else {
      var n := |log| - 1;
      ReadsDoNotMatter(c0, log[..n], failed, i);
      assert log[..n][..i] == log[..i];
    }
  }

  /** The failure of a read, or of something later, does not matter. */
  lemma {:induction false} FailureDoesNotMatter(c0: Config, log: seq<Op>, failed: set<nat>, i: nat)
    requires i < |log| ==> IsRead(log[i])
    ensures Serial(c0, log, failed + {i}) == Serial(c0, log, failed)
  {
    if log != [] {
      FailureDoesNotMatter(c0, log[..|log| - 1], failed, i);
    }
  }

  lemma PrefixesOfLongerLog(c0: Config, log: seq<Op>, failed: set<nat>, op: Op)
    requires |log| !in failed
    ensures forall i: nat | i <= |log| :: (log + [op])[..i] == log[..i]
    ensures forall i: nat | i < |log| ::
              SerialAnswer(c0, log + [op], failed, i) == SerialAnswer(c0, log, failed, i)
    ensures Serial(c0, log + [op], failed) == Perform(op, Serial(c0, log, failed)).0
  {
    forall i: nat | i <= |log| ensures (log + [op])[..i] == log[..i] {
    }
    assert (log + [op])[..|log|] == log;
    assert log[..|log|] == log;
  }

  lemma AcquireKeepsLock(s: State, op: Op)
    requires LockInvariant(s) && LockAdmits(s, op)
    ensures LockInvariant(Next(s, Acquire(op)))
  {
    hide Perform;
    var t := Next(s, Acquire(op));
    forall i | i in t.active && !IsRead(t.log[i]) ensures t.active.Keys == {i} && i == |t.log| - 1 {
      assert i == |s.log|;
    }
  }

  lemma AcquireKeepsData(c0: Config, s: State, op: Op)
    requires WellIndexed(s) && Invariant(c0, s) && LockAdmits(s, op) && WellIndexed(Next(s, Acquire(op)))
    ensures DataInvariant(c0, Next(s, Acquire(op)))
  {
    hide Perform, LockInvariant, Serial, SerialAnswer;
    var t := Next(s, Acquire(op));
    var n := |s.log|;
    PrefixesOfLongerLog(c0, s.log, s.failed, op);
    DiskWhenAdmitted(c0, s, op);
    AnswersAreEarlier(s);
    assert t.log[..n] == s.log && n in t.active;
    forall i | i in t.active ensures OnTrack(c0, t, i) {
      if i != n {
        assert OnTrack(c0, s, i) && t.log[..i] == s.log[..i] && t.active[i] == s.active[i];
      }
    }
  }

  lemma AnswersAreEarlier(s: State)
    requires LockInvariant(s)
    ensures forall i | i in s.answers :: i < |s.log|
  {
  }

  lemma DiskWhenAdmitted(c0: Config, s: State, op: Op)
    requires Invariant(c0, s) && LockAdmits(s, op)
    ensures s.disk == Serial(c0, s.log, s.failed)
    ensures forall i | i in s.active :: !s.active[i].Persisted?
  {
    hide Serial, SerialAnswer;
    if s.active != map[] {
      var i :| i in s.active;
      assert OnTrack(c0, s, i);
      ReadsDoNotMatter(c0, s.log, s.failed, i);
    }
    forall i | i in s.active ensures !s.active[i].Persisted? {
      assert OnTrack(c0, s, i);
    }
  }

  lemma AcquireKeepsInvariant(c0: Config, s: State, op: Op)
    requires Invariant(c0, s) && LockAdmits(s, op)
    ensures Invariant(c0, Next(s, Acquire(op)))
  {
    AcquireKeepsLock(s, op);
    AcquireKeepsData(c0, s, op);
  }

  /** A step by one holder that keeps the lock and does not fail. */
  lemma LoadKeepsInvariant(c0: Config, s: State, i: nat)
    requires Invariant(c0, s) && Enabled(s, Load(i))
    ensures Invariant(c0, Next(s, Load(i)))
  {
    hide Serial, SerialAnswer;
    var t := Next(s, Load(i));
    assert t.active.Keys == s.active.Keys;
    forall j | j in t.active ensures OnTrack(c0, t, j) {
      assert OnTrack(c0, s, j);
    }
  }

  lemma WriteKeepsInvariant(c0: Config, s: State, i: nat)
    requires Invariant(c0, s) && Enabled(s, Write(i))
    ensures Invariant(c0, Next(s, Write(i)))
  {
    var t := Next(s, Write(i));
    assert t.active.Keys == s.active.Keys == {i};
    assert OnTrack(c0, s, i) && i == |s.log| - 1;
    assert Serial(c0, s.log, s.failed) == Perform(s.log[i], Serial(c0, s.log[..i], s.failed)).0;
  }

  /** Either way of failing: the operation is a read, or the last one in the log. */
  lemma FailingKeepsInvariant(c0: Config, s: State, i: nat, step: Step)
    requires Invariant(c0, s) && Enabled(s, step) && (step == LoadFails(i) || step == WriteFails(i))
    ensures Invariant(c0, Next(s, step))
  {
    hide Serial, Perform;
    var t := Next(s, step);
    assert t.active.Keys == s.active.Keys;
    forall k: nat | k <= |s.log| && (k <= i || IsRead(s.log[i]))
      ensures Serial(c0, t.log[..k], t.failed) == Serial(c0, s.log[..k], s.failed)
    {
      FailureDoesNotMatter(c0, s.log[..k], s.failed, i);
    }
    forall j | j in t.active ensures OnTrack(c0, t, j) {
      assert OnTrack(c0, s, j);
      assert j == i || IsRead(s.log[i]);
    }
    forall j | j in t.answers && j < |t.log|
      ensures t.answers[j] == SerialAnswer(c0, t.log, t.failed, j) && (t.answers[j].None? <==> j in t.failed)
    {
      assert j != i && (j < i || IsRead(s.log[i]));
    }
  }

  lemma ReleaseKeepsLock(s: State, i: nat)
    requires LockInvariant(s) && Enabled(s, Release(i))
    ensures LockInvariant(Next(s, Release(i)))
  {
    hide Perform;
    var t := Next(s, Release(i));
    assert t.active.Keys == s.active.Keys - {i};
  }

  lemma ReleaseKeepsData(c0: Config, s: State, i: nat)
    requires WellIndexed(s) && Invariant(c0, s) && Enabled(s, Release(i)) && WellIndexed(Next(s, Release(i)))
    ensures DataInvariant(c0, Next(s, Release(i)))
  {
    hide LockInvariant, Serial;
    DiskAtRelease(c0, s, i);
    var t := Next(s, Release(i));
    assert OnTrack(c0, s, i);
    assert t.answers[i] == SerialAnswer(c0, s.log, s.failed, i);
    forall j | j in t.active ensures OnTrack(c0, t, j) {
      assert OnTrack(c0, s, j);
    }
  }

  lemma DiskAtRelease(c0: Config, s: State, i: nat)
    requires Invariant(c0, s) && Enabled(s, Release(i))
    ensures s.disk == Serial(c0, s.log, s.failed)
  {
    assert OnTrack(c0, s, i);
    if IsRead(s.log[i]) {
      ReadsDoNotMatter(c0, s.log, s.failed, i);
    } else if !s.active[i].Persisted? {
      assert i == |s.log| - 1;
      if !s.active[i].Failed? {
        UnwrittenMeansUnchanged(s.log[i], s.disk);
      }
    }
  }

  lemma ReleaseKeepsInvariant(c0: Config, s: State, i: nat)
    requires Invariant(c0, s) && Enabled(s, Release(i))
    ensures Invariant(c0, Next(s, Release(i)))
  {
    ReleaseKeepsLock(s, i);
    ReleaseKeepsData(c0, s, i);
  }

  lemma StepKeepsInvariant(c0: Config, s: State, step: Step)
    requires Invariant(c0, s) && Enabled(s, step)
    ensures Invariant(c0, Next(s, step))
  {
    hide Invariant, Next;
    match step
    case Acquire(op) => AcquireKeepsInvariant(c0, s, op);
    case Load(i) => LoadKeepsInvariant(c0, s, i);
    case LoadFails(i) => FailingKeepsInvariant(c0, s, i, step);
    case Write(i) => WriteKeepsInvariant(c0, s, i);
    case WriteFails(i) => FailingKeepsInvariant(c0, s, i, step);
    case Release(i) => ReleaseKeepsInvariant(c0, s, i);
  }

  // ---------- Whole runs ----------

  function Initial(c0: Config): State {
    State(c0, [], {}, map[], map[])
  }

  ghost predicate IsRun(c0: Config, ss: seq<State>, steps: seq<Step>) {
    && |ss| == |steps| + 1 && ss[0] == Initial(c0)
    && forall k | 0 <= k < |steps| ::
         WellIndexed(ss[k]) && Enabled(ss[k], steps[k]) && ss[k + 1] == Next(ss[k], steps[k])
  }

  lemma {:induction false} RunKeepsInvariant(c0: Config, ss: seq<State>, steps: seq<Step>)
    requires IsRun(c0, ss, steps)
    ensures Invariant(c0, ss[|steps|])
  {
    if steps != [] {
      var n := |steps| - 1;
      RunKeepsInvariant(c0, ss[..n + 1], steps[..n]);
      StepKeepsInvariant(c0, ss[n], steps[n]);
    }
  }

  /**
    Serialisability: in every interleaving, every answer given so far is the one the operation
    gets when all are run one at a time in lock order, with the same ones failing, and whenever
    nobody holds the lock the disk holds exactly what that run leaves: no update is lost. An
    operation is answered with an error exactly if its load or write failed.
   */
  lemma EveryInterleavingIsSerial(c0: Config, ss: seq<State>, steps: seq<Step>)
    requires IsRun(c0, ss, steps)
    ensures var s := ss[|steps|];
            && (forall i | i in s.answers ::
                  && i < |s.log| && s.answers[i] == SerialAnswer(c0, s.log, s.failed, i)
                  && (s.answers[i].None? <==> i in s.failed))
            && (s.active == map[] ==>
                  && s.disk == Serial(c0, s.log, s.failed)
                  && forall i: nat :: i < |s.log| <==> i in s.answers)
  {
    RunKeepsInvariant(c0, ss, steps);
  }

  /** The lock keeps nobody out needlessly: a reader waits for a writer only, a writer for anyone. */
  lemma AdmitsIff(s: State, op: Op)
    requires WellIndexed(s)
    ensures Enabled(s, Acquire(op)) <==>
            if op == GetConfig || op == GetCurrent
            then forall i | i in s.active :: s.log[i] == GetConfig || s.log[i] == GetCurrent
            else s.active.Keys == {}
  {
  }

  lemma RunOneStep(c0: Config, ss: seq<State>, steps: seq<Step>, step: Step)
    requires IsRun(c0, ss, steps) && WellIndexed(ss[|steps|]) && Enabled(ss[|steps|], step)
    ensures IsRun(c0, ss + [Next(ss[|steps|], step)], steps + [step])
  {
    var more := ss + [Next(ss[|steps|], step)];
    assert forall k | 0 <= k <= |steps| :: more[k] == ss[k];
  }

  /** Any number of readers do hold the lock at once. */
  lemma {:induction false} ReadersShare(c0: Config, n: nat) returns (ss: seq<State>, steps: seq<Step>)
    ensures IsRun(c0, ss, steps) && WellIndexed(ss[|steps|])
    ensures var s := ss[|steps|];
            |s.log| == n && (forall i | 0 <= i < n :: s.log[i] == GetCurrent)
            && forall i: nat :: i in s.active <==> i < n
  {
    if n == 0 {
      ss, steps := [Initial(c0)], [];
    } else {
      ss, steps := ReadersShare(c0, n - 1);
      RunOneStep(c0, ss, steps, Acquire(GetCurrent));
      ss, steps := ss + [Next(ss[|steps|], Acquire(GetCurrent))], steps + [Acquire(GetCurrent)];
    }
  }

  /** Whoever holds the lock can go on without a failure, and without waiting for anyone. */
  lemma HolderCanGoOn(c0: Config, s: State, i: nat) returns (step: Step)
    requires Invariant(c0, s) && i in s.active
    ensures Enabled(s, step) && (step == Load(i) || step == Write(i) || step == Release(i))
  {
    match s.active[i]
    case Acquired => step := if RefusedUnread(s.log[i]) then Release(i) else Load(i);
    case Loaded(c) => step := if Writes(s.log[i], c) then Write(i) else Release(i);
    case _ => step := Release(i);
  }
}
