/**
  First use of the persistence by clients that may hold only the shared lock: the steps of
  loading while nothing is stored yet. The path is tested, and later set, outside the
  persistence's own lock.
 */
module FirstUse {
  import opened Common

  /** `MustRemember` found the file there; `MustCreate` and `MustWrite` found it missing. */
  datatype Phase =
    | Begun | MustStat | MustRemember | MustCreate | MustWrite | Ready
    | Finished(seen: Option<string>)
    | Failed

  /** `written` lists the default configurations written, by their UUIDs. */
  datatype State = State(pathSet: bool, file: Option<string>, written: seq<string>, phases: map<nat, Phase>)

  /**
    A failed write stands for a UUID that cannot be drawn, too: both come after the path is set.
    A failed look stands for a path that cannot be told: neither sets it.
   */
  datatype Step =
    | TestPath(c: nat)
    | Stat(c: nat) | StatFails(c: nat)
    | SetPath(c: nat)
    | WriteDefault(c: nat) | WriteFails(c: nat)
    | ReadFile(c: nat) | ReadFails(c: nat)

  function Initial(clients: set<nat>): State {
    State(false, None, [], map c | c in clients :: Begun)
  }

  predicate Enabled(s: State, step: Step) {
    && step.c in s.phases
    && match step
       case TestPath(c) => s.phases[c].Begun?
       case Stat(c) => s.phases[c].MustStat?
       case StatFails(c) => s.phases[c].MustStat?
       case SetPath(c) => s.phases[c].MustRemember? || s.phases[c].MustCreate?
       case WriteDefault(c) => s.phases[c].MustWrite?
       case WriteFails(c) => s.phases[c].MustWrite?
       case ReadFile(c) => s.phases[c].Ready?
       case ReadFails(c) => s.phases[c].Ready?
  }

  /** `draws(c)` is the random UUID client `c` draws for a default context. */
  function Next(draws: nat -> string, s: State, step: Step): State
    requires Enabled(s, step)
  {
    match step
    case TestPath(c) => s.(phases := s.phases[c := if s.pathSet then Ready else MustStat])
    case Stat(c) => s.(phases := s.phases[c := if s.file.Some? then MustRemember else MustCreate])
    case SetPath(c) =>
      s.(pathSet := true, phases := s.phases[c := if s.phases[c].MustRemember? then Ready else MustWrite])
    case WriteDefault(c) =>
      s.(file := Some(draws(c)), written := s.written + [draws(c)], phases := s.phases[c := Ready])
    case ReadFile(c) => s.(phases := s.phases[c := Finished(s.file)])
    case _ => s.(phases := s.phases[step.c := Failed])
  }

  predicate Fails(step: Step) {
    step.StatFails? || step.WriteFails? || step.ReadFails?
  }

  ghost predicate IsRun(draws: nat -> string, clients: set<nat>, ss: seq<State>, steps: seq<Step>) {
    && |ss| == |steps| + 1 && ss[0] == Initial(clients)
    && forall k | 0 <= k < |steps| :: Enabled(ss[k], steps[k]) && ss[k + 1] == Next(draws, ss[k], steps[k])
  }

  predicate Complete(s: State) {
    forall c | c in s.phases :: s.phases[c].Finished? || s.phases[c].Failed?
  }

  /** What first use is meant to come to: one default configuration, seen by every client. */
  predicate AsIntended(s: State) {
    |s.written| == 1 && forall c | c in s.phases :: s.phases[c] == Finished(Some(s.written[0]))
  }

  /** At most one default configuration, seen by every client that has not failed itself. */
  predicate OthersServed(s: State) {
    && |s.written| <= 1
    && forall c | c in s.phases && !s.phases[c].Failed? ::
         s.written != [] && s.phases[c] == Finished(Some(s.written[0]))
  }

  predicate Creating(p: Phase) {
    p.MustCreate? || p.MustWrite?
  }

  /**
    The two ways to get in the way: looking for the file while another client has found it
    missing and not written it yet, and reading after the path is set but before the write.
   */
  predicate Hazard(s: State, step: Step) {
    match step
    case Stat(c) => s.file.None? && exists d :: d in s.phases && d != c && Creating(s.phases[d])
    case ReadFile(c) => s.file.None?
    case _ => false
  }

  predicate HazardFree(ss: seq<State>, steps: seq<Step>)
    requires |ss| == |steps| + 1
  {
    forall k | 0 <= k < |steps| :: !Hazard(ss[k], steps[k])
  }

  // ---------- Without a hazard, first use is as intended ----------

  ghost predicate Orderly(s: State) {
    && (s.file.None? ==> s.written == [])
    && (s.file.Some? ==> s.written == [s.file.value] && forall c | c in s.phases :: !Creating(s.phases[c]))
    && (forall c, d | c in s.phases && d in s.phases && Creating(s.phases[c]) && Creating(s.phases[d]) :: c == d)
    && (forall c | c in s.phases && s.phases[c].Finished? :: s.file.Some? && s.phases[c] == Finished(s.file))
  }

  lemma StepKeepsOrderly(draws: nat -> string, s: State, step: Step)
    requires Orderly(s) && Enabled(s, step) && !Hazard(s, step)
    ensures Orderly(Next(draws, s, step))
  {
  }

  lemma {:induction false} HazardFreeIsOrderly(draws: nat -> string, clients: set<nat>, ss: seq<State>,
                                               steps: seq<Step>)
    requires IsRun(draws, clients, ss, steps) && HazardFree(ss, steps)
    ensures Orderly(ss[|steps|]) && ss[|steps|].phases.Keys == clients
  {
    if steps != [] {
      var n := |steps| - 1;
      assert HazardFree(ss[..n + 1], steps[..n]);
      HazardFreeIsOrderly(draws, clients, ss[..n + 1], steps[..n]);
      StepKeepsOrderly(draws, ss[n], steps[n]);
    }
  }

  // ---------- A hazard leaves a mark ----------

  ghost function Creators(s: State): set<nat> {
    set c | c in s.phases && Creating(s.phases[c])
  }

  /** Some client has seen no file, or at least two defaults are written or about to be. */
  ghost predicate Marked(s: State) {
    || (exists c :: c in s.phases && s.phases[c] == Finished(None))
    || |s.written| + |Creators(s)| >= 2
  }

  lemma CreatorsAfter(draws: nat -> string, s: State, step: Step)
    requires Enabled(s, step)
    ensures var t := Next(draws, s, step);
            && (step.WriteDefault? || step.WriteFails? ==> |Creators(t)| == |Creators(s)| - 1)
            && (step.Stat? && s.file.None? ==> Creators(t) == Creators(s) + {step.c} && step.c !in Creators(s))
            && (!step.WriteDefault? && !step.WriteFails? && !(step.Stat? && s.file.None?) ==>
                  Creators(t) == Creators(s))
  {
    hide Creators;
    var t := Next(draws, s, step);
    CreatorsWithOne(s, t, step.c);
  }

  /** If the phase of one client changes, the creators change by that client at most. */
  lemma CreatorsWithOne(s: State, t: State, c: nat)
    requires c in s.phases && t.phases.Keys == s.phases.Keys
    requires forall d | d in s.phases && d != c :: t.phases[d] == s.phases[d]
    ensures c in Creators(s) <==> Creating(s.phases[c])
    ensures Creating(t.phases[c]) ==> Creators(t) == Creators(s) + {c}
    ensures !Creating(t.phases[c]) ==> Creators(t) == Creators(s) - {c}
  {
  }

  lemma StepKeepsMark(draws: nat -> string, s: State, step: Step)
    requires Marked(s) && Enabled(s, step) && !step.WriteFails?
    ensures Marked(Next(draws, s, step))
  {
    var t := Next(draws, s, step);
    CreatorsAfter(draws, s, step);
    if c :| c in s.phases && s.phases[c] == Finished(None) {
      assert t.phases[c] == Finished(None);
    }
  }

  lemma HazardMarks(draws: nat -> string, s: State, step: Step)
    requires Enabled(s, step) && Hazard(s, step)
    ensures Marked(Next(draws, s, step))
  {
    var t := Next(draws, s, step);
    CreatorsAfter(draws, s, step);
    if step.ReadFile? {
      assert t.phases[step.c] == Finished(None);
    } else {
      var d :| d in s.phases && d != step.c && Creating(s.phases[d]);
      assert {d, step.c} <= Creators(t);
      assert Creators(t) == {d, step.c} + (Creators(t) - {d, step.c});
    }
  }

  predicate NoWriteFails(steps: seq<Step>) {
    forall k | 0 <= k < |steps| :: !steps[k].WriteFails?
  }

  lemma {:induction false} HazardousRunIsMarked(draws: nat -> string, clients: set<nat>, ss: seq<State>,
                                                steps: seq<Step>)
    requires IsRun(draws, clients, ss, steps) && !HazardFree(ss, steps) && NoWriteFails(steps)
    ensures Marked(ss[|steps|])
  {
    var n := |steps| - 1;
    if Hazard(ss[n], steps[n]) {
      HazardMarks(draws, ss[n], steps[n]);
    } else {
      var k :| 0 <= k < |steps| && Hazard(ss[k], steps[k]);
      assert Hazard(ss[..n + 1][k], steps[..n][k]);
      HazardousRunIsMarked(draws, clients, ss[..n + 1], steps[..n]);
      StepKeepsMark(draws, ss[n], steps[n]);
    }
  }

  /** Without a hazard, and whatever fails: whoever does not fail has seen the one default configuration. */
  lemma HazardFreeServesOthers(draws: nat -> string, clients: set<nat>, ss: seq<State>, steps: seq<Step>)
    requires IsRun(draws, clients, ss, steps) && Complete(ss[|steps|]) && HazardFree(ss, steps)
    ensures OthersServed(ss[|steps|])
  {
    HazardFreeIsOrderly(draws, clients, ss, steps);
  }

  /**
    As long as no write fails, looks and reads may: a complete run serves every client that has
    not failed itself exactly when no client looks for the file between another's failed look
    and its write, and none reads before the write.
   */
  lemma OthersServedIff(draws: nat -> string, clients: set<nat>, ss: seq<State>, steps: seq<Step>)
    requires IsRun(draws, clients, ss, steps) && Complete(ss[|steps|]) && NoWriteFails(steps)
    ensures OthersServed(ss[|steps|]) <==> HazardFree(ss, steps)
  {
    if HazardFree(ss, steps) {
      HazardFreeServesOthers(draws, clients, ss, steps);
    } else {
      HazardousRunIsMarked(draws, clients, ss, steps);
      assert Creators(ss[|steps|]) == {};
    }
  }

  predicate NothingFails(steps: seq<Step>) {
    forall k | 0 <= k < |steps| :: !Fails(steps[k])
  }

  lemma {:induction false} SomeoneFailedIff(draws: nat -> string, clients: set<nat>, ss: seq<State>, steps: seq<Step>)
    requires IsRun(draws, clients, ss, steps)
    ensures ss[|steps|].phases.Keys == clients
    ensures NothingFails(steps) <==> forall c | c in clients :: !ss[|steps|].phases[c].Failed?
  {
    if steps != [] {
      var n := |steps| - 1;
      SomeoneFailedIff(draws, clients, ss[..n + 1], steps[..n]);
      assert NothingFails(steps) <==> NothingFails(steps[..n]) && !Fails(steps[n]);
      if Fails(steps[n]) {
        assert ss[n + 1].phases[steps[n].c].Failed?;
      } else if c :| c in clients && ss[n].phases[c].Failed? {
        assert ss[n + 1].phases[c].Failed?;
      }
    }
  }

  /**
    The exact assumption first use needs: a complete run by at least one client leaves one
    default configuration that every client has seen exactly when nothing fails, no client looks
    for the file between another's failed look and its write, and none reads before the write.
   */
  lemma FirstUseIsAsIntendedIff(draws: nat -> string, clients: set<nat>, ss: seq<State>, steps: seq<Step>)
    requires IsRun(draws, clients, ss, steps) && Complete(ss[|steps|]) && clients != {}
    ensures AsIntended(ss[|steps|]) <==> HazardFree(ss, steps) && NothingFails(steps)
  {
    var s := ss[|steps|];
    SomeoneFailedIff(draws, clients, ss, steps);
    if NothingFails(steps) {
      OthersServedIff(draws, clients, ss, steps);
      var c :| c in clients;
      assert !s.phases[c].Failed?;
    }
  }

  // ---------- When nobody is served ----------

  /** The path is set, there is no file, and nobody is about to create one. */
  predicate Stranded(s: State) {
    s.pathSet && s.file.None? && forall c | c in s.phases :: !InsideInit(s.phases[c])
  }

  /** What no file means for the past. */
  predicate NothingSeen(s: State) {
    s.file.None? ==> s.written == [] && forall c | c in s.phases && s.phases[c].Finished? :: s.phases[c].seen.None?
  }

  lemma {:induction false} NothingSeenInRun(draws: nat -> string, clients: set<nat>, ss: seq<State>, steps: seq<Step>)
    requires IsRun(draws, clients, ss, steps)
    ensures NothingSeen(ss[|steps|])
  {
    if steps != [] {
      var n := |steps| - 1;
      NothingSeenInRun(draws, clients, ss[..n + 1], steps[..n]);
    }
  }

  /** A failed write leaves the store stranded exactly if there is still no file and nobody else is in init. */
  lemma FailedWriteStrandsIff(draws: nat -> string, s: State, c: nat)
    requires Enabled(s, WriteFails(c)) && s.pathSet
    ensures Stranded(Next(draws, s, WriteFails(c))) <==>
            s.file.None? && forall d | d in s.phases && d != c :: !InsideInit(s.phases[d])
  {
    var t := Next(draws, s, WriteFails(c));
    if s.file.None? && forall d | d in s.phases && d != c :: !InsideInit(s.phases[d]) {
      forall d | d in t.phases ensures !InsideInit(t.phases[d]) {
        assert d != c ==> t.phases[d] == s.phases[d];
      }
    }
    if Stranded(t) {
      forall d | d in s.phases && d != c ensures !InsideInit(s.phases[d]) {
        assert t.phases[d] == s.phases[d];
      }
    }
  }

  /** Once stranded, no step of any run creates the file, and no client ever sees one. */
  lemma {:induction false} StrandedForGood(draws: nat -> string, clients: set<nat>, ss: seq<State>, steps: seq<Step>,
                                           k: nat)
    requires IsRun(draws, clients, ss, steps) && k <= |steps| && Stranded(ss[k])
    ensures var s := ss[|steps|];
            && Stranded(s) && s.written == []
            && forall c | c in s.phases && s.phases[c].Finished? :: s.phases[c] == Finished(None)
    decreases |steps|
  {
    NothingSeenInRun(draws, clients, ss, steps);
    if k < |steps| {
      var n := |steps| - 1;
      StrandedForGood(draws, clients, ss[..n + 1], steps[..n], k);
    }
  }

  // ---------- A sufficient lock, and the race without it ----------

  predicate InsideInit(p: Phase) {
    p.MustStat? || p.MustRemember? || Creating(p)
  }

  /** As if init held an exclusive lock: nobody tests the path while another is inside. */
  predicate InitExclusive(ss: seq<State>, steps: seq<Step>)
    requires |ss| == |steps| + 1
  {
    forall k | 0 <= k < |steps| && steps[k].TestPath? ::
      forall d | d in ss[k].phases :: !InsideInit(ss[k].phases[d])
  }

  ghost predicate Alone(s: State) {
    && (forall c, d | c in s.phases && d in s.phases && InsideInit(s.phases[c]) && InsideInit(s.phases[d]) :: c == d)
    && (forall c | c in s.phases && (s.phases[c].Ready? || s.phases[c].MustRemember?) :: s.file.Some?)
    && (s.pathSet && s.file.None? ==> exists c :: c in s.phases && s.phases[c].MustWrite?)
  }

  lemma StepKeepsAlone(draws: nat -> string, s: State, step: Step)
    requires Alone(s) && Enabled(s, step) && !step.WriteFails?
    requires step.TestPath? ==> forall d | d in s.phases :: !InsideInit(s.phases[d])
    ensures Alone(Next(draws, s, step)) && !Hazard(s, step)
  {
    var t := Next(draws, s, step);
    if step.SetPath? && t.file.None? {
      assert t.phases[step.c].MustWrite?;
    } else if s.pathSet && s.file.None? {
      var c :| c in s.phases && s.phases[c].MustWrite?;
      assert step == WriteDefault(c) || step.c != c;
    }
  }

  /** Under an exclusive init, first use is hazard-free in every interleaving in which no write fails. */
  lemma {:induction false} ExclusiveInitIsHazardFree(draws: nat -> string, clients: set<nat>, ss: seq<State>,
                                                     steps: seq<Step>)
    requires IsRun(draws, clients, ss, steps) && InitExclusive(ss, steps) && NoWriteFails(steps)
    ensures HazardFree(ss, steps) && Alone(ss[|steps|])
  {
    if steps != [] {
      var n := |steps| - 1;
      ExclusiveInitIsHazardFree(draws, clients, ss[..n + 1], steps[..n]);
      StepKeepsAlone(draws, ss[n], steps[n]);
      forall k | 0 <= k < |steps| ensures !Hazard(ss[k], steps[k]) {
        if k < n {
          assert !Hazard(ss[..n + 1][k], steps[..n][k]);
        }
      }
    }
  }

  /** A client on its own, if nothing fails, makes the one default configuration, with its own UUID, and sees it. */
  lemma AloneMakesTheDefault(draws: nat -> string, c: nat, ss: seq<State>, steps: seq<Step>)
    requires IsRun(draws, {c}, ss, steps) && Complete(ss[|steps|]) && NothingFails(steps)
    ensures ss[|steps|] == State(true, Some(draws(c)), [draws(c)], map[c := Finished(Some(draws(c)))])
  {
    AloneIsInPhase(draws, c, ss, steps);
    SomeoneFailedIff(draws, {c}, ss, steps);
    assert ss[|steps|].phases == map[c := ss[|steps|].phases[c]];
  }

  /** What a client on its own has done by each phase. */
  predicate DoneBy(p: Phase, s: State, uuid: string) {
    match p
    case Begun => s.file == None && s.written == [] && !s.pathSet
    case MustStat => s.file == None && s.written == [] && !s.pathSet
    case MustRemember => false
    case MustCreate => s.file == None && s.written == [] && !s.pathSet
    case MustWrite => s.file == None && s.written == [] && s.pathSet
    case Ready => s.file == Some(uuid) && s.written == [uuid] && s.pathSet
    case Finished(seen) => seen == s.file == Some(uuid) && s.written == [uuid] && s.pathSet
    case Failed => true
  }

  lemma {:induction false} AloneIsInPhase(draws: nat -> string, c: nat, ss: seq<State>, steps: seq<Step>)
    requires IsRun(draws, {c}, ss, steps) && NothingFails(steps)
    ensures ss[|steps|].phases.Keys == {c} && DoneBy(ss[|steps|].phases[c], ss[|steps|], draws(c))
  {
    if steps != [] {
      var n := |steps| - 1;
      AloneIsInPhase(draws, c, ss[..n + 1], steps[..n]);
      assert steps[n].c == c;
    }
  }

  lemma ExtendRun(draws: nat -> string, clients: set<nat>, ss: seq<State>, steps: seq<Step>, step: Step, t: State)
    requires IsRun(draws, clients, ss, steps) && Enabled(ss[|steps|], step) && t == Next(draws, ss[|steps|], step)
    ensures IsRun(draws, clients, ss + [t], steps + [step]) && (ss + [t])[|steps + [step]|] == t
  {
  }

  lemma BothFindNoFile(draws: nat -> string) returns (ss: seq<State>, steps: seq<Step>)
    ensures IsRun(draws, {0, 1}, ss, steps)
    ensures ss[|steps|] == State(false, None, [], map[0 := MustCreate, 1 := MustCreate])
  {
    ss, steps := [Initial({0, 1})], [];
    var s1 := State(false, None, [], map[0 := MustStat, 1 := Begun]);
    ExtendRun(draws, {0, 1}, ss, steps, TestPath(0), s1);
    ss, steps := ss + [s1], steps + [TestPath(0)];
    var s2 := State(false, None, [], map[0 := MustStat, 1 := MustStat]);
    ExtendRun(draws, {0, 1}, ss, steps, TestPath(1), s2);
    ss, steps := ss + [s2], steps + [TestPath(1)];
    var s3 := State(false, None, [], map[0 := MustCreate, 1 := MustStat]);
    ExtendRun(draws, {0, 1}, ss, steps, Stat(0), s3);
    ss, steps := ss + [s3], steps + [Stat(0)];
    var s4 := State(false, None, [], map[0 := MustCreate, 1 := MustCreate]);
    ExtendRun(draws, {0, 1}, ss, steps, Stat(1), s4);
    ss, steps := ss + [s4], steps + [Stat(1)];
  }

  /**
    Two readers under the shared lock: the first is told of a default context that the second
    then replaces, so what it was told is not what is stored.
   */
  lemma TwoReadersRace(draws: nat -> string) returns (ss: seq<State>, steps: seq<Step>)
    ensures IsRun(draws, {0, 1}, ss, steps)
    ensures var u, v := draws(0), draws(1);
            ss[|steps|] == State(true, Some(v), [u, v], map[0 := Finished(Some(u)), 1 := Finished(Some(v))])
  {
    var u, v := draws(0), draws(1);
    ss, steps := BothFindNoFile(draws);
    var s5 := State(true, None, [], map[0 := MustWrite, 1 := MustCreate]);
    ExtendRun(draws, {0, 1}, ss, steps, SetPath(0), s5);
    ss, steps := ss + [s5], steps + [SetPath(0)];
    var s6 := State(true, Some(u), [u], map[0 := Ready, 1 := MustCreate]);
    ExtendRun(draws, {0, 1}, ss, steps, WriteDefault(0), s6);
    ss, steps := ss + [s6], steps + [WriteDefault(0)];
    var s7 := State(true, Some(u), [u], map[0 := Finished(Some(u)), 1 := MustCreate]);
    ExtendRun(draws, {0, 1}, ss, steps, ReadFile(0), s7);
    ss, steps := ss + [s7], steps + [ReadFile(0)];
    var s8 := State(true, Some(u), [u], map[0 := Finished(Some(u)), 1 := MustWrite]);
    ExtendRun(draws, {0, 1}, ss, steps, SetPath(1), s8);
    ss, steps := ss + [s8], steps + [SetPath(1)];
    var s9 := State(true, Some(v), [u, v], map[0 := Finished(Some(u)), 1 := Ready]);
    ExtendRun(draws, {0, 1}, ss, steps, WriteDefault(1), s9);
    ss, steps := ss + [s9], steps + [WriteDefault(1)];
    var s10 := State(true, Some(v), [u, v], map[0 := Finished(Some(u)), 1 := Finished(Some(v))]);
    ExtendRun(draws, {0, 1}, ss, steps, ReadFile(1), s10);
    ss, steps := ss + [s10], steps + [ReadFile(1)];
  }
}
