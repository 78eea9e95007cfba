/** The files artifacts expander: only failing jobs report, and the run fails if any did. */
module FilesArtifactsExpander {
  import opened Common
  import opened FanOut

  const MAX_WORKERS: nat := 4

  /** What expanding one artifact comes to: nothing, or an error to report. */
  type JobResult<+E> = Option<E>

  function ExpanderSetup<E>(numExpansions: nat): Setup<JobResult<E>> {
    Setup(MAX_WORKERS, numExpansions, (r: JobResult<E>) => r.Some?)
  }

  /** Jobs are numbered: two expansions of the same artifact are two jobs. */
  function JobIds(n: nat): (ids: set<int>)
    ensures |ids| == n && forall i :: i in ids <==> 0 <= i < n
  {
    if n == 0 then {} else JobIds(n - 1) + {n - 1}
  }

  /** The errors among the results of jobs 0 to n - 1. */
  function ErrorsOf<E>(results: map<int, JobResult<E>>, n: nat): multiset<E> {
    if n == 0 then multiset{}
    else if n - 1 in results && results[n - 1].Some? then ErrorsOf(results, n - 1) + multiset{results[n - 1].value}
    else ErrorsOf(results, n - 1)
  }

  /** The errors on the channel. */
  function ErrorBag<E>(channel: seq<(int, JobResult<E>)>): multiset<E> {
    if channel == [] then multiset{}
    else
      var init, last := ErrorBag(channel[..|channel| - 1]), channel[|channel| - 1].1;
      if last.Some? then init + multiset{last.value} else init
  }

  method Drain<E>(channel: seq<(int, JobResult<E>)>) returns (errors: seq<E>)
    ensures multiset(errors) == ErrorBag(channel)
  {
    errors := [];
    for i := 0 to |channel|
      invariant multiset(errors) == ErrorBag(channel[..i])
    {
      assert channel[..i + 1][..i] == channel[..i];
      var resultErr := channel[i].1;
      if resultErr.Some? {
        errors := errors + [resultErr.value];
      }
    }
    assert channel[..|channel|] == channel;
  }

  lemma {:induction false} BagAppend<E>(a: seq<(int, JobResult<E>)>, b: seq<(int, JobResult<E>)>)
    ensures ErrorBag(a + b) == ErrorBag(a) + ErrorBag(b)
  {
    if b == [] {
      assert a + b == a;
    } else {
      BagAppend(a, b[..|b| - 1]);
      assert (a + b)[..|a + b| - 1] == a + b[..|b| - 1];
    }
  }

  function Dropped<T>(s: seq<T>, k: nat): seq<T>
    requires k < |s|
  {
    s[..k] + s[k + 1..]
  }

  lemma BagWithout<E>(channel: seq<(int, JobResult<E>)>, k: nat)
    requires k < |channel| && channel[k].1.Some?
    ensures ErrorBag(channel) == ErrorBag(Dropped(channel, k)) + multiset{channel[k].1.value}
  {
    var before, one, after := channel[..k], [channel[k]], channel[k + 1..];
    assert channel == before + (one + after);
    BagAppend(before, one + after);
    BagAppend(one, after);
    BagAppend(before, after);
    assert one[..0] == [];
  }

  /** The channel reports job i exactly if it is below n and failed, once, with its own error. */
  ghost predicate Reports<E>(channel: seq<(int, JobResult<E>)>, results: map<int, JobResult<E>>, n: nat) {
    && (forall i | 0 <= i < n :: i in results)
    && (forall k | 0 <= k < |channel| ::
          0 <= channel[k].0 < n && channel[k].1.Some? && channel[k].1 == results[channel[k].0])
    && (forall j, k | 0 <= j < k < |channel| :: channel[j].0 != channel[k].0)
    && (forall i | 0 <= i < n && results[i].Some? :: exists k :: 0 <= k < |channel| && channel[k].0 == i)
  }

  lemma FindReport<E>(channel: seq<(int, JobResult<E>)>, results: map<int, JobResult<E>>, n: nat) returns (k: nat)
    requires Reports(channel, results, n) && n > 0 && results[n - 1].Some?
    ensures k < |channel| && channel[k] == (n - 1, results[n - 1])
  {
    k :| 0 <= k < |channel| && channel[k].0 == n - 1;
  }

  lemma ReportsDomain<E>(channel: seq<(int, JobResult<E>)>, results: map<int, JobResult<E>>, n: nat)
    requires Reports(channel, results, n)
    ensures forall i | 0 <= i < n :: i in results
  {
  }

  lemma FirstReport<E>(channel: seq<(int, JobResult<E>)>, results: map<int, JobResult<E>>, n: nat)
    requires Reports(channel, results, n) && channel != []
    ensures 0 <= channel[0].0 < n
  {
  }

  lemma NothingReported<E>(channel: seq<(int, JobResult<E>)>, results: map<int, JobResult<E>>)
    requires Reports(channel, results, 0)
    ensures ErrorBag(channel) == ErrorsOf(results, 0)
  {
    if channel != [] {
      FirstReport(channel, results, 0);
    }
  }

  lemma ReportsOneLess<E>(channel: seq<(int, JobResult<E>)>, results: map<int, JobResult<E>>, n: nat)
    requires Reports(channel, results, n) && n > 0 && results[n - 1].None?
    ensures Reports(channel, results, n - 1) && ErrorsOf(results, n) == ErrorsOf(results, n - 1)
  {
  }

  lemma {:induction false} EveryErrorReportedOnce<E>(channel: seq<(int, JobResult<E>)>,
                                                     results: map<int, JobResult<E>>, n: nat)
    requires Reports(channel, results, n)
    ensures ErrorBag(channel) == ErrorsOf(results, n)
    decreases n
  {
    hide Reports, Dropped, ErrorBag, ErrorsOf;
    ReportsDomain(channel, results, n);
    if n == 0 {
      NothingReported(channel, results);
    } else if results[n - 1].None? {
      ReportsOneLess(channel, results, n);
      EveryErrorReportedOnce(channel, results, n - 1);
    } else {
      var k := FindReport(channel, results, n);
      ReportsWithout(channel, results, n, k);
      EveryErrorReportedOnce(Dropped(channel, k), results, n - 1);
      OneMoreError(channel, results, n, k);
    }
  }

  lemma OneMoreError<E>(channel: seq<(int, JobResult<E>)>, results: map<int, JobResult<E>>, n: nat, k: nat)
    requires n > 0 && n - 1 in results && results[n - 1].Some?
    requires k < |channel| && channel[k] == (n - 1, results[n - 1])
    requires ErrorBag(Dropped(channel, k)) == ErrorsOf(results, n - 1)
    ensures ErrorBag(channel) == ErrorsOf(results, n)
  {
    hide ErrorBag, Dropped;
    BagWithout(channel, k);
  }

  lemma DroppedAt<T>(s: seq<T>, k: nat)
    requires k < |s|
    ensures |Dropped(s, k)| == |s| - 1
    ensures forall j | 0 <= j < |s| - 1 :: Dropped(s, k)[j] == s[if j < k then j else j + 1]
  {
  }

  lemma ReportsWithout<E>(channel: seq<(int, JobResult<E>)>, results: map<int, JobResult<E>>, n: nat, k: nat)
    requires Reports(channel, results, n) && n > 0 && k < |channel| && channel[k].0 == n - 1
    ensures Reports(Dropped(channel, k), results, n - 1)
  {
    hide Dropped;
    var rest := Dropped(channel, k);
    DroppedAt(channel, k);
    forall i | 0 <= i < n - 1 && results[i].Some?
      ensures exists j :: 0 <= j < |rest| && rest[j].0 == i
    {
      var j :| 0 <= j < |channel| && channel[j].0 == i;
      assert rest[if j < k then j else j - 1].0 == i;
    }
  }

  /** Once the channel is closed, it reports every failing job and nothing else. */
  lemma ClosedChannelReports<E>(n: nat, p: Pool<int, JobResult<E>>)
    requires Invariant(ExpanderSetup<E>(n), JobIds(n), p) && p.closed
    ensures Reports(p.channel, p.returned, n)
  {
    forall i | 0 <= i < n ensures i in p.returned {
      assert i in JobIds(n);
    }
    forall k | 0 <= k < |p.channel|
      ensures 0 <= p.channel[k].0 < n && p.channel[k].1.Some?
    {
      assert p.channel[k].0 in ChannelIds(p.channel);
      assert p.channel[k].0 in ReportedIds(ExpanderSetup<E>(n), p);
      assert p.channel[k].0 in JobIds(n);
    }
    forall i | 0 <= i < n && p.returned[i].Some?
      ensures exists k :: 0 <= k < |p.channel| && p.channel[k].0 == i
    {
      assert i in ReportedIds(ExpanderSetup<E>(n), p);
      assert i in ChannelIds(p.channel);
    }
  }

  /** The jobs' results, one a job, and the errors the run reports: each failing job's, once. */
  method RunExpansions<E>(jobs: seq<Task<JobResult<E>>>) returns (results: map<int, JobResult<E>>, errors: seq<E>)
    ensures forall i | 0 <= i < |jobs| :: i in results && MayReturn(jobs[i], results[i])
    ensures multiset(errors) == ErrorsOf(results, |jobs|)
    ensures errors == [] <==> forall i | 0 <= i < |jobs| :: results[i].None?
  {
    hide Invariant, Reports, ErrorBag, ErrorsOf, MayReturn;
    var tasks := Tasks(jobs);
    var pool := RunToClose(ExpanderSetup<E>(|jobs|), tasks);
    ClosedChannelReports(|jobs|, pool);
    errors := Drain(pool.channel);
    results := pool.returned;
    ResultsOfTasks(jobs, results);
    EveryErrorReportedOnce(pool.channel, results, |jobs|);
    NoErrorsIff(results, |jobs|);
    assert |errors| == |multiset(errors)|;
  }

  function Tasks<E>(jobs: seq<Task<JobResult<E>>>): (tasks: map<int, Task<JobResult<E>>>)
    ensures tasks.Keys == JobIds(|jobs|) && |tasks| == |jobs|
  {
    var tasks := map i | i in JobIds(|jobs|) :: jobs[i];
    assert |tasks| == |tasks.Keys|;
    tasks
  }

  lemma ResultsOfTasks<E>(jobs: seq<Task<JobResult<E>>>, results: map<int, JobResult<E>>)
    requires results.Keys == Tasks(jobs).Keys
    requires forall id | id in Tasks(jobs) :: MayReturn(Tasks(jobs)[id], results[id])
    ensures forall i | 0 <= i < |jobs| :: i in results && MayReturn(jobs[i], results[i])
  {
    forall i | 0 <= i < |jobs| ensures i in results && MayReturn(jobs[i], results[i]) {
      assert i in JobIds(|jobs|);
    }
  }

  lemma {:induction false} NoErrorsIff<E>(results: map<int, JobResult<E>>, n: nat)
    requires forall i | 0 <= i < n :: i in results
    ensures |ErrorsOf(results, n)| == 0 <==> forall i | 0 <= i < n :: results[i].None?
  {
    if n > 0 {
      NoErrorsIff(results, n - 1);
    }
  }

  /** At most 4 at once, room for every result, and errors alone reported. */
  lemma ExpanderSetupIs<E>(numExpansions: nat, r: JobResult<E>)
    ensures var setup := ExpanderSetup<E>(numExpansions);
            setup.workers == 4 && setup.capacity == numExpansions && setup.emits(r) == r.Some?
  {
  }

  /** The jobs below `n` that failed with the error `e`. */
  ghost function FailedWith<E>(results: map<int, JobResult<E>>, n: nat, e: E): set<int> {
    set i | 0 <= i < n && i in results && results[i] == Some(e)
  }

  /** An error is reported as many times as there are jobs that failed with it. */
  lemma {:induction false} ErrorCount<E>(results: map<int, JobResult<E>>, n: nat, e: E)
    ensures ErrorsOf(results, n)[e] == |FailedWith(results, n, e)|
  {
    if n > 0 {
      ErrorCount(results, n - 1, e);
      var before, now := FailedWith(results, n - 1, e), FailedWith(results, n, e);
      if n - 1 in results && results[n - 1] == Some(e) {
        assert now == before + {n - 1};
      } else {
        assert now == before;
      }
    }
  }
}
