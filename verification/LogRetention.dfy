/** Retention of the CLI's log files. */
module LogRetention {
  import opened Common
  import opened Ordering
  import opened Decimal

  const FILE_NAME_PREFIX: string := "kurtosis-cli"
  const NUMBER_OF_LOG_FILES: nat := 7

  predicate IsLogName(name: string) {
    FILE_NAME_PREFIX <= name
  }

  function Filtered(names: seq<string>): seq<string> {
    if names == [] then []
    else
      var init, last := Filtered(names[..|names| - 1]), names[|names| - 1];
      if IsLogName(last) then init + [last] else init
  }

  /** All but the last seven of a listing: the only ones looked at. */
  function Excess(listing: seq<string>): seq<string> {
    if |listing| > NUMBER_OF_LOG_FILES then listing[..|listing| - NUMBER_OF_LOG_FILES] else []
  }

  /** The names before the first that cannot be removed. */
  function RemovedOf(candidates: seq<string>, stuck: set<string>): seq<string> {
    if candidates == [] || candidates[0] in stuck then [] else [candidates[0]] + RemovedOf(candidates[1..], stuck)
  }

  function Without(listing: seq<string>, removed: seq<string>): seq<string> {
    if listing == [] then []
    else
      var init, last := Without(listing[..|listing| - 1], removed), listing[|listing| - 1];
      if last in removed then init else init + [last]
  }

  /** What a cleanup leaves. */
  function AfterCleanup(listing: seq<string>, stuck: set<string>): seq<string> {
    Without(listing, RemovedOf(Filtered(Excess(listing)), stuck))
  }

  /** The logs directory, with its entries as os.ReadDir lists them: by name. */
  class LogDirectory {
    /** Empty if no logs directory has been set. */
    const folder: string
    var listing: seq<string>
    /** Files whose removal fails. */
    const stuck: set<string>
    /** Is there a log file of an earlier release in the parent directory? */
    var parentLog: bool
    const parentLogStuck: bool

    constructor (folder: string, listing: seq<string>, stuck: set<string>, parentLog: bool, parentLogStuck: bool)
      ensures this.folder == folder && this.listing == listing && this.stuck == stuck
      ensures this.parentLog == parentLog && this.parentLogStuck == parentLogStuck
    {
      this.folder, this.listing, this.stuck := folder, listing, stuck;
      this.parentLog, this.parentLogStuck := parentLog, parentLogStuck;
    }

    method Remove(name: string) returns (ok: bool)
      modifies this`listing
      ensures ok == (name !in stuck)
      ensures listing == if ok then Without(old(listing), [name]) else old(listing)
    {
      ok := name !in stuck;
      if ok {
        listing := Without(listing, [name]);
      }
    }

    method RemoveParentLog()
      modifies this`parentLog
      ensures parentLog == (old(parentLog) && parentLogStuck)
    {
      if parentLog {
        parentLog := parentLogStuck;
      }
    }
  }

  lemma {:induction false} WithoutMore(listing: seq<string>, removed: seq<string>, name: string)
    ensures Without(Without(listing, removed), [name]) == Without(listing, removed + [name])
  {
    if listing != [] {
      var n := |listing| - 1;
      WithoutMore(listing[..n], removed, name);
      var init := Without(listing[..n], removed);
      if listing[n] !in removed {
        assert (init + [listing[n]])[..|init|] == init;
      }
    }
  }

  lemma {:induction false} WithoutNothing(listing: seq<string>)
    ensures Without(listing, []) == listing
  {
    if listing != [] {
      WithoutNothing(listing[..|listing| - 1]);
    }
  }

  /** The first loop: which entries are to go. */
  method SelectExcessLogs(files: seq<string>) returns (filesWithKurtosisCliPrefix: seq<string>)
    ensures filesWithKurtosisCliPrefix == Filtered(Excess(files))
  {
    filesWithKurtosisCliPrefix := [];
    var numberOfFilesToBeDeleted := |files| - NUMBER_OF_LOG_FILES;
    if |files| > NUMBER_OF_LOG_FILES {
      ghost var excess := files[..numberOfFilesToBeDeleted];
      for i := 0 to numberOfFilesToBeDeleted
        invariant filesWithKurtosisCliPrefix == Filtered(excess[..i])
      {
        assert excess[..i + 1][..i] == excess[..i];
        if IsLogName(files[i]) {
          filesWithKurtosisCliPrefix := filesWithKurtosisCliPrefix + [files[i]];
        }
      }
      assert excess[..numberOfFilesToBeDeleted] == excess;
    }
  }

  /** The second loop stops at the first failure. */
  method RemoveUntilFailure(dir: LogDirectory, names: seq<string>)
    modifies dir`listing
    ensures dir.listing == Without(old(dir.listing), RemovedOf(names, dir.stuck))
  {
    hide Without, RemovedOf;
    ghost var files := dir.listing;
    WithoutNothing(files);
    RemovedSoFar(names, 0, dir.stuck);
    for i := 0 to |names|
      invariant dir.listing == Without(files, names[..i])
      invariant i <= |RemovedOf(names, dir.stuck)|
    {
      var ok := dir.Remove(names[i]);
      RemovedSoFar(names, i, dir.stuck);
      if !ok {
        return;
      }
      WithoutMore(files, names[..i], names[i]);
      assert names[..i] + [names[i]] == names[..i + 1];
    }
    RemovedSoFar(names, |names|, dir.stuck);
    assert names[..|names|] == names;
  }

  /** Names are removed from the front: after `i` of them the next one goes unless it is stuck. */
  lemma {:induction false} RemovedSoFar(names: seq<string>, i: nat, stuck: set<string>)
    requires i <= |names|
    ensures var removed := RemovedOf(names, stuck);
            && |removed| <= |names| && removed == names[..|removed|]
            && (i <= |removed| && i < |names| && names[i] !in stuck ==> i + 1 <= |removed|)
            && (i <= |removed| && i < |names| && names[i] in stuck ==> removed == names[..i])
    decreases |names|
  {
    if names != [] && names[0] !in stuck {
      RemovedSoFar(names[1..], if i > 0 then i - 1 else 0, stuck);
      var rest := RemovedOf(names[1..], stuck);
      assert [names[0]] + rest == names[..|rest| + 1];
    }
  }

  method RemoveLogFiles(dir: LogDirectory)
    modifies dir
    ensures dir.listing == if dir.folder == "" then old(dir.listing) else AfterCleanup(old(dir.listing), dir.stuck)
    ensures dir.parentLog == (old(dir.parentLog) && (dir.folder == "" || dir.parentLogStuck))
  {
    if dir.folder == "" {
      return;
    }
    var filesWithKurtosisCliPrefix := SelectExcessLogs(dir.listing);
    RemoveUntilFailure(dir, filesWithKurtosisCliPrefix);
    dir.RemoveParentLog();
  }

  // ---------- What is removed ----------

  lemma {:induction false} FilteredMembers(names: seq<string>)
    ensures forall x :: x in Filtered(names) <==> x in names && IsLogName(x)
    ensures (forall x | x in names :: IsLogName(x)) ==> Filtered(names) == names
  {
    if names != [] {
      var n := |names| - 1;
      FilteredMembers(names[..n]);
      assert names == names[..n] + [names[n]];
    }
  }

  lemma {:induction false} RemovedMembers(candidates: seq<string>, stuck: set<string>)
    ensures forall x | x in RemovedOf(candidates, stuck) :: x in candidates && x !in stuck
    ensures (forall x | x in candidates :: x !in stuck) ==> RemovedOf(candidates, stuck) == candidates
  {
    if candidates != [] && candidates[0] !in stuck {
      RemovedMembers(candidates[1..], stuck);
      assert candidates == [candidates[0]] + candidates[1..];
    }
  }

  lemma {:induction false} WithoutMembers(listing: seq<string>, removed: seq<string>)
    ensures forall x :: x in Without(listing, removed) <==> x in listing && x !in removed
    ensures (forall x | x in listing :: x !in removed) ==> Without(listing, removed) == listing
    ensures (forall x | x in listing :: x in removed) ==> Without(listing, removed) == []
  {
    if listing != [] {
      var n := |listing| - 1;
      WithoutMembers(listing[..n], removed);
      assert listing == listing[..n] + [listing[n]];
    }
  }

  lemma {:induction false} WithoutAppend(a: seq<string>, b: seq<string>, removed: seq<string>)
    ensures Without(a + b, removed) == Without(a, removed) + Without(b, removed)
  {
    if b == [] {
      assert a + b == a;
    } else {
      var n := |b| - 1;
      WithoutAppend(a, b[..n], removed);
      assert (a + b)[..|a + b| - 1] == a + b[..n];
    }
  }

  function LastSeven<T>(xs: seq<T>): seq<T> {
    if |xs| > NUMBER_OF_LOG_FILES then xs[|xs| - NUMBER_OF_LOG_FILES..] else xs
  }

  lemma {:induction false} FilteredAppend(a: seq<string>, b: seq<string>)
    ensures Filtered(a + b) == Filtered(a) + Filtered(b)
  {
    if b == [] {
      assert a + b == a;
    } else {
      var n := |b| - 1;
      FilteredAppend(a, b[..n]);
      assert (a + b)[..|a + b| - 1] == a + b[..n];
    }
  }

  lemma {:induction false} FilteredLength(names: seq<string>)
    ensures |Filtered(names)| <= |names|
    ensures (forall x | x in names :: !IsLogName(x)) ==> Filtered(names) == []
  {
    if names != [] {
      FilteredLength(names[..|names| - 1]);
    }
  }

  lemma {:induction false} FilteredWithout(listing: seq<string>, removed: seq<string>)
    ensures Filtered(Without(listing, removed)) == Without(Filtered(listing), removed)
  {
    hide IsLogName;
    if listing != [] {
      var n := |listing| - 1;
      FilteredWithout(listing[..n], removed);
      FilteredSnoc(Without(listing[..n], removed), listing[n]);
      WithoutSnoc(Filtered(listing[..n]), listing[n], removed);
    }
  }

  lemma FilteredSnoc(names: seq<string>, x: string)
    ensures Filtered(names + [x]) == Filtered(names) + if IsLogName(x) then [x] else []
  {
    assert (names + [x])[..|names|] == names;
  }

  lemma WithoutSnoc(names: seq<string>, x: string, removed: seq<string>)
    ensures Without(names + [x], removed) == Without(names, removed) + if x in removed then [] else [x]
  {
    assert (names + [x])[..|names|] == names;
  }

  lemma {:induction false} FilteredKeepsDistinct(names: seq<string>)
    requires NoDuplicates(names)
    ensures NoDuplicates(Filtered(names))
  {
    hide IsLogName;
    if names != [] {
      var n := |names| - 1;
      FilteredKeepsDistinct(names[..n]);
      FilteredMembers(names[..n]);
    }
  }

  /** The logs left are all but the first ones, as many as were removed. */
  lemma LogsAfterCleanup(listing: seq<string>, stuck: set<string>)
    requires NoDuplicates(listing)
    ensures var logs, removed := Filtered(listing), RemovedOf(Filtered(Excess(listing)), stuck);
            && |removed| <= |Filtered(Excess(listing))| <= |logs| && removed == logs[..|removed|]
            && Filtered(AfterCleanup(listing, stuck)) == logs[|removed|..]
  {
    hide Filtered, Without, RemovedOf, NoDuplicates, IsLogName;
    var excess, last := Excess(listing), LastSeven(listing);
    var logs, removed := Filtered(listing), RemovedOf(Filtered(excess), stuck);
    assert listing == excess + last;
    FilteredAppend(excess, last);
    RemovedSoFar(Filtered(excess), 0, stuck);
    FilteredKeepsDistinct(listing);
    FilteredWithout(listing, removed);
    assert logs == removed + logs[|removed|..];
    DropExcess(removed, logs[|removed|..]);
  }

  /**
    Any directory in which nothing is stuck: no other file goes, and the logs left are those
    among the last seven entries, so at most seven. With seven other files listed after the
    logs, none is left.
   */
  lemma LogsLeft(listing: seq<string>)
    requires NoDuplicates(listing)
    ensures var after := AfterCleanup(listing, {});
            && Filtered(after) == Filtered(LastSeven(listing)) && |Filtered(after)| <= NUMBER_OF_LOG_FILES
            && (forall x | !IsLogName(x) :: x in after <==> x in listing)
  {
    hide Without, Filtered, RemovedOf, IsLogName, NoDuplicates;
    var excess, last := Excess(listing), LastSeven(listing);
    assert listing == excess + last;
    FilteredAppend(excess, last);
    FilteredLength(last);
    FilteredMembers(excess);
    RemovedMembers(Filtered(excess), {});
    WithoutMembers(listing, Filtered(excess));
    LogsAfterCleanup(listing, {});
  }

  /**
    The same to the letter: an entry goes exactly when its name starts with "kurtosis-cli", at
    least seven entries are listed after it, and no entry up to it that starts so is stuck.
   */
  lemma RemovedToTheLetter(listing: seq<string>, stuck: set<string>, i: nat)
    requires (forall k, l | 0 <= k < l < |listing| :: listing[k] != listing[l]) && i < |listing|
    ensures listing[i] !in AfterCleanup(listing, stuck) <==>
              && i + 7 < |listing| && "kurtosis-cli" <= listing[i]
              && forall j | 0 <= j <= i && "kurtosis-cli" <= listing[j] :: listing[j] !in stuck
  {
    hide AfterCleanup;
    RemovedIff(listing, stuck, i);
  }

  /** What a cleanup leaves is in the order it was listed, and nothing is new. */
  lemma {:induction false} WithoutKeepsOrder(a: seq<string>, b: seq<string>, x: string, removed: seq<string>)
    ensures Without([], removed) == []
    ensures Without([x], removed) == if x in removed then [] else [x]
    ensures Without(a + b, removed) == Without(a, removed) + Without(b, removed)
  {
    assert [x][..0] == [];
    WithoutAppend(a, b, removed);
  }

  /** The names selected, in order: those that start with "kurtosis-cli" among all but the last seven. */
  lemma SelectedToTheLetter(a: seq<string>, b: seq<string>, x: string)
    requires |b| == 7
    ensures Filtered(Excess(b)) == [] && (|a| < 7 ==> Filtered(Excess(a)) == [])
    ensures Filtered(Excess([x] + b)) == if "kurtosis-cli" <= x then [x] else []
    ensures Filtered(Excess(a + [x] + b)) == Filtered(Excess(a + b)) + if "kurtosis-cli" <= x then [x] else []
  {
    assert ([x] + b)[..1] == [x] && [x][..0] == [];
    assert (a + b)[..|a|] == a;
    assert (a + [x] + b)[..|a| + 1] == a + [x];
    FilteredSnoc(a, x);
  }

  /** How many of the logs are one too many. */
  function SurplusLogs(listing: seq<string>): nat {
    var logs := Filtered(listing);
    if |logs| > NUMBER_OF_LOG_FILES then |logs| - NUMBER_OF_LOG_FILES else 0
  }

  /**
    Any directory, and any files that cannot be removed: the last seven logs in the order of the
    listing are what is left exactly when none of the surplus ones is stuck, and the one after
    them is, or is already among the last seven entries.
   */
  lemma KeepsLastSevenLogsIff(listing: seq<string>, stuck: set<string>)
    requires NoDuplicates(listing)
    ensures SurplusLogs(listing) <= |Filtered(Excess(listing))|
    ensures var candidates, m := Filtered(Excess(listing)), SurplusLogs(listing);
            Filtered(AfterCleanup(listing, stuck)) == LastSeven(Filtered(listing)) <==>
              && (forall j | 0 <= j < m :: candidates[j] !in stuck)
              && (m == |candidates| || candidates[m] in stuck)
  {
    hide Filtered, IsLogName, AfterCleanup, NoDuplicates, RemovedOf;
    var excess, last := Excess(listing), LastSeven(listing);
    var candidates, m := Filtered(excess), SurplusLogs(listing);
    assert listing == excess + last;
    FilteredAppend(excess, last);
    FilteredLength(last);
    LogsAfterCleanup(listing, stuck);
    RemovedCountIff(candidates, m, stuck);
  }

  lemma {:induction false} RemovedCountIff(candidates: seq<string>, m: nat, stuck: set<string>)
    requires m <= |candidates|
    ensures |RemovedOf(candidates, stuck)| == m <==>
            && (forall j | 0 <= j < m :: candidates[j] !in stuck)
            && (m == |candidates| || candidates[m] in stuck)
    decreases m
  {
    if m > 0 {
      if candidates[0] !in stuck {
        var rest := candidates[1..];
        RemovedCountIff(rest, m - 1, stuck);
        assert forall j | 0 <= j < m - 1 :: rest[j] == candidates[j + 1];
        if forall j | 0 <= j < m - 1 :: rest[j] !in stuck {
          forall j | 0 <= j < m ensures candidates[j] !in stuck {
            assert j > 0 ==> candidates[j] == rest[j - 1];
          }
        }
      }
    }
  }

  /** With nothing stuck: when the last seven entries are all logs, or no log is listed before them. */
  lemma KeepsNewestSevenIff(listing: seq<string>)
    requires NoDuplicates(listing)
    ensures Filtered(AfterCleanup(listing, {})) == LastSeven(Filtered(listing)) <==>
              || (forall x | x in LastSeven(listing) :: IsLogName(x))
              || (forall x | x in Excess(listing) :: !IsLogName(x))
  {
    hide Filtered, IsLogName, AfterCleanup, NoDuplicates;
    KeepsLastSevenLogsIff(listing, {});
    SurplusIsAllIff(listing);
    FilteredAll(LastSeven(listing));
    NoneFilteredIff(Excess(listing));
  }

  /** All candidates are surplus exactly if they are none, or the last seven entries are logs. */
  lemma SurplusIsAllIff(listing: seq<string>)
    ensures SurplusLogs(listing) == |Filtered(Excess(listing))| <==>
            || Filtered(Excess(listing)) == []
            || |Filtered(LastSeven(listing))| == |LastSeven(listing)|
  {
    hide Filtered;
    var excess, last := Excess(listing), LastSeven(listing);
    assert listing == excess + last;
    FilteredAppend(excess, last);
    FilteredLength(last);
    FilteredLength(excess);
  }

  lemma NoneFilteredIff(names: seq<string>)
    ensures Filtered(names) == [] <==> forall x | x in names :: !IsLogName(x)
  {
    hide Filtered, IsLogName;
    FilteredMembers(names);
    if Filtered(names) != [] {
      assert Filtered(names)[0] in Filtered(names);
    }
  }

  lemma {:induction false} FilteredAll(names: seq<string>)
    ensures |Filtered(names)| <= |names|
    ensures (forall x | x in names :: IsLogName(x)) <==> |Filtered(names)| == |names|
    ensures (forall x | x in names :: IsLogName(x)) ==> Filtered(names) == names
  {
    if names != [] {
      var n := |names| - 1;
      FilteredAll(names[..n]);
      FilteredLength(names[..n]);
      assert names == names[..n] + [names[n]];
    }
  }

  lemma NotInBoth(a: seq<string>, b: seq<string>, x: string)
    requires NoDuplicates(a + b) && x in b
    ensures x !in a
  {
    var j :| 0 <= j < |b| && b[j] == x;
    assert (a + b)[|a| + j] == x;
    assert forall i | 0 <= i < |a| :: (a + b)[i] == a[i];
  }

  lemma {:induction false} RemovedOfOneMore(candidates: seq<string>, x: string, stuck: set<string>)
    ensures RemovedOf(candidates + [x], stuck)
         == RemovedOf(candidates, stuck) +
            if (forall c | c in candidates :: c !in stuck) && x !in stuck then [x] else []
  {
    if candidates != [] {
      assert (candidates + [x])[1..] == candidates[1..] + [x];
      if candidates[0] !in stuck {
        RemovedOfOneMore(candidates[1..], x, stuck);
        assert candidates == [candidates[0]] + candidates[1..];
      }
    }
  }

  /** All logs up to the one at `i` can be removed. */
  predicate NoneStuckUpTo(names: seq<string>, i: nat, stuck: set<string>)
    requires i < |names|
  {
    forall j | 0 <= j <= i && IsLogName(names[j]) :: names[j] !in stuck
  }

  lemma NoneStuckIff(names: seq<string>, stuck: set<string>)
    requires names != []
    ensures var n := |names| - 1;
            NoneStuckUpTo(names, n, stuck) <==>
              && (forall c | c in Filtered(names[..n]) :: c !in stuck)
              && (IsLogName(names[n]) ==> names[n] !in stuck)
  {
    hide IsLogName, Filtered;
    var n := |names| - 1;
    FilteredMembers(names[..n]);
    if NoneStuckUpTo(names, n, stuck) {
      forall c | c in Filtered(names[..n]) ensures c !in stuck {
        var j :| 0 <= j < n && names[j] == c;
      }
    }
    if forall c | c in Filtered(names[..n]) :: c !in stuck {
      forall j | 0 <= j < n && IsLogName(names[j]) ensures names[j] !in stuck {
        assert names[j] in names[..n];
      }
    }
  }

  /** One more candidate goes exactly if nothing is stuck up to it, and does not change which others go. */
  lemma LastRemovedIff(candidates: seq<string>, x: string, stuck: set<string>, y: string)
    requires x !in candidates
    ensures y != x ==> (y in RemovedOf(candidates + [x], stuck) <==> y in RemovedOf(candidates, stuck))
    ensures x in RemovedOf(candidates + [x], stuck) <==>
            (forall c | c in candidates :: c !in stuck) && x !in stuck
  {
    hide RemovedOf;
    RemovedMembers(candidates, stuck);
    RemovedOfOneMore(candidates, x, stuck);
  }

  lemma {:induction false} RemovedOfFilteredIff(names: seq<string>, stuck: set<string>, i: nat)
    requires NoDuplicates(names) && i < |names|
    ensures names[i] in RemovedOf(Filtered(names), stuck) <==> IsLogName(names[i]) && NoneStuckUpTo(names, i, stuck)
  {
    hide IsLogName, RemovedOf, NoneStuckUpTo, Filtered, NoDuplicates;
    var n := |names| - 1;
    var init, x := names[..n], names[n];
    assert names == init + [x];
    NoDuplicatesBefore(init, x);
    FilteredMembers(init);
    FilteredSnoc(init, x);
    assert Filtered(init) + [] == Filtered(init);
    RemovedMembers(Filtered(init), stuck);
    LastRemovedIff(Filtered(init), x, stuck, names[i]);
    if i < n {
      assert names[i] == init[i] && init[i] in init;
      RemovedOfFilteredIff(init, stuck, i);
      SameUpTo(names, init, i, stuck);
    } else {
      NoneStuckIff(names, stuck);
    }
  }

  lemma NoDuplicatesBefore(init: seq<string>, x: string)
    requires NoDuplicates(init + [x])
    ensures NoDuplicates(init) && x !in init
  {
    forall i, j | 0 <= i < j < |init| ensures init[i] != init[j] {
      assert (init + [x])[i] == init[i] && (init + [x])[j] == init[j];
    }
    forall i | 0 <= i < |init| ensures init[i] != x {
      assert (init + [x])[i] == init[i] && (init + [x])[|init|] == x;
    }
  }

  lemma SameUpTo(names: seq<string>, init: seq<string>, i: nat, stuck: set<string>)
    requires i < |init| && init <= names
    ensures NoneStuckUpTo(names, i, stuck) <==> NoneStuckUpTo(init, i, stuck)
  {
    assert forall j | 0 <= j <= i :: names[j] == init[j];
  }

  /**
    Any directory, and any files that cannot be removed: an entry goes exactly when it is a
    log name with at least seven entries listed after it and no log up to it is stuck.
   */
  lemma RemovedIff(listing: seq<string>, stuck: set<string>, i: nat)
    requires NoDuplicates(listing) && i < |listing|
    ensures listing[i] !in AfterCleanup(listing, stuck) <==>
            && i + NUMBER_OF_LOG_FILES < |listing| && IsLogName(listing[i])
            && NoneStuckUpTo(listing, i, stuck)
  {
    hide IsLogName, Filtered, RemovedOf, Without;
    var excess := Excess(listing);
    var removed := RemovedOf(Filtered(excess), stuck);
    WithoutMembers(listing, removed);
    if i < |excess| {
      RemovedOfFilteredIff(excess, stuck, i);
      SameUpTo(listing, excess, i, stuck);
    } else {
      FilteredMembers(excess);
      RemovedMembers(Filtered(excess), stuck);
      assert listing == excess + LastSeven(listing);
      NotInBoth(excess, LastSeven(listing), listing[i]);
    }
  }

  lemma DropExcess(a: seq<string>, b: seq<string>)
    requires NoDuplicates(a + b)
    ensures Without(a + b, a) == b
  {
    forall x | x in b ensures x !in a {
      NotInBoth(a, b, x);
    }
    WithoutAppend(a, b, a);
    WithoutMembers(a, a);
    WithoutMembers(b, a);
  }

  /** If every entry is a log file and nothing is stuck, the last seven listed are what is left. */
  lemma LogsOnlyKeepsLastSeven(listing: seq<string>)
    requires NoDuplicates(listing) && forall x | x in listing :: IsLogName(x)
    ensures AfterCleanup(listing, {}) == LastSeven(listing)
  {
    hide Without, Filtered, RemovedOf, IsLogName;
    var excess := Excess(listing);
    FilteredMembers(excess);
    RemovedMembers(excess, {});
    if |listing| > NUMBER_OF_LOG_FILES {
      assert listing == excess + LastSeven(listing);
      DropExcess(excess, LastSeven(listing));
    } else {
      WithoutNothing(listing);
    }
  }

  // ---------- Timestamps ----------

  function LogName(timestamp: nat): string {
    FILE_NAME_PREFIX + "-" + Digits(timestamp) + ".log"
  }

  /** A log file's name to the letter. */
  lemma LogNameText(timestamp: nat, numeral: string)
    requires Reads(numeral, timestamp)
    ensures LogName(timestamp) == "kurtosis-cli-" + numeral + ".log"
  {
    DigitsOfReading(numeral, timestamp);
  }

  predicate DigitsOnly(s: string) {
    forall i | 0 <= i < |s| :: IsDigit(s[i])
  }

  lemma {:induction false} ValueFromHead(c: char, s: string)
    requires IsDigit(c) && DigitsOnly(s)
    ensures Value([c] + s) == (c as int - '0' as int) * Pow10(|s|) + Value(s)
    ensures Value(s) < Pow10(|s|)
  {
    hide Value;
    ValueOfNone();
    if s == [] {
      assert [c] + s == [] + [c];
      ValueOfSnoc([], c);
    } else {
      var n := |s| - 1;
      ValueFromHead(c, s[..n]);
      var d, p := c as int - '0' as int, Pow10(n);
      ValueOfSnoc(s[..n], s[n]);
      ValueOfSnoc([c] + s[..n], s[n]);
      assert s == s[..n] + [s[n]] && [c] + s == [c] + s[..n] + [s[n]];
      assert d * (10 * p) == 10 * (d * p);
    }
  }

  function Pow10(n: nat): nat {
    if n == 0 then 1 else 10 * Pow10(n - 1)
  }

  /** At equal width, the order of digit strings is that of the numbers. */
  lemma {:induction false} DigitOrder(a: string, b: string, tail: string)
    requires DigitsOnly(a) && DigitsOnly(b) && |a| == |b|
    ensures Leq(a + tail, b + tail) <==> Value(a) <= Value(b)
  {
    hide Value, Pow10;
    if a == [] {
      assert a + tail == tail && b + tail == tail;
      LeqTotal(tail, tail);
    } else {
      var x, y := a[0], b[0];
      assert a == [x] + a[1..] && b == [y] + b[1..];
      ValueFromHead(x, a[1..]);
      ValueFromHead(y, b[1..]);
      assert (a + tail)[1..] == a[1..] + tail && (b + tail)[1..] == b[1..] + tail;
      DigitOrder(a[1..], b[1..], tail);
      HeadDecides(x as int - '0' as int, y as int - '0' as int, Pow10(|a| - 1), Value(a[1..]), Value(b[1..]));
    }
  }

  lemma HeadDecides(x: int, y: int, p: nat, u: nat, v: nat)
    requires u < p && v < p
    ensures x < y ==> x * p + u < y * p + v
    ensures y < x ==> y * p + v < x * p + u
  {
    if x < y {
      OneMoreIsAtLeast(x, y, p);
    } else if y < x {
      OneMoreIsAtLeast(y, x, p);
    }
  }

  predicate SameWidth(s: nat, t: nat) {
    |Digits(s)| == |Digits(t)|
  }

  /** So at equal width log files are listed oldest first. */
  lemma LogNameOrder(s: nat, t: nat)
    requires SameWidth(s, t)
    ensures Leq(LogName(s), LogName(t)) <==> s <= t
  {
    hide Leq, Value, Digits;
    var p := FILE_NAME_PREFIX + "-";
    forall i | 0 <= i < |Digits(s)| ensures IsDigit(Digits(s)[i]) && IsDigit(Digits(t)[i]) {
      assert Digits(s)[i] in Digits(s) && Digits(t)[i] in Digits(t);
    }
    DigitOrder(Digits(s), Digits(t), ".log");
    ValueOfDigits(s);
    ValueOfDigits(t);
    LeqAfterPrefix(p, Digits(s) + ".log", Digits(t) + ".log");
    assert LogName(s) == p + (Digits(s) + ".log");
    assert LogName(t) == p + (Digits(t) + ".log");
  }

  // ---------- Whole runs ----------

  predicate Ascending(ts: seq<nat>) {
    forall i, j | 0 <= i < j < |ts| :: ts[i] < ts[j]
  }

  predicate EqualWidth(ts: seq<nat>) {
    forall i, j | 0 <= i < j < |ts| :: SameWidth(ts[i], ts[j])
  }

  function LogNames(ts: seq<nat>): seq<string> {
    seq(|ts|, i requires 0 <= i < |ts| => LogName(ts[i]))
  }

  lemma LogNamesListed(ts: seq<nat>)
    requires Ascending(ts) && EqualWidth(ts)
    ensures Sorted(LogNames(ts)) && NoDuplicates(LogNames(ts))
    ensures forall x | x in LogNames(ts) :: IsLogName(x)
  {
    var names := LogNames(ts);
    forall i, j | 0 <= i < j < |ts| ensures Leq(names[i], names[j]) && names[i] != names[j] {
      LogNameOrder(ts[i], ts[j]);
      LogNameOrder(ts[j], ts[i]);
      LeqTotal(names[i], names[i]);
    }
  }

  /** Creating a log file and cleaning up, in any order. */
  datatype Event = Create(timestamp: nat) | Cleanup

  /** A creation is listed where its name belongs; a cleanup is RemoveLogFiles with nothing stuck. */
  function Listed(listing: seq<string>, event: Event): seq<string> {
    match event
    case Create(t) => Insert(LogName(t), listing)
    case Cleanup => AfterCleanup(listing, {})
  }

  /** The timestamps kept: a new one is the newest, and a cleanup keeps the newest seven. */
  function Kept(ts: seq<nat>, event: Event): seq<nat> {
    match event
    case Create(t) => ts + [t]
    case Cleanup => LastSeven(ts)
  }

  function ListingAfter(events: seq<Event>): seq<string> {
    if events == [] then [] else Listed(ListingAfter(events[..|events| - 1]), events[|events| - 1])
  }

  function KeptAfter(events: seq<Event>): seq<nat> {
    if events == [] then [] else Kept(KeptAfter(events[..|events| - 1]), events[|events| - 1])
  }

  /** Time moves on, and timestamps keep their width. */
  predicate ClockRuns(events: seq<Event>) {
    forall i, j | 0 <= i < j < |events| && events[i].Create? && events[j].Create? ::
      events[i].timestamp < events[j].timestamp && SameWidth(events[i].timestamp, events[j].timestamp)
  }

  ghost predicate CreatedIn(events: seq<Event>, t: nat) {
    exists i :: 0 <= i < |events| && events[i] == Create(t)
  }

  lemma CreatedEarlier(events: seq<Event>, t: nat)
    requires events != [] && CreatedIn(events[..|events| - 1], t) && ClockRuns(events)
    ensures CreatedIn(events, t)
    ensures var last := events[|events| - 1];
            last.Create? ==> t < last.timestamp && SameWidth(t, last.timestamp)
  {
    var i :| 0 <= i < |events| - 1 && events[..|events| - 1][i] == Create(t);
    assert events[i] == Create(t);
  }

  ghost predicate AllCreated(events: seq<Event>, ts: seq<nat>) {
    forall k | 0 <= k < |ts| :: CreatedIn(events, ts[k])
  }

  predicate KeptInOrder(ts: seq<nat>) {
    Ascending(ts) && EqualWidth(ts)
  }

  lemma CreatedLast(events: seq<Event>, before: seq<nat>)
    requires events != [] && events[|events| - 1].Create? && ClockRuns(events)
    requires KeptInOrder(before) && AllCreated(events[..|events| - 1], before)
    ensures var ts := before + [events[|events| - 1].timestamp];
            KeptInOrder(ts) && AllCreated(events, ts)
  {
    hide CreatedIn, SameWidth, ClockRuns;
    forall k | 0 <= k < |before|
      ensures CreatedIn(events, before[k])
      ensures before[k] < events[|events| - 1].timestamp && SameWidth(before[k], events[|events| - 1].timestamp)
    {
      CreatedEarlier(events, before[k]);
    }
    LastIsCreated(events);
  }

  lemma CleanedLast(events: seq<Event>, before: seq<nat>)
    requires events != [] && ClockRuns(events)
    requires KeptInOrder(before) && AllCreated(events[..|events| - 1], before)
    ensures KeptInOrder(LastSeven(before)) && AllCreated(events, LastSeven(before))
  {
    hide CreatedIn, SameWidth, ClockRuns;
    forall k | 0 <= k < |before| ensures CreatedIn(events, before[k]) {
      CreatedEarlier(events, before[k]);
    }
  }

  lemma {:induction false} KeptAreCreated(events: seq<Event>)
    requires ClockRuns(events)
    ensures KeptInOrder(KeptAfter(events)) && AllCreated(events, KeptAfter(events))
  {
    hide KeptInOrder, AllCreated, ClockRuns, LastSeven;
    if events == [] {
      NothingKept();
    } else {
      var n := |events| - 1;
      ClockRanBefore(events);
      KeptAreCreated(events[..n]);
      var before := KeptAfter(events[..n]);
      if events[n].Create? {
        CreatedLast(events, before);
      } else {
        CleanedLast(events, before);
      }
    }
  }

  lemma NothingKept()
    ensures KeptInOrder([]) && AllCreated([], [])
  {
  }

  lemma ClockRanBefore(events: seq<Event>)
    requires events != [] && ClockRuns(events)
    ensures ClockRuns(events[..|events| - 1])
  {
  }

  lemma LastIsCreated(events: seq<Event>)
    requires events != [] && events[|events| - 1].Create?
    ensures CreatedIn(events, events[|events| - 1].timestamp)
  {
    var last := events[|events| - 1];
    assert last == Create(last.timestamp);
  }

  lemma {:induction false} InsertLast(x: string, ss: seq<string>)
    requires forall i | 0 <= i < |ss| :: !Leq(x, ss[i])
    ensures Insert(x, ss) == ss + [x]
  {
    if ss != [] {
      InsertLast(x, ss[1..]);
    }
  }

  lemma NewestIsListedLast(ts: seq<nat>, t: nat)
    requires Ascending(ts + [t]) && EqualWidth(ts + [t])
    ensures Insert(LogName(t), LogNames(ts)) == LogNames(ts + [t])
  {
    var more := ts + [t];
    forall k | 0 <= k < |ts| ensures !Leq(LogName(t), LogNames(ts)[k]) {
      assert more[k] == ts[k] && more[|ts|] == t;
      LogNameOrder(t, ts[k]);
    }
    InsertLast(LogName(t), LogNames(ts));
  }

  lemma NewestAreKept(ts: seq<nat>)
    requires Ascending(ts) && EqualWidth(ts)
    ensures AfterCleanup(LogNames(ts), {}) == LogNames(LastSeven(ts))
  {
    hide AfterCleanup, LogName, SameWidth, NoDuplicates, Sorted, IsLogName;
    LogNamesListed(ts);
    LogsOnlyKeepsLastSeven(LogNames(ts));
  }

  /**
    Over every run of creations and cleanups, the directory holds exactly the log files with
    the kept timestamps; so right after a cleanup it holds the newest of them, at most seven.
   */
  lemma {:induction false} RetentionOverRuns(events: seq<Event>)
    requires ClockRuns(events)
    ensures ListingAfter(events) == LogNames(KeptAfter(events))
    ensures events != [] && events[|events| - 1].Cleanup? ==>
              && |ListingAfter(events)| <= NUMBER_OF_LOG_FILES
              && ListingAfter(events) == LogNames(LastSeven(KeptAfter(events[..|events| - 1])))
  {
    hide AllCreated, CreatedIn, SameWidth, AfterCleanup, Insert, LogName, ClockRuns, Ascending, EqualWidth;
    if events != [] {
      var n := |events| - 1;
      ClockRanBefore(events);
      RetentionOverRuns(events[..n]);
      KeptAreCreated(events[..n]);
      KeptAreCreated(events);
      var before := KeptAfter(events[..n]);
      if events[n].Create? {
        NewestIsListedLast(before, events[n].timestamp);
      } else {
        NewestAreKept(before);
      }
    }
  }

  // ---------- Whole runs in any directory ----------

  /** A file of any name appears, or a cleanup runs while some files cannot be removed. */
  datatype DirectoryEvent = Appear(name: string) | CleanupWith(stuck: set<string>)

  function ListedAfter(listing: seq<string>, event: DirectoryEvent): seq<string> {
    match event
    case Appear(name) => if name in listing then listing else Insert(name, listing)
    case CleanupWith(stuck) => AfterCleanup(listing, stuck)
  }

  function DirectoryAfter(start: seq<string>, events: seq<DirectoryEvent>): seq<string> {
    if events == [] then start
    else ListedAfter(DirectoryAfter(start, events[..|events| - 1]), events[|events| - 1])
  }

  /** A cleanup at which `x` is a log listed before the last seven entries, with no log up to it stuck. */
  predicate RemovedAt(listing: seq<string>, event: DirectoryEvent, x: string) {
    && event.CleanupWith?
    && exists i :: 0 <= i < |listing| && listing[i] == x && i + NUMBER_OF_LOG_FILES < |listing|
                   && IsLogName(x) && NoneStuckUpTo(listing, i, event.stuck)
  }

  lemma InsertMembers(x: string, names: seq<string>)
    requires NoDuplicates(names) && x !in names
    ensures NoDuplicates(Insert(x, names)) && forall y :: y in Insert(x, names) <==> y == x || y in names
  {
    var more := Insert(x, names);
    InsertElements(x, names);
    forall y ensures y in more <==> y == x || y in names {
      assert y in more <==> y in multiset(more);
    }
    forall i, j | 0 <= i < j < |more| ensures more[i] != more[j] {
      if more[i] == more[j] {
        DuplicateFreeCounts(names, more[i]);
        OccursTwice(more, i, j);
      }
    }
  }

  lemma {:induction false} WithoutKeepsDistinct(names: seq<string>, removed: seq<string>)
    requires NoDuplicates(names)
    ensures NoDuplicates(Without(names, removed))
  {
    if names != [] {
      var n := |names| - 1;
      WithoutKeepsDistinct(names[..n], removed);
      WithoutMembers(names[..n], removed);
    }
  }

  lemma EventKeepsDistinct(listing: seq<string>, event: DirectoryEvent)
    requires NoDuplicates(listing)
    ensures NoDuplicates(ListedAfter(listing, event))
  {
    hide Without, Insert, NoDuplicates;
    match event
    case Appear(name) =>
      if name !in listing {
        InsertMembers(name, listing);
      }
    case CleanupWith(stuck) =>
      WithoutKeepsDistinct(listing, RemovedOf(Filtered(Excess(listing)), stuck));
  }

  /** One event: what is listed stays, unless it is removed at it. */
  lemma StaysUnlessRemoved(listing: seq<string>, event: DirectoryEvent, x: string)
    requires NoDuplicates(listing) && x in listing
    ensures x in ListedAfter(listing, event) <==> !RemovedAt(listing, event, x)
  {
    hide AfterCleanup, Insert, IsLogName, NoneStuckUpTo;
    match event
    case Appear(name) =>
      if name !in listing {
        InsertMembers(name, listing);
      }
    case CleanupWith(stuck) =>
      var i :| 0 <= i < |listing| && listing[i] == x;
      RemovedIff(listing, stuck, i);
  }

  lemma {:induction false} DirectoryStaysDistinct(start: seq<string>, events: seq<DirectoryEvent>)
    requires NoDuplicates(start)
    ensures NoDuplicates(DirectoryAfter(start, events))
  {
    hide NoDuplicates, ListedAfter;
    if events != [] {
      DirectoryStaysDistinct(start, events[..|events| - 1]);
      EventKeepsDistinct(DirectoryAfter(start, events[..|events| - 1]), events[|events| - 1]);
    }
  }

  /**
    Over every run, in any directory, with any files stuck: an entry is still there exactly when
    it has not been removed since it last appeared. So other files stay for ever, and so does
    every log as long as fewer than seven entries are listed after it.
   */
  lemma {:induction false} PresentIff(start: seq<string>, events: seq<DirectoryEvent>, x: string)
    requires NoDuplicates(start)
    ensures x in DirectoryAfter(start, events) <==> PresentSince(start, events, x)
  {
    hide NoDuplicates, ListedAfter, RemovedAt, PresentSince;
    if events == [] {
      PresentAtStart(start, x);
    } else {
      var n := |events| - 1;
      var before := DirectoryAfter(start, events[..n]);
      PresentIff(start, events[..n], x);
      PresentSinceStep(start, events, x);
      DirectoryStaysDistinct(start, events[..n]);
      if x in before {
        StaysUnlessRemoved(before, events[n], x);
        NotRemovedByAppearing(before, events[n], x);
      } else {
        AppearsOnlyItself(before, events[n], x);
      }
    }
  }

  /** There from the start or from an appearance on, and not removed at any event after it. */
  predicate PresentSince(start: seq<string>, events: seq<DirectoryEvent>, x: string) {
    exists k :: 0 <= k <= |events| && ArrivesAt(start, events, k, x) && UntouchedFrom(start, events, k, x)
  }

  /** Event `k - 1` is the appearance; `k` is 0 for the start. */
  predicate ArrivesAt(start: seq<string>, events: seq<DirectoryEvent>, k: nat, x: string)
    requires k <= |events|
  {
    if k == 0 then x in start else events[k - 1] == Appear(x)
  }

  predicate UntouchedFrom(start: seq<string>, events: seq<DirectoryEvent>, k: nat, x: string)
    requires k <= |events|
  {
    forall e | k <= e < |events| :: !RemovedAt(DirectoryAfter(start, events[..e]), events[e], x)
  }

  lemma PresentAtStart(start: seq<string>, x: string)
    ensures PresentSince(start, [], x) <==> x in start
  {
    if x in start {
      assert ArrivesAt(start, [], 0, x) && UntouchedFrom(start, [], 0, x);
    }
  }

  lemma PresentSinceStep(start: seq<string>, events: seq<DirectoryEvent>, x: string)
    requires events != []
    ensures var n := |events| - 1;
            PresentSince(start, events, x) <==>
              || (PresentSince(start, events[..n], x) && !RemovedAt(DirectoryAfter(start, events[..n]), events[n], x))
              || events[n] == Appear(x)
  {
    hide RemovedAt, DirectoryAfter;
    var n := |events| - 1;
    var init := events[..n];
    forall k | 0 <= k <= n
      ensures ArrivesAt(start, init, k, x) <==> ArrivesAt(start, events, k, x)
      ensures UntouchedFrom(start, events, k, x) <==>
              UntouchedFrom(start, init, k, x) && !RemovedAt(DirectoryAfter(start, events[..n]), events[n], x)
    {
      assert forall e | 0 <= e < n :: init[..e] == events[..e] && init[e] == events[e];
    }
    if events[n] == Appear(x) {
      assert ArrivesAt(start, events, n + 1, x) && UntouchedFrom(start, events, n + 1, x);
    }
    if PresentSince(start, events, x) && events[n] != Appear(x) {
      var k :| 0 <= k <= |events| && ArrivesAt(start, events, k, x) && UntouchedFrom(start, events, k, x);
      assert k <= n && ArrivesAt(start, init, k, x);
    }
    if PresentSince(start, init, x) && !RemovedAt(DirectoryAfter(start, events[..n]), events[n], x) {
      var k :| 0 <= k <= n && ArrivesAt(start, init, k, x) && UntouchedFrom(start, init, k, x);
      assert ArrivesAt(start, events, k, x) && UntouchedFrom(start, events, k, x);
    }
  }

  lemma NotRemovedByAppearing(listing: seq<string>, event: DirectoryEvent, x: string)
    ensures event == Appear(x) ==> !RemovedAt(listing, event, x)
  {
  }

  lemma AppearsOnlyItself(listing: seq<string>, event: DirectoryEvent, x: string)
    requires NoDuplicates(listing) && x !in listing
    ensures x in ListedAfter(listing, event) <==> event == Appear(x)
    ensures !RemovedAt(listing, event, x)
  {
    match event
    case Appear(name) =>
      if name !in listing {
        InsertMembers(name, listing);
      }
    case CleanupWith(stuck) =>
      WithoutMembers(listing, RemovedOf(Filtered(Excess(listing)), stuck));
  }
}
