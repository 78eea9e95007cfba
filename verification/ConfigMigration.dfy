/**
  Migration of the CLI configuration from the version on disk to the latest one. The YAML
  decoding is a parameter, and so are the per-version deserializers and migrators.
 */
module ConfigMigration {
  import opened Common

  datatype MigrationError =
    | VersionUnreadable
    | TooNew(onDisk: nat, latest: nat)
    | NoDeserializer(version: nat)
    | DeserializeFailed(version: nat)
    | NoMigrator(version: nat)
    | MigratorFailed(version: nat)

  type Migrators<!C> = map<nat, C -> Option<C>>

  type Deserializers<!B, +C> = map<nat, B -> Option<C>>

  /** The largest of the values, starting from version 0. */
  function Latest(values: seq<nat>): (m: nat)
    ensures forall v | v in values :: v <= m
    ensures m == 0 || m in values
  {
    if values == [] then 0
    else
      var init := Latest(values[..|values| - 1]);
      var last := values[|values| - 1];
      assert values == values[..|values| - 1] + [last];
      if last > init then last else init
  }

  /** The migrators from `from` up to, but without, `target`, one after the other. */
  function MigrateRange<C>(migrators: Migrators<C>, from: nat, target: nat, c: C): Result<C, MigrationError>
    decreases target - from
  {
    if from >= target then Ok(c)
    else if from !in migrators then Err(NoMigrator(from))
    else match migrators[from](c)
         case None => Err(MigratorFailed(from))
         case Some(next) => MigrateRange(migrators, from + 1, target, next)
  }

  /** The migrators called in that run, each with what it was given. */
  function Calls<C>(migrators: Migrators<C>, from: nat, target: nat, c: C): seq<(nat, C)>
    decreases target - from
  {
    if from >= target || from !in migrators then []
    else
      [(from, c)] +
      match migrators[from](c)
      case None => []
      case Some(next) => Calls(migrators, from + 1, target, next)
  }

  /** Newer than every version there is. */
  predicate BeyondAll(values: seq<nat>, version: nat) {
    version > 0 && forall v | v in values :: v < version
  }

  method LatestConfigVersion(values: seq<nat>) returns (latestConfigVersion: nat)
    ensures latestConfigVersion == Latest(values)
  {
    latestConfigVersion := 0;
    for i := 0 to |values|
      invariant latestConfigVersion == Latest(values[..i])
    {
      assert values[..i + 1][..i] == values[..i];
      if values[i] > latestConfigVersion {
        latestConfigVersion := values[i];
      }
    }
    assert values[..|values|] == values;
  }

  lemma OneMigration<C>(migrators: Migrators<C>, from: nat, target: nat, c: C, before: seq<(nat, C)>)
    requires from < target
    ensures from !in migrators ==>
              && MigrateRange(migrators, from, target, c) == Err(NoMigrator(from))
              && Calls(migrators, from, target, c) == []
    ensures from in migrators && migrators[from](c).None? ==>
              && MigrateRange(migrators, from, target, c) == Err(MigratorFailed(from))
              && Calls(migrators, from, target, c) == [(from, c)]
    ensures from in migrators && migrators[from](c).Some? ==>
              var next := migrators[from](c).value;
              && MigrateRange(migrators, from, target, c) == MigrateRange(migrators, from + 1, target, next)
              && before + Calls(migrators, from, target, c)
                 == before + [(from, c)] + Calls(migrators, from + 1, target, next)
  {
  }

  lemma NoMigration<C>(migrators: Migrators<C>, from: nat, target: nat, c: C)
    requires from >= target
    ensures MigrateRange(migrators, from, target, c) == Ok(c) && Calls(migrators, from, target, c) == []
  {
  }

  method RunMigrators<C>(migrators: Migrators<C>, configVersionOnDisk: nat, latestConfigVersion: nat, deserialized: C)
    returns (r: Result<C, MigrationError>, calls: seq<(nat, C)>)
    requires configVersionOnDisk <= latestConfigVersion
    ensures r == MigrateRange(migrators, configVersionOnDisk, latestConfigVersion, deserialized)
    ensures calls == Calls(migrators, configVersionOnDisk, latestConfigVersion, deserialized)
  {
    hide MigrateRange, Calls;
    var uncastedConfig := deserialized;
    calls := [];
    for versionToUpgradeFrom := configVersionOnDisk to latestConfigVersion
      invariant MigrateRange(migrators, configVersionOnDisk, latestConfigVersion, deserialized)
             == MigrateRange(migrators, versionToUpgradeFrom, latestConfigVersion, uncastedConfig)
      invariant Calls(migrators, configVersionOnDisk, latestConfigVersion, deserialized)
             == calls + Calls(migrators, versionToUpgradeFrom, latestConfigVersion, uncastedConfig)
    {
      OneMigration(migrators, versionToUpgradeFrom, latestConfigVersion, uncastedConfig, calls);
      if versionToUpgradeFrom !in migrators {
        return Err(NoMigrator(versionToUpgradeFrom)), calls;
      }
      var candidate := migrators[versionToUpgradeFrom](uncastedConfig);
      calls := calls + [(versionToUpgradeFrom, uncastedConfig)];
      if candidate.None? {
        return Err(MigratorFailed(versionToUpgradeFrom)), calls;
      }
      uncastedConfig := candidate.value;
    }
    NoMigration(migrators, latestConfigVersion, latestConfigVersion, uncastedConfig);
    r := Ok(uncastedConfig);
  }

  /** `calls` lists the migrators called, each with the value it was given. */
  method MigrateConfigOverridesToLatest<B, C>(
    detect: B -> Option<nat>, values: seq<nat>, deserializers: Deserializers<B, C>,
    migrators: Migrators<C>, configFileBytes: B)
    returns (r: Result<C, MigrationError>, calls: seq<(nat, C)>)
    ensures detect(configFileBytes).None? ==> r == Err(VersionUnreadable) && calls == []
    ensures detect(configFileBytes).Some? ==>
              var onDisk := detect(configFileBytes).value;
              if BeyondAll(values, onDisk) then r == Err(TooNew(onDisk, Latest(values))) && calls == []
              else if onDisk !in deserializers then r == Err(NoDeserializer(onDisk)) && calls == []
              else
                var overrides := deserializers[onDisk](configFileBytes);
                && (overrides.None? ==> r == Err(DeserializeFailed(onDisk)) && calls == [])
                && (overrides.Some? ==>
                      && r == MigrateRange(migrators, onDisk, Latest(values), overrides.value)
                      && calls == Calls(migrators, onDisk, Latest(values), overrides.value)
                      && (onDisk == Latest(values) ==> r == Ok(overrides.value) && calls == []))
  {
    hide Latest, MigrateRange, Calls;
    var detected := detect(configFileBytes);
    if detected.None? {
      return Err(VersionUnreadable), [];
    }
    var configVersionOnDisk := detected.value;
    var latestConfigVersion := LatestConfigVersion(values);
    if configVersionOnDisk > latestConfigVersion {
      return Err(TooNew(configVersionOnDisk, latestConfigVersion)), [];
    }
    if configVersionOnDisk !in deserializers {
      return Err(NoDeserializer(configVersionOnDisk)), [];
    }
    var deserialized := deserializers[configVersionOnDisk](configFileBytes);
    if deserialized.None? {
      return Err(DeserializeFailed(configVersionOnDisk)), [];
    }
    r, calls := RunMigrators(migrators, configVersionOnDisk, latestConfigVersion, deserialized.value);
    if configVersionOnDisk == latestConfigVersion {
      NoMigration(migrators, configVersionOnDisk, latestConfigVersion, deserialized.value);
    }
  }

  // ---------- Composition ----------

  /** Stopping at any version in between and going on from there makes no difference. */
  lemma {:induction false} SplitAnywhere<C>(migrators: Migrators<C>, from: nat, mid: nat, target: nat, c: C)
    requires from <= mid <= target
    ensures MigrateRange(migrators, from, target, c) ==
            match MigrateRange(migrators, from, mid, c)
            case Err(e) => Err(e)
            case Ok(d) => MigrateRange(migrators, mid, target, d)
    decreases mid - from
  {
    if from < mid && from in migrators && migrators[from](c).Some? {
      SplitAnywhere(migrators, from + 1, mid, target, migrators[from](c).value);
    }
  }

  /** Every version before `latest` has a migrator. */
  ghost predicate Complete<C>(migrators: Migrators<C>, latest: nat) {
    forall v: nat | v < latest :: v in migrators
  }

  /** Migrators turn a value of their own version into one of the next. */
  ghost predicate Typed<C(!new)>(migrators: Migrators<C>, versionOf: C -> nat) {
    forall v, c | v in migrators && versionOf(c) == v && migrators[v](c).Some? ::
      versionOf(migrators[v](c).value) == v + 1
  }

  /** They accept every value of their own version. */
  ghost predicate Total<C(!new)>(migrators: Migrators<C>, versionOf: C -> nat) {
    forall v, c | v in migrators && versionOf(c) == v :: migrators[v](c).Some?
  }

  /** The k-th call is to the migrator of version from + k, with the result of those before it. */
  lemma {:induction false} CallsCompose<C(!new)>(migrators: Migrators<C>, versionOf: C -> nat,
                                                 from: nat, target: nat, c: C, k: nat)
    requires Typed(migrators, versionOf) && versionOf(c) == from
    requires k < |Calls(migrators, from, target, c)|
    ensures var (version, given) := Calls(migrators, from, target, c)[k];
            && version == from + k && versionOf(given) == version
            && MigrateRange(migrators, from, from + k, c) == Ok(given)
    decreases k
  {
    if k > 0 {
      var next := migrators[from](c).value;
      CallsCompose(migrators, versionOf, from + 1, target, next, k - 1);
    }
  }

  /**
    With complete, typed and total migrators a migration always succeeds, in exactly as many
    calls as there are versions to go, and ends with a value of the latest version.
   */
  lemma {:induction false} MigrationReachesLatest<C(!new)>(migrators: Migrators<C>, versionOf: C -> nat,
                                                           from: nat, target: nat, c: C)
    requires Complete(migrators, target) && Typed(migrators, versionOf) && Total(migrators, versionOf)
    requires from <= target && versionOf(c) == from
    ensures MigrateRange(migrators, from, target, c).Ok?
    ensures versionOf(MigrateRange(migrators, from, target, c).value) == target
    ensures from + |Calls(migrators, from, target, c)| == target
    decreases target - from
  {
    if from < target {
      MigrationReachesLatest(migrators, versionOf, from + 1, target, migrators[from](c).value);
    }
  }

  /** `e` names a version whose migrator is missing or fails, with all before it having run. */
  predicate Obstacle<C>(migrators: Migrators<C>, from: nat, target: nat, c: C, e: MigrationError) {
    match e
    case NoMigrator(v) =>
      from <= v < target && v !in migrators && MigrateRange(migrators, from, v, c).Ok?
    case MigratorFailed(v) =>
      && from <= v < target && v in migrators && MigrateRange(migrators, from, v, c).Ok?
      && migrators[v](MigrateRange(migrators, from, v, c).value).None?
    case _ => false
  }

  /**
    Without them it still goes as far as it can: a failed migration names the first version,
    from the start on, whose migrator is missing or fails, and all before it did run.
   */
  lemma {:induction false} FailureNamesFirstObstacle<C>(migrators: Migrators<C>, from: nat, target: nat, c: C)
    requires from <= target && MigrateRange(migrators, from, target, c).Err?
    ensures Obstacle(migrators, from, target, c, MigrateRange(migrators, from, target, c).error)
    decreases target - from
  {
    if from in migrators && migrators[from](c).Some? {
      FailureNamesFirstObstacle(migrators, from + 1, target, migrators[from](c).value);
    }
  }

  /** A migrator that fails has been called, and one that is missing has not; none after it is. */
  lemma {:induction false} CallsUntilObstacle<C>(migrators: Migrators<C>, from: nat, target: nat, c: C)
    requires from <= target
    ensures match MigrateRange(migrators, from, target, c)
            case Ok(_) => from + |Calls(migrators, from, target, c)| == target
            case Err(NoMigrator(v)) => from + |Calls(migrators, from, target, c)| == v
            case Err(MigratorFailed(v)) => from + |Calls(migrators, from, target, c)| == v + 1
            case _ => false
    decreases target - from
  {
    if from < target && from in migrators && migrators[from](c).Some? {
      CallsUntilObstacle(migrators, from + 1, target, migrators[from](c).value);
    }
  }
}
