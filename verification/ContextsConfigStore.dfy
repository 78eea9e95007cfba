/**
  The store over its file-backed persistence, as the classes the source has. Locks are not
  taken here: StoreSerialisability and FirstUse have the interleavings.
 */
module ContextsConfigStore {
  import opened Common
  import opened ContextsConfig

  /** A stored file. Decoding undoes encoding; anything else in a file does not decode. */
  datatype FileContent = Encoded(config: Config) | Garbage

  /**
    What the process sees around it: where the configuration file belongs (if that can be
    told), whether looking for it fails with anything but its absence, the random UUID to be
    drawn (if that works), and whether files can be written.
   */
  datatype Env = Env(configPath: Option<string>, lookFails: bool, randomUuid: Option<string>, writable: bool)

  /** The lazily set path and the files. */
  datatype Storage = Storage(path: string, files: map<string, FileContent>)

  function Write(env: Env, s: Storage, c: Config): (Storage, bool) {
    if env.writable then (s.(files := s.files[s.path := Encoded(c)]), true) else (s, false)
  }

  function Init(env: Env, s: Storage): (Storage, bool) {
    if s.path != "" then (s, true)
    else if env.configPath.None? || env.lookFails then (s, false)
    else
      var located := s.(path := env.configPath.value);
      if located.path in located.files then (located, true)
      else if env.randomUuid.None? then (located, false)
      else Write(env, located, DefaultConfig(env.randomUuid.value))
  }

  function Load(env: Env, s: Storage): (Storage, Option<Config>) {
    var (s', ok) := Init(env, s);
    (s', if ok && s'.path in s'.files && s'.files[s'.path].Encoded? then Some(s'.files[s'.path].config) else None)
  }

  function Persist(env: Env, s: Storage, c: Config): (Storage, bool) {
    var (s', ok) := Init(env, s);
    if ok then Write(env, s', c) else (s', false)
  }

  /** One store operation; no answer means a storage error. */
  function Operate(env: Env, s: Storage, op: Op): (Storage, Option<Answer>) {
    if op.Add? && op.context.name == DEFAULT_CONTEXT_NAME then (s, Some(Refused(ReservedName)))
    else
      var (s', loaded) := Load(env, s);
      if loaded.None? then (s', None)
      else
        var (c, answer) := Perform(op, loaded.value);
        if !Writes(op, loaded.value) then (s', Some(answer))
        else
          var (s'', ok) := Persist(env, s', c);
          (s'', if ok then Some(answer) else None)
  }

  // ---------- The classes ----------

  class FileBackedConfigPersistence {
    const env: Env
    var backingFilePath: string
    var files: map<string, FileContent>

    constructor (env: Env, customFilePath: string, files: map<string, FileContent>)
      ensures this.env == env && State() == Storage(customFilePath, files)
    {
      this.env, backingFilePath, this.files := env, customFilePath, files;
    }

    function State(): Storage
      reads this
    {
      Storage(backingFilePath, files)
    }

    method PersistContextsConfigInternal(newContextsConfig: Config) returns (ok: bool)
      modifies this
      ensures (State(), ok) == Write(env, old(State()), newContextsConfig)
    {
      if !env.writable {
        return false;
      }
      files := files[backingFilePath := Encoded(newContextsConfig)];
      ok := true;
    }

    method Initialize() returns (ok: bool)
      modifies this
      ensures (State(), ok) == Init(env, old(State()))
    {
      if backingFilePath != "" {
        return true;
      }
      var contextsConfigFilePath := env.configPath;
      if contextsConfigFilePath.None? {
        return false;
      }
      if env.lookFails {
        return false;
      }
      if contextsConfigFilePath.value in files {
        backingFilePath := contextsConfigFilePath.value;
        return true;
      }
      backingFilePath := contextsConfigFilePath.value;
      if env.randomUuid.None? {
        return false;
      }
      ok := PersistContextsConfigInternal(DefaultConfig(env.randomUuid.value));
    }

    method LoadContextsConfig() returns (r: Option<Config>)
      modifies this
      ensures (State(), r) == Load(env, old(State()))
    {
      var ok := Initialize();
      if !ok || backingFilePath !in files {
        return None;
      }
      match files[backingFilePath]
      case Encoded(config) => r := Some(config);
      case Garbage => r := None;
    }

    method PersistContextsConfig(newContextsConfig: Config) returns (ok: bool)
      modifies this
      ensures (State(), ok) == Persist(env, old(State()), newContextsConfig)
    {
      ok := Initialize();
      if ok {
        ok := PersistContextsConfigInternal(newContextsConfig);
      }
    }
  }

  class ContextConfigStoreImpl {
    const storage: FileBackedConfigPersistence

    constructor (storage: FileBackedConfigPersistence)
      ensures this.storage == storage
    {
      this.storage := storage;
    }

    method GetKurtosisContextsConfig() returns (r: Option<Answer>)
      modifies storage
      ensures (storage.State(), r) == Operate(storage.env, old(storage.State()), GetConfig)
    {
      var contextsConfig := storage.LoadContextsConfig();
      r := if contextsConfig.Some? then Some(GotConfig(contextsConfig.value)) else None;
    }

    method GetCurrentContext() returns (r: Option<Answer>)
      modifies storage
      ensures (storage.State(), r) == Operate(storage.env, old(storage.State()), GetCurrent)
    {
      var contextsConfig := storage.LoadContextsConfig();
      if contextsConfig.None? {
        return None;
      }
      var contexts, current := contextsConfig.value.contexts, contextsConfig.value.current;
      for i := 0 to |contexts|
        invariant FindUuid(contexts, current) == FindUuid(contexts[i..], current)
      {
        if contexts[i].uuid == current {
          return Some(GotContext(contexts[i]));
        }
        assert contexts[i..][1..] == contexts[i + 1..];
      }
      r := Some(Refused(NoCurrentContext));
    }

    method SetContext(contextUuid: string) returns (r: Option<Answer>)
      modifies storage
      ensures (storage.State(), r) == Operate(storage.env, old(storage.State()), SetCurrent(contextUuid))
    {
      var contextsConfig := storage.LoadContextsConfig();
      if contextsConfig.None? {
        return None;
      }
      var contexts := contextsConfig.value.contexts;
      var requestedContextDoesExist := false;
      for i := 0 to |contexts|
        invariant requestedContextDoesExist <==> exists j :: 0 <= j < i && contexts[j].uuid == contextUuid
      {
        if contexts[i].uuid == contextUuid {
          requestedContextDoesExist := true;
        }
      }
      if !requestedContextDoesExist {
        return Some(Refused(UnknownContext));
      }
      var ok := storage.PersistContextsConfig(Config(contextUuid, contexts));
      r := if ok then Some(Done) else None;
    }

    method AddNewContext(newContext: Context) returns (r: Option<Answer>)
      modifies storage
      ensures (storage.State(), r) == Operate(storage.env, old(storage.State()), Add(newContext))
    {
      if newContext.name == DEFAULT_CONTEXT_NAME {
        return Some(Refused(ReservedName));
      }
      var contextsConfig := storage.LoadContextsConfig();
      if contextsConfig.None? {
        return None;
      }
      var contexts := contextsConfig.value.contexts;
      for i := 0 to |contexts|
        invariant forall j | 0 <= j < i :: contexts[j].uuid != newContext.uuid
      {
        if contexts[i].uuid == newContext.uuid {
          return Some(Refused(DuplicateUuid));
        }
      }
      var ok := storage.PersistContextsConfig(Config(contextsConfig.value.current, contexts + [newContext]));
      r := if ok then Some(Done) else None;
    }

    method RemoveContext(contextUuid: string) returns (r: Option<Answer>)
      modifies storage
      ensures (storage.State(), r) == Operate(storage.env, old(storage.State()), Remove(contextUuid))
    {
      hide Without, FindUuid;
      var contextsConfig := storage.LoadContextsConfig();
      if contextsConfig.None? {
        return None;
      }
      var contexts := contextsConfig.value.contexts;
      if contextUuid == contextsConfig.value.current {
        return Some(Refused(IsCurrent));
      }
      var foundContextToRemove := false;
      var newContexts: seq<Context> := [];
      WithoutSteps(contexts, 0, contextUuid);
      for i := 0 to |contexts|
        invariant foundContextToRemove <==> exists j :: 0 <= j < i && contexts[j].uuid == contextUuid
        invariant forall j | 0 <= j < i && contexts[j].uuid == contextUuid :: contexts[j].name != DEFAULT_CONTEXT_NAME
        invariant newContexts == Without(contexts[..i], contextUuid)
        invariant Load(storage.env, old(storage.State())) == (storage.State(), contextsConfig)
      {
        WithoutSteps(contexts, i, contextUuid);
        if contexts[i].uuid == contextUuid {
          if contexts[i].name == DEFAULT_CONTEXT_NAME {
            return Some(Refused(ReservedContext));
          }
          foundContextToRemove := true;
        } else {
          newContexts := newContexts + [contexts[i]];
        }
      }
      assert contexts[..|contexts|] == contexts;
      assert foundContextToRemove == HasUuid(contexts, contextUuid) && !HasReserved(contexts, contextUuid);
      if !foundContextToRemove {
        return Some(Done);
      }
      var ok := storage.PersistContextsConfig(Config(contextsConfig.value.current, newContexts));
      r := if ok then Some(Done) else None;
    }
  }

  // ---------- What the storage adds to the configuration ----------

  predicate Holds(s: Storage, c: Config) {
    s.path != "" && s.path in s.files && s.files[s.path] == Encoded(c)
  }

  /**
    Once a configuration is stored, every operation refines the one on values: the answer is
    that one's, the file holds its result, and no other file is touched. If the file cannot be
    written, operations that would write fail and leave everything as it was.
   */
  lemma StoreRefinesConfig(env: Env, s: Storage, c: Config, op: Op)
    requires Holds(s, c)
    ensures var (s', answer) := Operate(env, s, op);
            var fails := Writes(op, c) && !env.writable;
            && Holds(s', if fails then c else Perform(op, c).0)
            && answer == (if fails then None else Some(Perform(op, c).1))
            && s'.path == s.path && s'.files - {s.path} == s.files - {s.path}
  {
    if !Writes(op, c) {
      UnwrittenMeansUnchanged(op, c);
    }
  }

  function OperateAll(env: Env, s: Storage, ops: seq<Op>): Storage {
    if ops == [] then s else Operate(env, OperateAll(env, s, ops[..|ops| - 1]), ops[|ops| - 1]).0
  }

  /** Whole runs: on a working disk the file always holds what the operations come to. */
  lemma {:induction false} StoreRunRefinesReplay(env: Env, s: Storage, c: Config, ops: seq<Op>)
    requires Holds(s, c) && env.writable
    ensures Holds(OperateAll(env, s, ops), Replay(c, ops))
  {
    if ops != [] {
      var n := |ops| - 1;
      StoreRunRefinesReplay(env, s, c, ops[..n]);
      StoreRefinesConfig(env, OperateAll(env, s, ops[..n]), Replay(c, ops[..n]), ops[n]);
    }
  }

  /**
    First use where nothing is stored yet: whatever the operation (but an addition under the
    reserved name, which touches nothing), one default configuration is created and the
    operation applies to it.
   */
  lemma FirstUseCreatesDefault(env: Env, files: map<string, FileContent>, root: string, op: Op)
    requires env.configPath.Some? && env.configPath.value != "" && env.configPath.value !in files
    requires !env.lookFails && env.randomUuid == Some(root) && env.writable
    requires NeedsStorage(op)
    ensures var (s', answer) := Operate(env, Storage("", files), op);
            && Holds(s', Perform(op, DefaultConfig(root)).0)
            && answer == Some(Perform(op, DefaultConfig(root)).1)
  {
    var created := Init(env, Storage("", files)).0;
    assert Holds(created, DefaultConfig(root));
    StoreRefinesConfig(env, created, DefaultConfig(root), op);
    assert Operate(env, Storage("", files), op) == Operate(env, created, op);
  }

  predicate NeedsStorage(op: Op) {
    op.Add? ==> op.context.name != DEFAULT_CONTEXT_NAME
  }

  lemma {:induction false} MissingFileSticks(env: Env, s: Storage, ops: seq<Op>)
    requires s.path != "" && s.path !in s.files
    ensures OperateAll(env, s, ops) == s
  {
    if ops != [] {
      MissingFileSticks(env, s, ops[..|ops| - 1]);
    }
  }

  /**
    The path is remembered before the default configuration is made and written. So when no
    UUID can be drawn or the write fails, every later operation that loads fails too, after any
    run of others and however the environment has recovered, until something else creates the
    file.
   */
  lemma FailedFirstWriteSticks(env: Env, later: Env, files: map<string, FileContent>, op: Op, ops: seq<Op>, next: Op)
    requires env.configPath.Some? && env.configPath.value != "" && env.configPath.value !in files
    requires !env.lookFails && (env.randomUuid.None? || !env.writable)
    requires NeedsStorage(op) && NeedsStorage(next)
    ensures var (s', answer) := Operate(env, Storage("", files), op);
            && answer == None && s' == Storage(env.configPath.value, files)
            && Operate(later, OperateAll(later, s', ops), next) == (s', None)
  {
    MissingFileSticks(later, Storage(env.configPath.value, files), ops);
  }

  /** Everything that initialising and writing need works, and nothing is stored at the path yet. */
  predicate ReadyForFirstUse(env: Env, files: map<string, FileContent>) {
    && env.configPath.Some? && env.configPath.value != "" && env.configPath.value !in files
    && !env.lookFails && env.randomUuid.Some? && env.writable
  }

  /** Either first use is still to come, or a configuration is stored. */
  predicate Usable(env: Env, s: Storage) {
    if s.path == "" then ReadyForFirstUse(env, s.files)
    else env.writable && s.path in s.files && s.files[s.path].Encoded?
  }

  lemma UsableStaysUsable(env: Env, s: Storage, op: Op)
    requires Usable(env, s)
    ensures Usable(env, Operate(env, s, op).0)
    ensures NeedsStorage(op) ==> Operate(env, s, op).1.Some?
  {
  }

  lemma {:induction false} RunStaysUsable(env: Env, s: Storage, ops: seq<Op>)
    requires Usable(env, s)
    ensures Usable(env, OperateAll(env, s, ops))
  {
    if ops != [] {
      RunStaysUsable(env, s, ops[..|ops| - 1]);
      UsableStaysUsable(env, OperateAll(env, s, ops[..|ops| - 1]), ops[|ops| - 1]);
    }
  }

  /**
    Exactly when a store recovers. The first operation ran with nothing stored, in any
    environment; afterwards everything works. Then operations succeed, after any run of others,
    if the first could not even tell the path or look for the file, or could draw a UUID and write; and otherwise
    none ever does.
   */
  lemma {:induction false} StoreRecoversIff(env: Env, later: Env, files: map<string, FileContent>,
                                            op: Op, ops: seq<Op>, next: Op)
    requires env.configPath.None? || (env.configPath.value != "" && env.configPath.value !in files)
    requires ReadyForFirstUse(later, files) && NeedsStorage(op) && NeedsStorage(next)
    ensures var s' := Operate(env, Storage("", files), op).0;
            Operate(later, OperateAll(later, s', ops), next).1.Some? <==>
              env.configPath.None? || env.lookFails || (env.randomUuid.Some? && env.writable)
  {
    hide Perform, Writes;
    var s' := Operate(env, Storage("", files), op).0;
    if env.configPath.Some? && !env.lookFails && (env.randomUuid.None? || !env.writable) {
      FailedFirstWriteSticks(env, later, files, op, ops, next);
    } else {
      assert Usable(later, s');
      RunStaysUsable(later, s', ops);
      UsableStaysUsable(later, OperateAll(later, s', ops), next);
    }
  }

  // ---------- The other ways in ----------

  /** The reserved name is refused before anything is touched, even with no storage to be had. */
  lemma ReservedNameNeedsNoStorage(env: Env, s: Storage, context: Context)
    requires context.name == "default"
    ensures Operate(env, s, Add(context)) == (s, Some(Refused(ReservedName)))
  {
  }

  /** First use where a configuration is stored already: it is used, and no other is made. */
  lemma FirstUseOfStored(env: Env, files: map<string, FileContent>, c: Config, op: Op)
    requires env.configPath.Some? && env.configPath.value != "" && !env.lookFails
    requires env.configPath.value in files && files[env.configPath.value] == Encoded(c)
    requires NeedsStorage(op)
    ensures var path := env.configPath.value;
            && Operate(env, Storage("", files), op) == Operate(env, Storage(path, files), op)
            && Holds(Storage(path, files), c)
  {
  }

  /** A file that does not decode, or none at a path already set, fails every operation that loads. */
  lemma UnreadableFails(env: Env, s: Storage, op: Op)
    requires s.path != "" && (s.path !in s.files || s.files[s.path].Garbage?)
    requires NeedsStorage(op)
    ensures Operate(env, s, op) == (s, None)
  {
  }

  /** Nor is there an answer, or a change, when the path cannot be told or the look for the file fails. */
  lemma UnlocatedFails(env: Env, files: map<string, FileContent>, op: Op)
    requires (env.configPath.None? || env.lookFails) && NeedsStorage(op)
    ensures Operate(env, Storage("", files), op) == (Storage("", files), None)
  {
  }

  /** Initialising: what it needs, where the path is afterwards, and when a default configuration is written. */
  lemma InitialisedIff(env: Env, s: Storage)
    ensures var (s', ok) := Init(env, s);
            var located := env.configPath.Some? && !env.lookFails;
            var missing := located && env.configPath.value !in s.files;
            && (ok <==> s.path != "" || (located && (missing ==> env.randomUuid.Some? && env.writable)))
            && s'.path == (if s.path == "" && located then env.configPath.value else s.path)
            && (s.path == "" && missing && env.randomUuid.Some? && env.writable ==>
                  s'.files == s.files[s'.path := Encoded(DefaultConfig(env.randomUuid.value))])
            && (!(s.path == "" && missing && env.randomUuid.Some? && env.writable) ==> s'.files == s.files)
  {
  }

  /** What has been stored is what is loaded, in any environment, and no other file has changed. */
  lemma LoadAfterPersist(env: Env, later: Env, s: Storage, c: Config)
    requires env.configPath != Some("")
    ensures var (s', ok) := Persist(env, s, c);
            && (ok ==> Load(later, s') == (s', Some(c)) && s'.files - {s'.path} == s.files - {s'.path})
            && (ok <==> env.writable && Init(env, s).1)
            && (!ok ==> s' == Init(env, s).0)
  {
  }

  /** Loading gives what the file at the path holds, if initialising works and it decodes. */
  lemma LoadedIff(env: Env, s: Storage, c: Config)
    ensures var (s', ok) := Init(env, s);
            && Load(env, s).0 == s'
            && (Load(env, s).1 == Some(c) <==> ok && s'.path in s'.files && s'.files[s'.path] == Encoded(c))
  {
  }
}
