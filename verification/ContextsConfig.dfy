/** The contexts configuration and what each store operation makes of it. */
module ContextsConfig {
  import opened Common

  const DEFAULT_CONTEXT_NAME: string := "default"

  /** `info` stands for the local or remote connection data, which the store never looks at. */
  datatype Context = Context(uuid: string, name: string, info: string)

  datatype Config = Config(current: string, contexts: seq<Context>)

  datatype Op = GetConfig | GetCurrent | SetCurrent(uuid: string) | Add(context: Context) | Remove(uuid: string)

  datatype Reason = NoCurrentContext | UnknownContext | ReservedName | DuplicateUuid | IsCurrent | ReservedContext

  datatype Answer = GotConfig(config: Config) | GotContext(context: Context) | Done | Refused(reason: Reason)

  function DefaultConfig(uuid: string): Config {
    Config(uuid, [Context(uuid, DEFAULT_CONTEXT_NAME, "")])
  }

  predicate HasUuid(contexts: seq<Context>, uuid: string) {
    exists i :: 0 <= i < |contexts| && contexts[i].uuid == uuid
  }

  predicate HasReserved(contexts: seq<Context>, uuid: string) {
    exists i :: 0 <= i < |contexts| && contexts[i].uuid == uuid && contexts[i].name == DEFAULT_CONTEXT_NAME
  }

  function FindUuid(contexts: seq<Context>, uuid: string): (r: Option<Context>)
    ensures r.Some? <==> HasUuid(contexts, uuid)
    ensures r.Some? ==> r.value in contexts && r.value.uuid == uuid
  {
    if contexts == [] then None
    else if contexts[0].uuid == uuid then Some(contexts[0])
    else
      assert HasUuid(contexts, uuid) <==> HasUuid(contexts[1..], uuid) by {
        if HasUuid(contexts, uuid) {
          var i :| 0 <= i < |contexts| && contexts[i].uuid == uuid;
          assert contexts[1..][i - 1].uuid == uuid;
        }
      }
      FindUuid(contexts[1..], uuid)
  }

  function Without(contexts: seq<Context>, uuid: string): seq<Context> {
    if contexts == [] then []
    else
      var init, last := Without(contexts[..|contexts| - 1], uuid), contexts[|contexts| - 1];
      if last.uuid == uuid then init else init + [last]
  }

  lemma {:induction false} WithoutMembers(contexts: seq<Context>, uuid: string)
    ensures forall c :: c in Without(contexts, uuid) <==> c in contexts && c.uuid != uuid
    ensures !HasUuid(contexts, uuid) ==> Without(contexts, uuid) == contexts
  {
    if contexts != [] {
      var n := |contexts| - 1;
      WithoutMembers(contexts[..n], uuid);
      assert contexts == contexts[..n] + [contexts[n]];
    }
  }

  lemma WithoutSteps(contexts: seq<Context>, i: nat, uuid: string)
    requires i <= |contexts|
    ensures i == 0 ==> Without(contexts[..i], uuid) == []
    ensures i < |contexts| ==>
              Without(contexts[..i + 1], uuid)
              == Without(contexts[..i], uuid) + if contexts[i].uuid == uuid then [] else [contexts[i]]
  {
    if i < |contexts| {
      assert contexts[..i + 1][..i] == contexts[..i];
    }
  }

  predicate IsRead(op: Op) {
    op.GetConfig? || op.GetCurrent?
  }

  /** The configuration after an operation, and its answer. */
  function Perform(op: Op, c: Config): (Config, Answer) {
    match op
    case GetConfig => (c, GotConfig(c))
    case GetCurrent =>
      (c, match FindUuid(c.contexts, c.current)
          case Some(context) => GotContext(context)
          case None => Refused(NoCurrentContext))
    case SetCurrent(uuid) =>
      if HasUuid(c.contexts, uuid) then (c.(current := uuid), Done) else (c, Refused(UnknownContext))
    case Add(context) =>
      if context.name == DEFAULT_CONTEXT_NAME then (c, Refused(ReservedName))
      else if HasUuid(c.contexts, context.uuid) then (c, Refused(DuplicateUuid))
      else (c.(contexts := c.contexts + [context]), Done)
    case Remove(uuid) =>
      if uuid == c.current then (c, Refused(IsCurrent))
      else if HasReserved(c.contexts, uuid) then (c, Refused(ReservedContext))
      else (c.(contexts := Without(c.contexts, uuid)), Done)
  }

  /** Does the operation write the file? A removal that finds nothing does not. */
  predicate Writes(op: Op, c: Config) {
    !IsRead(op) && Perform(op, c).1.Done? && (op.Remove? ==> HasUuid(c.contexts, op.uuid))
  }

  lemma UnwrittenMeansUnchanged(op: Op, c: Config)
    requires !Writes(op, c)
    ensures Perform(op, c).0 == c
  {
    if op.Remove? {
      WithoutMembers(c.contexts, op.uuid);
    }
  }

  // ---------- When an operation is accepted ----------

  /** Some stored context has this UUID. */
  predicate Stored(c: Config, uuid: string) {
    exists context :: context in c.contexts && context.uuid == uuid
  }

  /** Some stored context with this UUID is called "default". */
  predicate StoredAsDefault(c: Config, uuid: string) {
    exists context :: context in c.contexts && context.uuid == uuid && context.name == "default"
  }

  lemma StoredIff(c: Config, uuid: string)
    ensures HasUuid(c.contexts, uuid) <==> Stored(c, uuid)
    ensures HasReserved(c.contexts, uuid) <==> StoredAsDefault(c, uuid)
  {
    if context :| context in c.contexts && context.uuid == uuid && context.name == "default" {
      var i :| 0 <= i < |c.contexts| && c.contexts[i] == context;
      assert c.contexts[i].uuid == uuid && c.contexts[i].name == DEFAULT_CONTEXT_NAME;
    }
  }

  /** Every stored context can be made the current one, and nothing else. */
  lemma SetCurrentAnswer(c: Config, uuid: string)
    ensures var (after, answer) := Perform(SetCurrent(uuid), c);
            if Stored(c, uuid) then answer == Done && after == Config(uuid, c.contexts)
            else answer == Refused(UnknownContext) && after == c
  {
    StoredIff(c, uuid);
  }

  /** A context is added, at the end, unless it has the reserved name or a stored UUID. */
  lemma AddAnswer(c: Config, context: Context)
    ensures var (after, answer) := Perform(Add(context), c);
            if context.name == "default" then answer == Refused(ReservedName) && after == c
            else if Stored(c, context.uuid) then answer == Refused(DuplicateUuid) && after == c
            else answer == Done && after == Config(c.current, c.contexts + [context])
  {
    StoredIff(c, context.uuid);
  }

  /** Any UUID can be removed but the current one and that of the default context. */
  lemma RemoveAnswer(c: Config, uuid: string)
    ensures var (after, answer) := Perform(Remove(uuid), c);
            if uuid == c.current then answer == Refused(IsCurrent) && after == c
            else if StoredAsDefault(c, uuid) then answer == Refused(ReservedContext) && after == c
            else answer == Done && after.current == c.current && after.contexts == Without(c.contexts, uuid)
  {
    StoredIff(c, uuid);
  }

  /** What removing leaves is in the order it was in. */
  lemma {:induction false} WithoutKeepsOrder(a: seq<Context>, b: seq<Context>, context: Context, uuid: string)
    ensures Without([], uuid) == []
    ensures Without([context], uuid) == if context.uuid == uuid then [] else [context]
    ensures Without(a + b, uuid) == Without(a, uuid) + Without(b, uuid)
    decreases b
  {
    assert [context][..0] == [];
    if b == [] {
      assert a + b == a;
    } else {
      var n := |b| - 1;
      WithoutKeepsOrder(a, b[..n], context, uuid);
      assert (a + b)[..|a + b| - 1] == a + b[..n];
    }
  }

  /** Reading answers with what is stored: all of it, or the first context with the current UUID. */
  lemma ReadAnswers(c: Config)
    ensures Perform(GetConfig, c) == (c, GotConfig(c))
    ensures var (after, answer) := Perform(GetCurrent, c);
            && after == c
            && (answer == Refused(NoCurrentContext) <==> !Stored(c, c.current))
            && (Stored(c, c.current) ==>
                  exists i :: 0 <= i < |c.contexts| && answer == GotContext(c.contexts[i]) && FirstWith(c, i))
  {
    StoredIff(c, c.current);
    if Stored(c, c.current) {
      FindFirst(c.contexts, c.current);
      var i :| 0 <= i < |c.contexts| && FindUuid(c.contexts, c.current) == Some(c.contexts[i])
               && c.contexts[i].uuid == c.current && forall j | 0 <= j < i :: c.contexts[j].uuid != c.current;
      assert FirstWith(c, i);
    }
  }

  /** The context at `i` is the first that has the current UUID. */
  predicate FirstWith(c: Config, i: nat)
    requires i < |c.contexts|
  {
    c.contexts[i].uuid == c.current && forall j | 0 <= j < i :: c.contexts[j].uuid != c.current
  }

  lemma {:induction false} FindFirst(contexts: seq<Context>, uuid: string)
    requires HasUuid(contexts, uuid)
    ensures exists i :: 0 <= i < |contexts| && FindUuid(contexts, uuid) == Some(contexts[i])
                        && contexts[i].uuid == uuid && forall j | 0 <= j < i :: contexts[j].uuid != uuid
  {
    if contexts[0].uuid != uuid {
      var k :| 0 <= k < |contexts| && contexts[k].uuid == uuid;
      assert contexts[1..][k - 1].uuid == uuid;
      FindFirst(contexts[1..], uuid);
      var i :| 0 <= i < |contexts[1..]| && FindUuid(contexts[1..], uuid) == Some(contexts[1..][i])
               && contexts[1..][i].uuid == uuid && forall j | 0 <= j < i :: contexts[1..][j].uuid != uuid;
      forall j | 0 <= j < i + 1 ensures contexts[j].uuid != uuid {
        assert j > 0 ==> contexts[j] == contexts[1..][j - 1];
      }
      assert contexts[i + 1] == contexts[1..][i];
    }
  }

  /** The file is written by every accepted operation that is not a read, but by a removal only if it removes. */
  lemma WritesIff(op: Op, c: Config)
    ensures Writes(op, c) <==>
            match op
            case GetConfig => false
            case GetCurrent => false
            case SetCurrent(uuid) => Stored(c, uuid)
            case Add(context) => context.name != "default" && !Stored(c, context.uuid)
            case Remove(uuid) => uuid != c.current && Stored(c, uuid) && !StoredAsDefault(c, uuid)
  {
    match op
    case GetConfig =>
    case GetCurrent =>
    case SetCurrent(uuid) => StoredIff(c, uuid);
    case Add(context) => StoredIff(c, context.uuid);
    case Remove(uuid) => StoredIff(c, uuid);
  }

  /** The first configuration holds one context, the default one, and it is current. */
  lemma DefaultConfigIs(root: string)
    ensures var c := DefaultConfig(root);
            && c.current == root && |c.contexts| == 1
            && c.contexts[0].uuid == root && c.contexts[0].name == "default"
  {
  }

  // ---------- What a later lookup finds ----------

  lemma {:induction false} FindInAppended(contexts: seq<Context>, context: Context, uuid: string)
    ensures FindUuid(contexts + [context], uuid) ==
            if FindUuid(contexts, uuid).Some? then FindUuid(contexts, uuid)
            else if context.uuid == uuid then Some(context) else None
  {
    hide HasUuid;
    if contexts != [] {
      assert (contexts + [context])[1..] == contexts[1..] + [context];
      FindInAppended(contexts[1..], context, uuid);
    } else {
      assert [] + [context] == [context];
    }
  }

  lemma {:induction false} FindInWithout(contexts: seq<Context>, removed: string, uuid: string)
    ensures FindUuid(Without(contexts, removed), uuid) == if uuid == removed then None else FindUuid(contexts, uuid)
  {
    hide HasUuid, FindUuid;
    if contexts != [] {
      var n := |contexts| - 1;
      FindInWithout(contexts[..n], removed, uuid);
      assert contexts == contexts[..n] + [contexts[n]];
      FindInAppended(contexts[..n], contexts[n], uuid);
      FindInAppended(Without(contexts[..n], removed), contexts[n], uuid);
    } else {
      FindInNone(uuid);
    }
  }

  lemma FindInNone(uuid: string)
    ensures FindUuid([], uuid).None?
  {
  }

  /**
    On any configuration whatever, an operation answered with Done has exactly its effect on
    every later lookup: the current UUID is the one set, the context added is found, the one
    removed is not, and every other context is found as before.
   */
  lemma LookupAfterOperation(op: Op, c: Config, uuid: string)
    requires Perform(op, c).1.Done?
    ensures var after := Perform(op, c).0;
            && after.current == (if op.SetCurrent? then op.uuid else c.current)
            && (op.SetCurrent? ==> Perform(GetCurrent, after).1.GotContext?)
            && FindUuid(after.contexts, uuid) ==
                 if op.Add? && op.context.uuid == uuid then Some(op.context)
                 else if op.Remove? && op.uuid == uuid then None
                 else FindUuid(c.contexts, uuid)
  {
    match op
    case GetConfig =>
    case GetCurrent =>
    case SetCurrent(target) =>
    case Add(context) => FindInAppended(c.contexts, context, uuid);
    case Remove(target) => FindInWithout(c.contexts, target, uuid);
  }

  // ---------- What every run from the default configuration keeps ----------

  predicate DistinctUuids(contexts: seq<Context>) {
    forall i, j | 0 <= i < j < |contexts| :: contexts[i].uuid != contexts[j].uuid
  }

  /** Distinct UUIDs, a current context that exists, and one default context, with UUID `root`. */
  predicate Consistent(c: Config, root: string) {
    && DistinctUuids(c.contexts)
    && HasUuid(c.contexts, c.current)
    && HasUuid(c.contexts, root)
    && forall i | 0 <= i < |c.contexts| :: c.contexts[i].name == DEFAULT_CONTEXT_NAME <==> c.contexts[i].uuid == root
  }

  lemma {:induction false} WithoutKeepsDistinct(contexts: seq<Context>, uuid: string)
    requires DistinctUuids(contexts)
    ensures DistinctUuids(Without(contexts, uuid))
  {
    if contexts != [] {
      var n := |contexts| - 1;
      WithoutKeepsDistinct(contexts[..n], uuid);
      WithoutMembers(contexts[..n], uuid);
      var rest := Without(contexts[..n], uuid);
      forall i | 0 <= i < |rest| ensures rest[i].uuid != contexts[n].uuid {
        assert rest[i] in contexts[..n];
      }
    }
  }

  lemma HasUuidMember(contexts: seq<Context>, c: Context)
    requires c in contexts
    ensures HasUuid(contexts, c.uuid)
  {
  }

  lemma RemoveKeepsConsistent(c: Config, root: string, uuid: string)
    requires Consistent(c, root) && uuid != c.current && !HasReserved(c.contexts, uuid)
    ensures Consistent(c.(contexts := Without(c.contexts, uuid)), root)
  {
    var rest := Without(c.contexts, uuid);
    WithoutKeepsDistinct(c.contexts, uuid);
    WithoutMembers(c.contexts, uuid);
    var i :| 0 <= i < |c.contexts| && c.contexts[i].uuid == c.current;
    HasUuidMember(rest, c.contexts[i]);
    var d :| 0 <= d < |c.contexts| && c.contexts[d].uuid == root;
    assert root != uuid;
    HasUuidMember(rest, c.contexts[d]);
    forall k | 0 <= k < |rest| ensures rest[k].name == DEFAULT_CONTEXT_NAME <==> rest[k].uuid == root {
      assert rest[k] in c.contexts;
    }
  }

  lemma AddKeepsConsistent(c: Config, root: string, context: Context)
    requires Consistent(c, root) && context.name != DEFAULT_CONTEXT_NAME && !HasUuid(c.contexts, context.uuid)
    ensures Consistent(c.(contexts := c.contexts + [context]), root)
  {
    var more := c.contexts + [context];
    assert forall k | 0 <= k < |c.contexts| :: more[k] == c.contexts[k];
    var i :| 0 <= i < |c.contexts| && c.contexts[i].uuid == c.current;
    assert more[i].uuid == c.current;
    var d :| 0 <= d < |c.contexts| && c.contexts[d].uuid == root;
    assert more[d].uuid == root;
  }

  lemma PerformKeepsConsistent(op: Op, c: Config, root: string)
    requires Consistent(c, root)
    ensures Consistent(Perform(op, c).0, root)
    ensures Perform(op, c).1.Refused? ==> Perform(op, c).0 == c && !IsRead(op)
  {
    match op
    case GetConfig =>
    case GetCurrent =>
    case SetCurrent(uuid) =>
    case Add(context) =>
      if context.name != DEFAULT_CONTEXT_NAME && !HasUuid(c.contexts, context.uuid) {
        AddKeepsConsistent(c, root, context);
      }
    case Remove(uuid) =>
      if uuid != c.current && !HasReserved(c.contexts, uuid) {
        RemoveKeepsConsistent(c, root, uuid);
      }
  }

  /** Performs the operations one after the other. */
  function Replay(c: Config, ops: seq<Op>): Config {
    if ops == [] then c else Perform(ops[|ops| - 1], Replay(c, ops[..|ops| - 1])).0
  }

  /** The answer to operation `i` of a one-at-a-time run. */
  function AnswerAt(c: Config, ops: seq<Op>, i: nat): Answer
    requires i < |ops|
  {
    Perform(ops[i], Replay(c, ops[..i])).1
  }

  /**
    In every run from the default configuration, whatever the operations: UUIDs stay distinct,
    the current context always exists, the one default context keeps its UUID, reading the
    current context never fails, and a refusal changes nothing.
   */
  lemma {:induction false} EveryRunIsConsistent(root: string, ops: seq<Op>, i: nat)
    requires i <= |ops|
    ensures var c := Replay(DefaultConfig(root), ops[..i]);
            && Consistent(c, root)
            && (i < |ops| && ops[i].GetCurrent? ==>
                  var answer := AnswerAt(DefaultConfig(root), ops, i);
                  answer.GotContext? && answer.context in c.contexts && answer.context.uuid == c.current)
            && (i < |ops| && AnswerAt(DefaultConfig(root), ops, i).Refused? ==>
                  Replay(DefaultConfig(root), ops[..i + 1]) == c)
  {
    var start := DefaultConfig(root);
    if i == 0 {
      assert start.contexts[0].uuid == root;
    } else {
      EveryRunIsConsistent(root, ops, i - 1);
      assert ops[..i][..i - 1] == ops[..i - 1];
      PerformKeepsConsistent(ops[i - 1], Replay(start, ops[..i - 1]), root);
    }
    if i < |ops| {
      assert ops[..i + 1][..i] == ops[..i];
      PerformKeepsConsistent(ops[i], Replay(start, ops[..i]), root);
    }
  }

  /** Removing a context just added restores the configuration exactly. */
  lemma RemoveUndoesAdd(c: Config, root: string, context: Context)
    requires Consistent(c, root) && Perform(Add(context), c).1.Done?
    ensures Perform(Remove(context.uuid), Perform(Add(context), c).0) == (c, Done)
  {
    hide Consistent, FindUuid;
    var more := c.contexts + [context];
    assert context.uuid != c.current by {
      CurrentExists(c, root);
    }
    NewUuidNotReserved(c.contexts, context);
    assert more[..|more| - 1] == c.contexts;
    WithoutMembers(c.contexts, context.uuid);
  }

  lemma CurrentExists(c: Config, root: string)
    requires Consistent(c, root)
    ensures HasUuid(c.contexts, c.current)
  {
  }

  lemma NewUuidNotReserved(contexts: seq<Context>, context: Context)
    requires !HasUuid(contexts, context.uuid) && context.name != DEFAULT_CONTEXT_NAME
    ensures !HasReserved(contexts + [context], context.uuid)
  {
  }
}
