/**
  Positional arguments of a CLI command: which declarations are accepted, which token counts
  are, and how tokens are given to arguments.
 */
module PositionalArgs {
  import opened Common

  datatype Default = NoDefault | StringDefault(value: string) | ListDefault(values: seq<string>) | OtherDefault

  datatype ArgConfig = ArgConfig(key: string, isOptional: bool, isGreedy: bool, default: Default)

  /** The white space that TrimSpace removes. */
  predicate IsSpace(c: char) {
    var n := c as int;
    || 0x9 <= n <= 0xD || n == 0x20 || n == 0x85 || n == 0xA0 || n == 0x1680 || 0x2000 <= n <= 0x200A
    || n == 0x2028 || n == 0x2029 || n == 0x202F || n == 0x205F || n == 0x3000
  }

  predicate IsBlank(s: string) {
    forall i | 0 <= i < |s| :: IsSpace(s[i])
  }

  predicate IsTerminal(arg: ArgConfig) {
    arg.isOptional || arg.isGreedy
  }

  predicate DefaultFits(arg: ArgConfig) {
    if arg.isGreedy then arg.default.ListDefault? else arg.default.StringDefault?
  }

  /** Keys not blank and not repeated. */
  predicate KeysOk(args: seq<ArgConfig>) {
    && (forall i | 0 <= i < |args| :: !IsBlank(args[i].key))
    && (forall i, j | 0 <= i < j < |args| :: args[i].key != args[j].key)
  }

  predicate DefaultsOk(args: seq<ArgConfig>) {
    forall i | 0 <= i < |args| && args[i].isOptional :: DefaultFits(args[i])
  }

  /** All arguments but the last are required and take one token. */
  predicate OnlyLastTerminal(args: seq<ArgConfig>) {
    forall i | 0 <= i < |args| - 1 :: !IsTerminal(args[i])
  }

  predicate WellDeclared(args: seq<ArgConfig>) {
    KeysOk(args) && OnlyLastTerminal(args) && DefaultsOk(args)
  }

  function NumRequired(args: seq<ArgConfig>): nat {
    if args == [] then 0
    else NumRequired(args[..|args| - 1]) + if args[|args| - 1].isOptional then 0 else 1
  }

  /** White space is the tab to the carriage return, the blank, and what Unicode adds to them. */
  lemma SpacesAre(c: char)
    ensures IsSpace(c) <==>
              c as int in {0x9, 0xA, 0xB, 0xC, 0xD, 0x20, 0x85, 0xA0, 0x1680, 0x2000, 0x2001, 0x2002, 0x2003, 0x2004,
                           0x2005, 0x2006, 0x2007, 0x2008, 0x2009, 0x200A, 0x2028, 0x2029, 0x202F, 0x205F, 0x3000}
  {
  }

  /** What a declaration has to be like, argument by argument. */
  lemma WellDeclaredIff(args: seq<ArgConfig>)
    ensures WellDeclared(args) <==>
              && (forall arg | arg in args :: exists c :: c in arg.key && !IsSpace(c))
              && (forall i, j | 0 <= i < |args| && 0 <= j < |args| && args[i].key == args[j].key :: i == j)
              && (forall i | 0 <= i < |args| && i + 1 != |args| :: !args[i].isOptional && !args[i].isGreedy)
              && (forall arg | arg in args && arg.isOptional ::
                    (arg.isGreedy ==> arg.default.ListDefault?) && (!arg.isGreedy ==> arg.default.StringDefault?))
  {
    forall arg | arg in args ensures IsBlank(arg.key) <==> forall c | c in arg.key :: IsSpace(c) {
      if forall c | c in arg.key :: IsSpace(c) {
        assert forall i | 0 <= i < |arg.key| :: arg.key[i] in arg.key;
      }
    }
    hide IsBlank, IsSpace;
    if WellDeclared(args) {
      forall i | 0 <= i < |args| && i + 1 != |args| ensures !args[i].isOptional && !args[i].isGreedy {
        assert !IsTerminal(args[i]);
      }
    }
  }

  // ---------- The validation loops ----------

  method ValidateKeys(args: seq<ArgConfig>) returns (ok: bool)
    ensures ok <==> KeysOk(args)
  {
    var usedArgKeys: set<string> := {};
    for i := 0 to |args|
      invariant KeysOk(args[..i])
      invariant forall key :: key in usedArgKeys <==> exists j :: 0 <= j < i && args[j].key == key
    {
      var blank := TrimmedIsEmpty(args[i].key);
      if blank {
        return false;
      }
      if args[i].key in usedArgKeys {
        return false;
      }
      usedArgKeys := usedArgKeys + {args[i].key};
    }
    assert args[..|args|] == args;
    ok := true;
  }

  method TrimmedIsEmpty(key: string) returns (blank: bool)
    ensures blank <==> IsBlank(key)
  {
    for i := 0 to |key|
      invariant forall j | 0 <= j < i :: IsSpace(key[j])
    {
      if !IsSpace(key[i]) {
        return false;
      }
    }
    blank := true;
  }

  /**
    The ordering loop, with the empty string standing for "no terminal argument yet". On keys
    that may be empty it misses every terminal argument whose key is the empty string.
   */
  method ValidateOrder(args: seq<ArgConfig>) returns (ok: bool, numberOfRequiredArgs: nat, lastArgIsGreedy: bool)
    ensures ok <==> forall i | 0 <= i < |args| - 1 && (args[i].isOptional || args[i].isGreedy) :: args[i].key == ""
    ensures ok ==> numberOfRequiredArgs == NumRequired(args)
    ensures ok && OnlyLastTerminal(args) ==> lastArgIsGreedy == (args != [] && args[|args| - 1].isGreedy)
  {
    var terminalArgKey := "";
    numberOfRequiredArgs, lastArgIsGreedy := 0, false;
    for i := 0 to |args|
      invariant forall j | 0 <= j < i - 1 && IsTerminal(args[j]) :: args[j].key == ""
      invariant terminalArgKey != "" ==> i > 0 && IsTerminal(args[i - 1]) && args[i - 1].key != ""
      invariant i > 0 && IsTerminal(args[i - 1]) ==> terminalArgKey == args[i - 1].key
      invariant numberOfRequiredArgs == NumRequired(args[..i])
      invariant OnlyLastTerminal(args[..i]) ==> lastArgIsGreedy == (i > 0 && args[i - 1].isGreedy)
    {
      assert args[..i + 1][..i] == args[..i];
      assert OnlyLastTerminal(args[..i + 1]) && i > 0 ==>
               !IsTerminal(args[..i + 1][i - 1]) && OnlyLastTerminal(args[..i]);
      if terminalArgKey != "" {
        return false, numberOfRequiredArgs, lastArgIsGreedy;
      }
      if !args[i].isOptional {
        numberOfRequiredArgs := numberOfRequiredArgs + 1;
      }
      if args[i].isOptional || args[i].isGreedy {
        terminalArgKey := args[i].key;
        lastArgIsGreedy := args[i].isGreedy;
      }
    }
    assert args[..|args|] == args;
    ok := true;
  }

  method ValidateDefaults(args: seq<ArgConfig>) returns (ok: bool)
    ensures ok <==> DefaultsOk(args)
  {
    for i := 0 to |args|
      invariant forall j | 0 <= j < i && args[j].isOptional :: DefaultFits(args[j])
    {
      if args[i].isOptional {
        if args[i].isGreedy {
          if !args[i].default.ListDefault? {
            return false;
          }
        } else if !args[i].default.StringDefault? {
          return false;
        }
      }
    }
    ok := true;
  }

  /** All checks on the declared arguments; what a count check is built from if they pass. */
  method ValidateArgs(args: seq<ArgConfig>) returns (ok: bool, numberOfRequiredArgs: nat, lastArgIsGreedy: bool)
    ensures ok <==> WellDeclared(args)
    ensures ok ==> numberOfRequiredArgs == NumRequired(args)
    ensures ok ==> lastArgIsGreedy == (args != [] && args[|args| - 1].isGreedy)
  {
    numberOfRequiredArgs, lastArgIsGreedy := 0, false;
    ok := ValidateKeys(args);
    if ok {
      ok, numberOfRequiredArgs, lastArgIsGreedy := ValidateOrder(args);
      if ok {
        ok := ValidateDefaults(args);
      }
    }
  }

  // ---------- The count check and the grammar ----------

  /** The check on the number of tokens that a command is given. */
  predicate CountAccepted(args: seq<ArgConfig>, n: nat) {
    if args != [] && args[|args| - 1].isGreedy then n >= NumRequired(args)
    else NumRequired(args) <= n <= |args|
  }

  /** How many tokens an argument may take. */
  predicate RunFits(arg: ArgConfig, len: nat) {
    && (!arg.isOptional ==> len >= 1)
    && (!arg.isGreedy ==> len <= 1)
  }

  function Sum(lens: seq<nat>): nat {
    if lens == [] then 0 else Sum(lens[..|lens| - 1]) + lens[|lens| - 1]
  }

  /** The tokens split into contiguous runs, one an argument. */
  predicate IsAssignment(args: seq<ArgConfig>, lens: seq<nat>, n: nat) {
    |lens| == |args| && Sum(lens) == n && forall i | 0 <= i < |args| :: RunFits(args[i], lens[i])
  }

  /** One token to each argument but the last, which gets the rest. */
  function OnesThenRest(numArgs: nat, n: nat): seq<nat>
    requires numArgs > 0 && n >= numArgs - 1
  {
    seq(numArgs - 1, _ => 1) + [n - (numArgs - 1)]
  }

  lemma {:induction false} SumOfOnes(lens: seq<nat>)
    requires forall i | 0 <= i < |lens| :: lens[i] == 1
    ensures Sum(lens) == |lens|
  {
    if lens != [] {
      SumOfOnes(lens[..|lens| - 1]);
    }
  }

  lemma {:induction false} RequiredBeforeLast(args: seq<ArgConfig>, k: nat)
    requires OnlyLastTerminal(args) && k < |args|
    ensures NumRequired(args[..k]) == k
  {
    if k > 0 {
      RequiredBeforeLast(args, k - 1);
      assert args[..k][..k - 1] == args[..k - 1];
      assert !IsTerminal(args[k - 1]);
    }
  }

  lemma {:induction false} RequiredAtMost(args: seq<ArgConfig>)
    ensures NumRequired(args) <= |args|
  {
    if args != [] {
      RequiredAtMost(args[..|args| - 1]);
    }
  }

  lemma RequiredOf(args: seq<ArgConfig>)
    requires OnlyLastTerminal(args) && args != []
    ensures NumRequired(args) == |args| - if args[|args| - 1].isOptional then 1 else 0
  {
    RequiredBeforeLast(args, |args| - 1);
  }

  lemma AssignmentIsOnesThenRest(args: seq<ArgConfig>, lens: seq<nat>, n: nat)
    requires OnlyLastTerminal(args) && args != [] && IsAssignment(args, lens, n)
    ensures n >= |args| - 1 && lens == OnesThenRest(|args|, n)
  {
    var k := |args| - 1;
    forall i | 0 <= i < k ensures lens[i] == 1 {
      assert RunFits(args[i], lens[i]);
      assert !IsTerminal(args[i]);
    }
    SumOfOnes(lens[..k]);
  }

  lemma OnesThenRestAssigns(args: seq<ArgConfig>, n: nat)
    requires OnlyLastTerminal(args) && args != [] && CountAccepted(args, n)
    ensures n >= |args| - 1 && IsAssignment(args, OnesThenRest(|args|, n), n)
  {
    RequiredOf(args);
    var k := |args| - 1;
    var lens := OnesThenRest(|args|, n);
    assert lens[..k] == seq(k, _ => 1);
    SumOfOnes(lens[..k]);
    forall i | 0 <= i < k ensures RunFits(args[i], lens[i]) {
      assert !IsTerminal(args[i]);
    }
  }

  /**
    The grammar is unambiguous and the count check is exact: for well-declared arguments, a
    number of tokens is accepted exactly when the tokens can be split over the arguments, and
    then there is only one way to do it.
   */
  lemma CountAcceptedIffOneAssignment(args: seq<ArgConfig>, n: nat)
    requires WellDeclared(args)
    ensures CountAccepted(args, n) <==> exists lens :: IsAssignment(args, lens, n)
    ensures forall x, y | IsAssignment(args, x, n) && IsAssignment(args, y, n) :: x == y
  {
    if args == [] {
      assert IsAssignment(args, [], n) <==> n == 0;
    } else {
      if CountAccepted(args, n) {
        OnesThenRestAssigns(args, n);
      }
      forall lens | IsAssignment(args, lens, n)
        ensures CountAccepted(args, n) && n >= |args| - 1 && lens == OnesThenRest(|args|, n)
      {
        AssignmentIsOnesThenRest(args, lens, n);
        RequiredOf(args);
        assert RunFits(args[|args| - 1], lens[|args| - 1]);
      }
    }
  }

  // ---------- Parsing ----------

  datatype ParsedArgs = ParsedArgs(nonGreedy: map<string, string>, greedy: map<string, seq<string>>)

  datatype ParseError = BadDeclaration(key: string) | MissingRequired(key: string) | WrongGroupCount

  /** An argument's own tokens, or its default if it got none. */
  predicate HoldsRun(parsed: ParsedArgs, arg: ArgConfig, tokens: seq<string>) {
    if arg.isGreedy then
      && arg.key in parsed.greedy
      && (if tokens == [] then arg.default == ListDefault(parsed.greedy[arg.key]) else parsed.greedy[arg.key] == tokens)
    else
      && arg.key in parsed.nonGreedy
      && (if tokens == [] then arg.default == StringDefault(parsed.nonGreedy[arg.key])
          else tokens == [parsed.nonGreedy[arg.key]])
  }

  /** The tokens argument `i` takes: the one at its place, or if it is greedy all from there on. */
  function RunOf(args: seq<ArgConfig>, input: seq<string>, i: nat): seq<string>
    requires i < |args|
  {
    if i >= |input| then [] else if args[i].isGreedy then input[i..] else [input[i]]
  }

  /** The runs handed out in parsing are the ones of the only assignment, back to back. */
  lemma RunsFollowAssignment(args: seq<ArgConfig>, input: seq<string>, lens: seq<nat>, i: nat)
    requires WellDeclared(args) && IsAssignment(args, lens, |input|) && i < |args|
    ensures var from := Sum(lens[..i]);
            from + lens[i] <= |input| && RunOf(args, input, i) == input[from..from + lens[i]]
  {
    AssignmentIsOnesThenRest(args, lens, |input|);
    forall j | 0 <= j < i ensures lens[..i][j] == 1 {
    }
    SumOfOnes(lens[..i]);
    assert RunFits(args[i], lens[i]);
    assert lens[i] == if i < |args| - 1 then 1 else |input| - i;
    if i < |args| - 1 {
      assert !IsTerminal(args[i]);
    }
  }

  /** Every argument up to `n` has its run, and there is an entry for nothing else. */
  predicate ParsedUpTo(args: seq<ArgConfig>, input: seq<string>, n: nat, parsed: ParsedArgs)
    requires n <= |args|
  {
    && (forall i | 0 <= i < n :: HoldsRun(parsed, args[i], RunOf(args, input, i)))
    && |parsed.nonGreedy| + |parsed.greedy| == n
    && (forall key | key in parsed.nonGreedy :: DeclaresKey(args, n, key, false))
    && (forall key | key in parsed.greedy :: DeclaresKey(args, n, key, true))
  }

  /** One of the first `n` arguments has this key, and is greedy or not as said. */
  predicate DeclaresKey(args: seq<ArgConfig>, n: nat, key: string, greedy: bool)
    requires n <= |args|
  {
    exists i :: 0 <= i < n && args[i].key == key && args[i].isGreedy == greedy
  }

  lemma DeclaresMore(args: seq<ArgConfig>, n: nat)
    requires n < |args|
    ensures forall key, greedy | DeclaresKey(args, n, key, greedy) :: DeclaresKey(args, n + 1, key, greedy)
    ensures DeclaresKey(args, n + 1, args[n].key, args[n].isGreedy)
  {
  }

  lemma KeyIsNew(args: seq<ArgConfig>, input: seq<string>, n: nat, parsed: ParsedArgs)
    requires KeysOk(args) && n < |args| && ParsedUpTo(args, input, n, parsed)
    ensures args[n].key !in parsed.greedy && args[n].key !in parsed.nonGreedy
  {
  }

  /** Recording something under another key leaves an argument's run alone. */
  lemma RunIsKept(parsed: ParsedArgs, arg: ArgConfig, tokens: seq<string>, key: string, value: string,
                  values: seq<string>)
    requires HoldsRun(parsed, arg, tokens) && arg.key != key
    ensures HoldsRun(parsed.(greedy := parsed.greedy[key := values]), arg, tokens)
    ensures HoldsRun(parsed.(nonGreedy := parsed.nonGreedy[key := value]), arg, tokens)
  {
  }

  lemma RunsAreKept(args: seq<ArgConfig>, input: seq<string>, n: nat, parsed: ParsedArgs, value: string,
                    values: seq<string>)
    requires KeysOk(args) && n < |args| && ParsedUpTo(args, input, n, parsed)
    ensures forall i | 0 <= i < n ::
              && HoldsRun(parsed.(greedy := parsed.greedy[args[n].key := values]), args[i], RunOf(args, input, i))
              && HoldsRun(parsed.(nonGreedy := parsed.nonGreedy[args[n].key := value]), args[i], RunOf(args, input, i))
  {
    hide HoldsRun, RunOf;
    forall i | 0 <= i < n
      ensures HoldsRun(parsed.(greedy := parsed.greedy[args[n].key := values]), args[i], RunOf(args, input, i))
      ensures HoldsRun(parsed.(nonGreedy := parsed.nonGreedy[args[n].key := value]), args[i], RunOf(args, input, i))
    {
      RunIsKept(parsed, args[i], RunOf(args, input, i), args[n].key, value, values);
    }
  }

  /** Recording one more argument's run completes the next argument. */
  lemma AddArgument(args: seq<ArgConfig>, input: seq<string>, n: nat, parsed: ParsedArgs, value: string,
                    values: seq<string>)
    requires KeysOk(args) && n < |args| && ParsedUpTo(args, input, n, parsed)
    ensures var after := parsed.(greedy := parsed.greedy[args[n].key := values]);
            args[n].isGreedy && HoldsRun(after, args[n], RunOf(args, input, n)) ==>
              ParsedUpTo(args, input, n + 1, after)
    ensures var after := parsed.(nonGreedy := parsed.nonGreedy[args[n].key := value]);
            !args[n].isGreedy && HoldsRun(after, args[n], RunOf(args, input, n)) ==>
              ParsedUpTo(args, input, n + 1, after)
  {
    hide DeclaresKey, RunOf, HoldsRun;
    KeyIsNew(args, input, n, parsed);
    DeclaresMore(args, n);
    RunsAreKept(args, input, n, parsed, value, values);
  }

  /** An argument without a token to take is a missing one exactly if it is required. */
  lemma MissingIffRequired(args: seq<ArgConfig>, i: nat)
    requires OnlyLastTerminal(args) && i < |args|
    ensures args[i].isOptional <==> NumRequired(args) <= i
  {
    RequiredOf(args);
    if i < |args| - 1 {
      assert !IsTerminal(args[i]);
    }
  }

  /** Keys and order are valid; the defaults may not be. */
  predicate InOrder(args: seq<ArgConfig>) {
    KeysOk(args) && OnlyLastTerminal(args)
  }

  lemma NothingParsed(args: seq<ArgConfig>, input: seq<string>)
    ensures ParsedUpTo(args, input, 0, ParsedArgs(map[], map[]))
  {
  }

  lemma ParsedCount(args: seq<ArgConfig>, input: seq<string>, n: nat, parsed: ParsedArgs)
    requires n <= |args| && ParsedUpTo(args, input, n, parsed)
    ensures |parsed.nonGreedy| + |parsed.greedy| == n
  {
  }

  /** An argument past the tokens takes its default. */
  lemma TakeDefault(args: seq<ArgConfig>, input: seq<string>, n: nat, parsed: ParsedArgs)
    requires KeysOk(args) && n < |args| && ParsedUpTo(args, input, n, parsed) && n >= |input|
    ensures args[n].isGreedy && args[n].default.ListDefault? ==>
              ParsedUpTo(args, input, n + 1,
                         parsed.(greedy := parsed.greedy[args[n].key := args[n].default.values]))
    ensures !args[n].isGreedy && args[n].default.StringDefault? ==>
              ParsedUpTo(args, input, n + 1,
                         parsed.(nonGreedy := parsed.nonGreedy[args[n].key := args[n].default.value]))
  {
    hide ParsedUpTo, KeysOk;
    match args[n].default
    case ListDefault(values) => AddArgument(args, input, n, parsed, "", values);
    case StringDefault(value) => AddArgument(args, input, n, parsed, value, []);
    case _ =>
  }

  /** An argument at a token takes it, or all from it on. */
  lemma TakeTokens(args: seq<ArgConfig>, input: seq<string>, n: nat, parsed: ParsedArgs)
    requires KeysOk(args) && n < |args| && ParsedUpTo(args, input, n, parsed) && n < |input|
    ensures args[n].isGreedy ==>
              ParsedUpTo(args, input, n + 1, parsed.(greedy := parsed.greedy[args[n].key := input[n..]]))
    ensures !args[n].isGreedy ==>
              ParsedUpTo(args, input, n + 1, parsed.(nonGreedy := parsed.nonGreedy[args[n].key := input[n]]))
  {
    hide ParsedUpTo, KeysOk;
    AddArgument(args, input, n, parsed, input[n], input[n..]);
  }

  /**
    On arguments with valid keys and order, whatever their defaults. With fewer tokens than
    required arguments the first one that gets none is named. Otherwise every argument gets its
    own run of tokens, or its default, and nothing else is recorded; unless the last argument
    gets no token and its default is not of its kind, which is reported for that argument. So
    it is the declarations with fitting defaults on which enough tokens never fail.
   */
  method ParseArgsForValidation(args: seq<ArgConfig>, input: seq<string>) returns (r: Result<ParsedArgs, ParseError>)
    ensures InOrder(args) && |input| < NumRequired(args) ==>
              |input| < |args| && r == Err(MissingRequired(args[|input|].key))
    ensures InOrder(args) && NumRequired(args) <= |input| && (|input| < |args| ==> DefaultFits(args[|args| - 1])) ==>
              r.Ok? && ParsedUpTo(args, input, |args|, r.value)
    ensures InOrder(args) && NumRequired(args) <= |input| < |args| && !DefaultFits(args[|args| - 1]) ==>
              r == Err(BadDeclaration(args[|args| - 1].key))
  {
    hide KeysOk, NumRequired, ParsedUpTo;
    RequiredAtMost(args);
    NothingParsed(args, input);
    var nonGreedyArgValues: map<string, string> := map[];
    var greedyArgValues: map<string, seq<string>> := map[];
    var inputIdx := 0;
    ghost var filled := 0;
    for configIdx := 0 to |args|
      invariant filled == configIdx && inputIdx <= |input|
      invariant InOrder(args) ==> inputIdx == if configIdx <= |input| then configIdx else |input|
      invariant InOrder(args) && |input| < configIdx ==>
                  args[configIdx - 1].isOptional && configIdx == |input| + 1 && DefaultFits(args[configIdx - 1])
      invariant InOrder(args) ==>
                  ParsedUpTo(args, input, configIdx, ParsedArgs(nonGreedyArgValues, greedyArgValues))
    {
      var config := args[configIdx];
      ghost var before := ParsedArgs(nonGreedyArgValues, greedyArgValues);
      if config.isOptional && configIdx < |args| - 1 {
        assert InOrder(args) ==> !IsTerminal(args[configIdx]);
        return Err(BadDeclaration(config.key));
      }
      if InOrder(args) {
        assert configIdx > 0 ==> !IsTerminal(args[configIdx - 1]);
        MissingIffRequired(args, configIdx);
      }
      filled := configIdx + 1;
      if inputIdx >= |input| {
        if !config.isOptional {
          return Err(MissingRequired(config.key));
        }
        if config.isGreedy {
          if !config.default.ListDefault? {
            return Err(BadDeclaration(config.key));
          }
          if InOrder(args) {
            TakeDefault(args, input, configIdx, before);
          }
          greedyArgValues := greedyArgValues[config.key := config.default.values];
        } else {
          if !config.default.StringDefault? {
            return Err(BadDeclaration(config.key));
          }
          if InOrder(args) {
            TakeDefault(args, input, configIdx, before);
          }
          nonGreedyArgValues := nonGreedyArgValues[config.key := config.default.value];
        }
        continue;
      }
      if config.isGreedy {
        if InOrder(args) {
          assert IsTerminal(args[configIdx]);
          TakeTokens(args, input, configIdx, before);
        }
        greedyArgValues := greedyArgValues[config.key := input[inputIdx..]];
        break;
      }
      if InOrder(args) {
        TakeTokens(args, input, configIdx, before);
      }
      nonGreedyArgValues := nonGreedyArgValues[config.key := input[inputIdx]];
      inputIdx := inputIdx + 1;
    }
    if InOrder(args) && args != [] {
      MissingIffRequired(args, |args| - 1);
      RequiredOf(args);
    }
    if InOrder(args) {
      ParsedCount(args, input, filled, ParsedArgs(nonGreedyArgValues, greedyArgValues));
    }
    var numArgTokenGroupings := |greedyArgValues| + |nonGreedyArgValues|;
    if numArgTokenGroupings != |args| {
      return Err(WrongGroupCount);
    }
    r := Ok(ParsedArgs(nonGreedyArgValues, greedyArgValues));
  }

  /** Any string is a default that fits, the empty one included, and any list for a greedy argument; nothing else is. */
  lemma FittingDefaults(arg: ArgConfig)
    ensures DefaultFits(arg) <==>
              || (!arg.isGreedy && exists value :: arg.default == StringDefault(value))
              || (arg.isGreedy && exists values :: arg.default == ListDefault(values))
  {
    if arg.default.StringDefault? {
      assert arg.default == StringDefault(arg.default.value);
    }
    if arg.default.ListDefault? {
      assert arg.default == ListDefault(arg.default.values);
    }
  }

  /** How many tokens are required and accepted, from the last argument alone. */
  lemma CountAcceptedBetween(args: seq<ArgConfig>, n: nat)
    requires WellDeclared(args) && args != []
    ensures var last := args[|args| - 1];
            CountAccepted(args, n) <==>
              |args| - (if last.isOptional then 1 else 0) <= n && (n <= |args| || last.isGreedy)
  {
    RequiredOf(args);
  }

  /** What a successful parse has recorded, argument by argument. */
  lemma ParsedMeans(args: seq<ArgConfig>, input: seq<string>, parsed: ParsedArgs)
    requires InOrder(args) && ParsedUpTo(args, input, |args|, parsed)
    ensures forall i | 0 <= i < |args| && !args[i].isGreedy ::
              && args[i].key in parsed.nonGreedy
              && (i < |input| ==> parsed.nonGreedy[args[i].key] == input[i])
              && (i >= |input| ==> args[i].default == StringDefault(parsed.nonGreedy[args[i].key]))
    ensures forall i | 0 <= i < |args| && args[i].isGreedy ::
              && args[i].key in parsed.greedy
              && (i < |input| ==> parsed.greedy[args[i].key] == input[i..])
              && (i >= |input| ==> args[i].default == ListDefault(parsed.greedy[args[i].key]))
    ensures forall key | key in parsed.nonGreedy ::
              exists i :: 0 <= i < |args| && args[i].key == key && !args[i].isGreedy
    ensures forall key | key in parsed.greedy ::
              exists i :: 0 <= i < |args| && args[i].key == key && args[i].isGreedy
  {
    forall i | 0 <= i < |args| ensures HoldsRun(parsed, args[i], RunOf(args, input, i)) {
    }
    forall key | key in parsed.nonGreedy
      ensures exists i :: 0 <= i < |args| && args[i].key == key && !args[i].isGreedy
    {
      assert DeclaresKey(args, |args|, key, false);
    }
    forall key | key in parsed.greedy
      ensures exists i :: 0 <= i < |args| && args[i].key == key && args[i].isGreedy
    {
      assert DeclaresKey(args, |args|, key, true);
    }
  }

  /** The required arguments are those that are not optional. */
  lemma {:induction false} RequiredCount(args: seq<ArgConfig>)
    ensures NumRequired(args) == |set i | 0 <= i < |args| && !args[i].isOptional|
  {
    var now := set i | 0 <= i < |args| && !args[i].isOptional;
    if args == [] {
      assert now == {};
    } else {
      var n := |args| - 1;
      RequiredCount(args[..n]);
      var before := set i | 0 <= i < |args[..n]| && !args[..n][i].isOptional;
      assert now == if args[n].isOptional then before else before + {n};
    }
  }
}
