/** Command-line tokenizer and option lookup (src/config.py). The program reads
    `sys.argv[1:]`; here those tokens are the input of the parser. */
module Config {
  import opened Wrappers
  import opened Dicts

  /** Leading positional arguments and, per flag token, the arguments that follow it. */
  datatype Context = Context(params: seq<string>, flags: Dict<seq<string>>)

  /** A process exit status. */
  datatype Exit = Exit(code: int)

  /** `__is_flag`: the token starts with '-'. The source indexes the first
      character, so an empty token would crash it; `ParseArgv` therefore
      requires non-empty tokens, and for those this predicate is the source's. */
  predicate IsFlag(token: string)
  {
    |token| > 0 && token[0] == '-'
  }

  predicate NonEmptyTokens(tokens: seq<string>)
  {
    forall i :: 0 <= i < |tokens| ==> |tokens[i]| > 0
  }

  /** Where a flag group may start: at the end or at a flag. */
  predicate AtFlag(tokens: seq<string>)
  {
    tokens == [] || IsFlag(tokens[0])
  }

  /** Length of the run of non-flag tokens at the start of `tokens`. */
  function ArgRun(tokens: seq<string>): (n: nat)
    ensures n <= |tokens|
    ensures n < |tokens| ==> IsFlag(tokens[n])
    decreases |tokens|
  {
    if tokens == [] || IsFlag(tokens[0]) then 0 else 1 + ArgRun(tokens[1..])
  }

  /** The flag occurrences in `tokens`, in order, each with the non-flag tokens after it. */
  function Groups(tokens: seq<string>): (gs: Dict<seq<string>>)
    requires AtFlag(tokens)
    decreases |tokens|
  {
    if tokens == [] then []
    else
      var n := ArgRun(tokens[1..]);
      [(tokens[0], tokens[1..1 + n])] + Groups(tokens[1 + n..])
  }

  /** Each flag followed by its values, concatenated: the tokens a dict of flags stands for. */
  function Flatten(gs: Dict<seq<string>>): seq<string>
  {
    if gs == [] then [] else [gs[0].0] + gs[0].1 + Flatten(gs[1..])
  }

  /** What `parse_argv` computes from `tokens`. */
  function Parse(tokens: seq<string>): (ctx: Context)
    ensures |ctx.params| <= |tokens| && ctx.params == tokens[..|ctx.params|]
    ensures forall i :: 0 <= i < |ctx.params| ==> !IsFlag(ctx.params[i])
    ensures |ctx.params| < |tokens| ==> IsFlag(tokens[|ctx.params|])
    ensures forall i :: 0 <= i < |ctx.flags| ==> IsFlag(ctx.flags[i].0)
    ensures forall i, j :: 0 <= i < |ctx.flags| && 0 <= j < |ctx.flags[i].1| ==> !IsFlag(ctx.flags[i].1[j])
  {
    var n := ArgRun(tokens);
    var gs := Groups(tokens[n..]);
    var flags := FromPairs(gs);
    GroupsShape(tokens[n..]);
    forall i | 0 <= i < n ensures !IsFlag(tokens[i]) {
      ArgRunArgs(tokens, i);
    }
    forall i | 0 <= i < |flags|
      ensures IsFlag(flags[i].0)
      ensures forall j :: 0 <= j < |flags[i].1| ==> !IsFlag(flags[i].1[j])
    {
      FromPairsEntry(gs, i);
    }
    Context(tokens[..n], flags)
  }

  /** `parse_argv`. The source prints "ERROR" and exits with -1 when the outer
      loop meets a non-flag token; the assertion in that branch shows it cannot. */
  method ParseArgv(tokens: seq<string>) returns (ctx: Context)
    requires NonEmptyTokens(tokens)
    ensures ctx == Parse(tokens)
  {
    assert tokens[0..] == tokens;
    var params, index := TakeArgs(tokens, 0);
    ghost var n := index;
    ghost var done: Dict<seq<string>> := [];
    var flags: Dict<seq<string>> := [];
    GroupsStart(tokens, n);
    while index < |tokens|
      invariant n <= index <= |tokens|
      invariant AtFlag(tokens[index..])
      invariant Groups(tokens[n..]) == done + Groups(tokens[index..])
      invariant flags == FromPairs(done)
    {
      if !IsFlag(tokens[index]) {
        assert false;
      }
      var key := tokens[index];
      var temp, next := TakeArgs(tokens, index + 1);
      GroupsAdvance(tokens, n, done, index, next);
      flags := Assign(flags, key, temp);
      FromPairsSnoc(done, key, temp);
      done, index := done + [(key, temp)], next;
    }
    GroupsEnd(tokens, n, done);
    ParseParts(tokens);
    ctx := Context(params, flags);
  }

  /** The loop `while index < len(tokens) and not __is_flag(tokens[index])` that
      collects the non-flag tokens from `from` on, used for the positional
      arguments and for the values of each flag. */
  method TakeArgs(tokens: seq<string>, from: nat) returns (args: seq<string>, index: nat)
    requires from <= |tokens|
    ensures from <= index <= |tokens|
    ensures index == from + ArgRun(tokens[from..])
    ensures args == tokens[from..index]
  {
    args, index := [], from;
    while index < |tokens| && !IsFlag(tokens[index])
      invariant from <= index <= |tokens|
      invariant args == tokens[from..index]
      invariant forall j :: from <= j < index ==> !IsFlag(tokens[j])
    {
      args := args + [tokens[index]];
      index := index + 1;
    }
    ArgRunIs(tokens[from..], index - from);
  }

  /** `__key_to_flag`: option names are looked up as `--name`. */
  function KeyToFlag(key: string): (flag: string)
    ensures |flag| == |key| + 2 && flag[..2] == "--" && IsFlag(flag)
    ensures flag[2..] == key
  {
    "--" + key
  }

  /** `Context.has_flag`: exactly the flags the getters find a value list for. */
  function HasFlag(ctx: Context, key: string): (b: bool)
    ensures b <==> Lookup(ctx.flags, KeyToFlag(key)).Some?
  {
    KeyToFlag(key) in Keys(ctx.flags)
  }

  /** `Context.get_value_or_default`; the source converts the first value with
      `type(default)`, here the conversion is the parameter `convert`. */
  function GetValueOrDefault<T>(ctx: Context, key: string, default: T, convert: string -> T): (r: T)
    ensures !HasFlag(ctx, key) ==> r == default
    ensures GetValueOrExit(ctx, key).Success? ==> r == convert(GetValueOrExit(ctx, key).value)
    ensures GetValueOrExit(ctx, key).Failure? ==> r == default
  {
    match Lookup(ctx.flags, KeyToFlag(key))
    case Some(vs) => if |vs| > 0 then convert(vs[0]) else default
    case None => default
  }

  /** `Context.get_value_or_exit`: the first value, or exit status -3. */
  function GetValueOrExit(ctx: Context, key: string): (r: Result<string, Exit>)
    ensures r.Failure? ==> r.error == Exit(-3)
  {
    match Lookup(ctx.flags, KeyToFlag(key))
    case Some(vs) => if |vs| > 0 then Success(vs[0]) else Failure(Exit(-3))
    case None => Failure(Exit(-3))
  }

  // ---------------------------------------------------------------------------
  // Properties of the tokenizer

  /** The tokens of the run are not flags. */
  lemma {:induction false} ArgRunArgs(tokens: seq<string>, i: nat)
    requires i < ArgRun(tokens)
    ensures !IsFlag(tokens[i])
    decreases i
  {
    if i > 0 {
      ArgRunArgs(tokens[1..], i - 1);
    }
  }

  /** The run stops at the first flag. */
  lemma {:induction false} ArgRunBefore(tokens: seq<string>, i: nat)
    requires i < |tokens| && IsFlag(tokens[i])
    ensures ArgRun(tokens) <= i
    decreases i
  {
    if i > 0 && !IsFlag(tokens[0]) {
      ArgRunBefore(tokens[1..], i - 1);
    }
  }

  /** A run that ends inside `s`, or at its end where `t` starts with a flag,
      is not extended by appending `t`. */
  lemma {:induction false} ArgRunAppend(s: seq<string>, t: seq<string>)
    requires ArgRun(s) < |s| || AtFlag(t)
    ensures ArgRun(s + t) == ArgRun(s)
    decreases |s|
  {
    if s == [] {
      assert s + t == t;
    } else if !IsFlag(s[0]) {
      assert (s + t)[1..] == s[1..] + t;
      ArgRunAppend(s[1..], t);
    }
  }

  /** A run of `n` non-flags followed by a flag or the end has length `n`. */
  lemma {:induction false} ArgRunIs(tokens: seq<string>, n: nat)
    requires n <= |tokens|
    requires forall i :: 0 <= i < n ==> !IsFlag(tokens[i])
    requires n < |tokens| ==> IsFlag(tokens[n])
    ensures ArgRun(tokens) == n
    decreases n
  {
    if n > 0 {
      assert !IsFlag(tokens[0]);
      forall i | 0 <= i < n - 1 ensures !IsFlag(tokens[1..][i]) {
        assert tokens[1..][i] == tokens[i + 1];
      }
      ArgRunIs(tokens[1..], n - 1);
    }
  }

  /** Slices of the suffix that starts at `i`, in terms of `tokens`. */
  lemma SlicesOfSuffix(tokens: seq<string>, i: nat, j: nat)
    requires i < j <= |tokens|
    ensures tokens[i..][1..] == tokens[i + 1..]
    ensures tokens[i..][1..j - i] == tokens[i + 1..j]
    ensures tokens[i..][j - i..] == tokens[j..]
  {
  }

  /** One step of grouping: a flag at `i` and the non-flag tokens up to `j`. */
  lemma GroupStep(tokens: seq<string>, i: nat, j: nat)
    requires i < j <= |tokens|
    requires IsFlag(tokens[i])
    requires j == i + 1 + ArgRun(tokens[i + 1..])
    ensures AtFlag(tokens[j..])
    ensures Groups(tokens[i..]) == [(tokens[i], tokens[i + 1..j])] + Groups(tokens[j..])
  {
    SlicesOfSuffix(tokens, i, j);
    GroupsUnfold(tokens[i..]);
  }

  /** Before the outer loop of `parse_argv` no group has been read. */
  lemma GroupsStart(tokens: seq<string>, n: nat)
    requires n == ArgRun(tokens)
    ensures AtFlag(tokens[n..])
    ensures Groups(tokens[n..]) == [] + Groups(tokens[n..])
  {
  }

  /** After the outer loop of `parse_argv` every group has been read. */
  lemma GroupsEnd(tokens: seq<string>, n: nat, done: Dict<seq<string>>)
    requires n <= |tokens| && AtFlag(tokens[n..])
    requires Groups(tokens[n..]) == done + Groups(tokens[|tokens|..])
    ensures done == Groups(tokens[n..])
  {
    assert tokens[|tokens|..] == [];
  }

  /** The outer loop of `parse_argv` consumes one group per iteration. */
  lemma GroupsAdvance(tokens: seq<string>, n: nat, done: Dict<seq<string>>, index: nat, next: nat)
    requires n <= index < next <= |tokens|
    requires IsFlag(tokens[index])
    requires next == index + 1 + ArgRun(tokens[index + 1..])
    requires AtFlag(tokens[n..])
    requires Groups(tokens[n..]) == done + Groups(tokens[index..])
    ensures AtFlag(tokens[next..])
    ensures Groups(tokens[n..]) == (done + [(tokens[index], tokens[index + 1..next])]) + Groups(tokens[next..])
  {
    GroupStep(tokens, index, next);
  }

  /** Every group is a flag followed by non-flag tokens. */
  lemma {:induction false} GroupsShape(tokens: seq<string>)
    requires AtFlag(tokens)
    ensures forall i :: 0 <= i < |Groups(tokens)| ==> IsFlag(Groups(tokens)[i].0)
    ensures forall i, j :: 0 <= i < |Groups(tokens)| && 0 <= j < |Groups(tokens)[i].1| ==>
              !IsFlag(Groups(tokens)[i].1[j])
    decreases |tokens|
  {
    if tokens != [] {
      var n := ArgRun(tokens[1..]);
      GroupsShape(tokens[1 + n..]);
      var vs := tokens[1..1 + n];
      forall j | 0 <= j < |vs| ensures !IsFlag(vs[j]) {
        ArgRunArgs(tokens[1..], j);
      }
    }
  }

  /** The tokens split into the first group's flag, its values and the rest. */
  lemma TokensSplit(tokens: seq<string>, n: nat)
    requires 1 + n <= |tokens|
    ensures tokens == [tokens[0]] + tokens[1..1 + n] + tokens[1 + n..]
  {
  }

  /** The flags that head the groups are exactly the flag tokens. */
  lemma {:induction false} GroupKeys(tokens: seq<string>, k: string)
    requires AtFlag(tokens)
    ensures k in Keys(Groups(tokens)) <==> k in tokens && IsFlag(k)
    decreases |tokens|
  {
    if tokens != [] {
      var n := ArgRun(tokens[1..]);
      var vs := tokens[1..1 + n];
      var rest := tokens[1 + n..];
      GroupsUnfold(tokens);
      GroupKeys(rest, k);
      KeysAppend([(tokens[0], vs)], Groups(rest));
      assert Keys([(tokens[0], vs)]) == [tokens[0]];
      TokensSplit(tokens, n);
      if k in vs {
        var j :| 0 <= j < |vs| && vs[j] == k;
        ArgRunArgs(tokens[1..], j);
      }
    }
  }

  /** Concatenation is associative (stated once so that proofs about groups can cite it). */
  lemma ConcatAssoc<T>(a: seq<T>, b: seq<T>, c: seq<T>)
    ensures a + (b + c) == (a + b) + c
  {
  }

  /** One unfolding of `Groups` at a flag. */
  lemma GroupsUnfold(tokens: seq<string>)
    requires tokens != [] && IsFlag(tokens[0])
    ensures AtFlag(tokens[1 + ArgRun(tokens[1..])..])
    ensures Groups(tokens) ==
              [(tokens[0], tokens[1..1 + ArgRun(tokens[1..])])] + Groups(tokens[1 + ArgRun(tokens[1..])..])
  {
  }

  /** Appending tokens that start at a flag does not lengthen the run after the first flag. */
  lemma ArgRunAfterHead(x: seq<string>, y: seq<string>)
    requires x != [] && AtFlag(y)
    ensures ArgRun((x + y)[1..]) == ArgRun(x[1..])
  {
    assert (x + y)[1..] == x[1..] + y;
    ArgRunAppend(x[1..], y);
  }

  /** The two slices of `x + y` around the first group of `x`. */
  lemma SlicesOfAppend(x: seq<string>, y: seq<string>, n: nat)
    requires 1 + n <= |x|
    ensures (x + y)[1..1 + n] == x[1..1 + n]
    ensures (x + y)[1 + n..] == x[1 + n..] + y
  {
  }

  /** The first group of `x + y` is the first group of `x` when `y` starts at a flag. */
  lemma GroupsAppendHead(x: seq<string>, y: seq<string>)
    requires x != [] && IsFlag(x[0]) && AtFlag(y)
    ensures AtFlag(x[1 + ArgRun(x[1..])..])
    ensures Groups(x + y) ==
              [(x[0], x[1..1 + ArgRun(x[1..])])] + Groups(x[1 + ArgRun(x[1..])..] + y)
  {
    ArgRunAfterHead(x, y);
    GroupsUnfold(x + y);
    SlicesOfAppend(x, y, ArgRun(x[1..]));
  }

  /** Grouping splits at flags, so it distributes over a concatenation at a flag. */
  lemma {:induction false} GroupsAppend(x: seq<string>, y: seq<string>)
    requires AtFlag(x) && AtFlag(y)
    ensures AtFlag(x + y)
    ensures Groups(x + y) == Groups(x) + Groups(y)
    decreases |x|
  {
    if x == [] {
      assert x + y == y;
    } else {
      var n := ArgRun(x[1..]);
      var rest := x[1 + n..];
      GroupsAppendHead(x, y);
      GroupsUnfold(x);
      GroupsAppend(rest, y);
      ConcatAssoc([(x[0], x[1..1 + n])], Groups(rest), Groups(y));
    }
  }

  /** Writing out a group in front of others. */
  lemma FlattenCons(g: (string, seq<string>), gs: Dict<seq<string>>)
    ensures Flatten([g] + gs) == [g.0] + g.1 + Flatten(gs)
  {
    assert ([g] + gs)[1..] == gs;
  }

  /** Writing the groups back out gives the tokens they came from. */
  lemma {:induction false} GroupsFlatten(tokens: seq<string>)
    requires AtFlag(tokens)
    ensures Flatten(Groups(tokens)) == tokens
    decreases |tokens|
  {
    if tokens != [] {
      var n := ArgRun(tokens[1..]);
      var rest := tokens[1 + n..];
      GroupsUnfold(tokens);
      GroupsFlatten(rest);
      FlattenCons((tokens[0], tokens[1..1 + n]), Groups(rest));
      TokensSplit(tokens, n);
    }
  }

  /** No flag token occurs twice. */
  predicate DistinctFlags(tokens: seq<string>)
  {
    forall i, j :: 0 <= i < j < |tokens| && IsFlag(tokens[i]) ==> tokens[i] != tokens[j]
  }

  /** A suffix of tokens with no repeated flag has none either. */
  lemma DistinctFlagsSuffix(tokens: seq<string>, k: nat)
    requires k <= |tokens| && DistinctFlags(tokens)
    ensures DistinctFlags(tokens[k..])
  {
    var rest := tokens[k..];
    forall i, j | 0 <= i < j < |rest| && IsFlag(rest[i]) ensures rest[i] != rest[j] {
      assert rest[i] == tokens[k + i] && rest[j] == tokens[k + j];
    }
  }

  lemma {:induction false} GroupsUnique(tokens: seq<string>)
    requires AtFlag(tokens) && DistinctFlags(tokens)
    ensures UniqueKeys(Groups(tokens))
    decreases |tokens|
  {
    if tokens != [] {
      var n := ArgRun(tokens[1..]);
      var rest := tokens[1 + n..];
      GroupsUnfold(tokens);
      DistinctFlagsSuffix(tokens, 1 + n);
      GroupsUnique(rest);
      GroupKeys(rest, tokens[0]);
      forall j | 0 <= j < |rest| ensures rest[j] != tokens[0] {
        assert rest[j] == tokens[1 + n + j];
      }
      var gs := Groups(tokens);
      forall i, j | 0 <= i < j < |gs| ensures gs[i].0 != gs[j].0 {
        if i == 0 {
          assert gs[j].0 == Keys(Groups(rest))[j - 1];
        }
      }
    }
  }

  /** What `Parse` is made of. */
  lemma ParseParts(tokens: seq<string>)
    ensures AtFlag(tokens[ArgRun(tokens)..])
    ensures Parse(tokens).params == tokens[..ArgRun(tokens)]
    ensures Parse(tokens).flags == FromPairs(Groups(tokens[ArgRun(tokens)..]))
  {
  }

  /** The positional arguments followed by the written-out groups are the tokens. */
  lemma ArgsThenGroups(tokens: seq<string>)
    ensures AtFlag(tokens[ArgRun(tokens)..])
    ensures tokens[..ArgRun(tokens)] + Flatten(Groups(tokens[ArgRun(tokens)..])) == tokens
  {
    var n := ArgRun(tokens);
    var rest := tokens[n..];
    GroupsFlatten(rest);
    assert tokens == tokens[..n] + rest;
  }

  /** Without repeated flags the dict comprehension keeps every group, in order. */
  lemma DistinctFlagsKeepGroups(tokens: seq<string>)
    requires DistinctFlags(tokens)
    ensures AtFlag(tokens[ArgRun(tokens)..])
    ensures FromPairs(Groups(tokens[ArgRun(tokens)..])) == Groups(tokens[ArgRun(tokens)..])
  {
    var n := ArgRun(tokens);
    var rest := tokens[n..];
    DistinctFlagsSuffix(tokens, n);
    GroupsUnique(rest);
    FromPairsUnique(Groups(rest));
  }

  /** With no flag repeated, positional arguments followed by each flag and its
      values, in the dict's order, give back the command line. */
  lemma ParseReconstructs(tokens: seq<string>)
    requires DistinctFlags(tokens)
    ensures Parse(tokens).params + Flatten(Parse(tokens).flags) == tokens
  {
    ParseParts(tokens);
    ArgsThenGroups(tokens);
    DistinctFlagsKeepGroups(tokens);
  }

  /** A flag followed by non-flag values and then a flag or the end is one group. */
  lemma GroupsOfOne(flag: string, vs: seq<string>, b: seq<string>)
    requires IsFlag(flag)
    requires forall i :: 0 <= i < |vs| ==> !IsFlag(vs[i])
    requires AtFlag(b)
    ensures AtFlag([flag] + vs + b)
    ensures Groups([flag] + vs + b) == [(flag, vs)] + Groups(b)
  {
    var z := [flag] + vs + b;
    ArgRunIs(z[1..], |vs|);
    GroupsUnfold(z);
    assert z[1..1 + |vs|] == vs && z[1 + |vs|..] == b;
  }

  /** The parser starts grouping at or before the first flag of `a + [flag] + ...`. */
  lemma FlagsPart(tokens: seq<string>, a: seq<string>, z: seq<string>)
    requires tokens == a + z && z != [] && IsFlag(z[0])
    ensures ArgRun(tokens) <= |a|
    ensures AtFlag(a[ArgRun(tokens)..])
    ensures tokens[ArgRun(tokens)..] == a[ArgRun(tokens)..] + z
  {
    var n := ArgRun(tokens);
    assert tokens[|a|] == z[0];
    ArgRunBefore(tokens, |a|);
    if n < |a| {
      assert a[n..][0] == tokens[n];
    }
  }

  /** The groups of a command line that ends in `flag`, its values and `b`. */
  lemma GroupsEndingIn(tokens: seq<string>, a: seq<string>, flag: string, vs: seq<string>, b: seq<string>)
    requires tokens == a + [flag] + vs + b
    requires IsFlag(flag)
    requires forall i :: 0 <= i < |vs| ==> !IsFlag(vs[i])
    requires AtFlag(b)
    ensures ArgRun(tokens) <= |a| && AtFlag(a[ArgRun(tokens)..]) && AtFlag(tokens[ArgRun(tokens)..])
    ensures Groups(tokens[ArgRun(tokens)..]) == (Groups(a[ArgRun(tokens)..]) + [(flag, vs)]) + Groups(b)
  {
    var z := [flag] + vs + b;
    assert tokens == a + z;
    FlagsPart(tokens, a, z);
    var x := a[ArgRun(tokens)..];
    GroupsOfOne(flag, vs, b);
    GroupsAppend(x, z);
    ConcatAssoc(Groups(x), [(flag, vs)], Groups(b));
  }

  /** The last value recorded for `flag` is `vs` when `flag` does not come back in `b`. */
  lemma LastGroupWins(gs: Dict<seq<string>>, flag: string, vs: seq<string>, b: seq<string>)
    requires AtFlag(b) && flag !in b
    ensures LastValue((gs + [(flag, vs)]) + Groups(b), flag) == Some(vs)
  {
    GroupKeys(b, flag);
    LastValueAppend(gs + [(flag, vs)], Groups(b), flag);
  }

  /** A repeated flag keeps the values of its last occurrence. */
  lemma ParseLastOccurrenceWins(tokens: seq<string>, a: seq<string>, flag: string, vs: seq<string>, b: seq<string>)
    requires tokens == a + [flag] + vs + b
    requires IsFlag(flag)
    requires forall i :: 0 <= i < |vs| ==> !IsFlag(vs[i])
    requires AtFlag(b) && flag !in b
    ensures Lookup(Parse(tokens).flags, flag) == Some(vs)
  {
    ParseParts(tokens);
    GroupsEndingIn(tokens, a, flag, vs, b);
    LastGroupWins(Groups(a[ArgRun(tokens)..]), flag, vs, b);
  }

  /** A flag occurs in the tokens exactly when it occurs after the positional arguments. */
  lemma FlagAfterArgs(tokens: seq<string>, f: string)
    requires IsFlag(f)
    ensures f in tokens <==> f in tokens[ArgRun(tokens)..]
  {
    var n := ArgRun(tokens);
    forall j | 0 <= j < n ensures tokens[j] != f {
      ArgRunArgs(tokens, j);
    }
    assert tokens == tokens[..n] + tokens[n..];
  }

  /** `has_flag(key)` holds exactly when `--key` is one of the tokens. */
  lemma ParseHasFlag(tokens: seq<string>, key: string)
    ensures HasFlag(Parse(tokens), key) <==> KeyToFlag(key) in tokens
  {
    var n := ArgRun(tokens);
    var f := KeyToFlag(key);
    ParseParts(tokens);
    GroupKeys(tokens[n..], f);
    FromPairsKeys(Groups(tokens[n..]), f);
    FlagAfterArgs(tokens, f);
  }

  /** The value `get_value_or_default` reads is the first token after the last `--key`. */
  lemma ParseValueOrDefault<T>(tokens: seq<string>, key: string, default: T, convert: string -> T,
                               a: seq<string>, vs: seq<string>, b: seq<string>)
    requires tokens == a + [KeyToFlag(key)] + vs + b
    requires forall i :: 0 <= i < |vs| ==> !IsFlag(vs[i])
    requires AtFlag(b) && KeyToFlag(key) !in b
    ensures GetValueOrDefault(Parse(tokens), key, default, convert) == if |vs| > 0 then convert(vs[0]) else default
    ensures GetValueOrExit(Parse(tokens), key) == if |vs| > 0 then Success(vs[0]) else Failure(Exit(-3))
  {
    ParseLastOccurrenceWins(tokens, a, KeyToFlag(key), vs, b);
  }

  /** Without `--key` among the tokens, the default is returned and `get_value_or_exit` exits with -3. */
  lemma ParseMissingValue<T>(tokens: seq<string>, key: string, default: T, convert: string -> T)
    requires KeyToFlag(key) !in tokens
    ensures GetValueOrDefault(Parse(tokens), key, default, convert) == default
    ensures GetValueOrExit(Parse(tokens), key) == Failure(Exit(-3))
  {
    ParseHasFlag(tokens, key);
  }
}
