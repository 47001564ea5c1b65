/** The legacy CLI's argument handling (`src/cli.js`): `parseArguments`, the
    command dispatch in `main`, and the argument check of `generateData`. */
module CliArgs {
  import opened Results
  import opened Text
  import opened Numbers

  /** A parsed option value: one string (`'true'` for a bare flag) or an array of them. */
  datatype ArgValue = Text(text: string) | List(items: seq<string>)

  /** `arg.startsWith('--')`. */
  predicate IsFlag(arg: string) {
    StartsWith(arg, "--")
  }

  /** `arg.substring(2)`: the option name. */
  function KeyOf(arg: string): string
    requires IsFlag(arg)
  {
    arg[2..]
  }

  /** The end of the run of non-flag arguments starting at `j`. */
  function RunEnd(args: seq<string>, j: nat): (e: nat)
    requires j <= |args|
    ensures j <= e <= |args|
    ensures forall q :: j <= q < e ==> !IsFlag(args[q])
    ensures e == |args| || IsFlag(args[e])
    decreases |args| - j
  {
    if j < |args| && !IsFlag(args[j]) then RunEnd(args, j + 1) else j
  }

  /** The value an option receives from the arguments that follow it: none
      gives `'true'`, one gives that string, several give the array. */
  function Shape(values: seq<string>): (v: ArgValue)
    ensures |values| == 0 ==> v == Text("true")
    ensures |values| == 1 ==> v == Text(values[0])
    ensures v.List? <==> |values| >= 2
    ensures v.List? ==> v.items == values
  {
    if |values| == 0 then Text("true")
    else if |values| == 1 then Text(values[0])
    else List(values)
  }

  /** The value the flag at position `p` receives: the maximal run of non-flags after it. */
  function ValueAt(args: seq<string>, p: nat): ArgValue
    requires p < |args|
  {
    Shape(args[p + 1..RunEnd(args, p + 1)])
  }

  /** No flag between `p` and `end` has the same name as the flag at `p`. */
  predicate LastBefore(args: seq<string>, p: nat, end: nat)
    requires p < |args| && IsFlag(args[p]) && end <= |args|
  {
    forall q :: p < q < end && IsFlag(args[q]) ==> KeyOf(args[q]) != KeyOf(args[p])
  }

  /** The keys seen among the first `i` arguments are exactly the names of the flags there. */
  ghost predicate KeysUpTo(args: seq<string>, parsed: map<string, ArgValue>, i: nat)
    requires i <= |args|
  {
    forall k :: k in parsed <==> FlagNamed(args, k, i)
  }

  /** Some flag among the first `i` arguments is named `k`. */
  ghost predicate FlagNamed(args: seq<string>, k: string, i: nat)
    requires i <= |args|
  {
    exists p :: 0 <= p < i && IsFlag(args[p]) && KeyOf(args[p]) == k
  }

  /** Every flag among the first `i` arguments that is the last of its name there holds its value. */
  ghost predicate ValuesUpTo(args: seq<string>, parsed: map<string, ArgValue>, i: nat)
    requires i <= |args|
  {
    forall p :: 0 <= p < i && IsFlag(args[p]) && LastBefore(args, p, i) ==>
      KeyOf(args[p]) in parsed && parsed[KeyOf(args[p])] == ValueAt(args, p)
  }

  /** `parseArguments`: every `--name` becomes a key (arguments before the first
      flag are ignored), its value is the run of non-flags after it, and a
      repeated name keeps its last occurrence. */
  method ParseArguments(args: seq<string>) returns (parsed: map<string, ArgValue>)
    ensures forall k :: k in parsed <==> exists p :: 0 <= p < |args| && IsFlag(args[p]) && KeyOf(args[p]) == k
    ensures forall p :: 0 <= p < |args| && IsFlag(args[p]) && LastBefore(args, p, |args|) ==>
      KeyOf(args[p]) in parsed && parsed[KeyOf(args[p])] == ValueAt(args, p)
  {
    parsed := map[];
    var i := 0;
    while i < |args|
      invariant 0 <= i <= |args|
      invariant KeysUpTo(args, parsed, i) && ValuesUpTo(args, parsed, i)
    {
      if IsFlag(args[i]) {
        var key := args[i][2..];
        var values: seq<string> := [];
        var j := i + 1;
        while j < |args| && !IsFlag(args[j])
          invariant i + 1 <= j <= |args|
          invariant values == args[i + 1..j]
          invariant RunEnd(args, j) == RunEnd(args, i + 1)
        {
          values := values + [args[j]];
          j := j + 1;
        }
        FlagStep(args, parsed, i, j);
        parsed := parsed[key := Shape(values)];
        i := j - 1;
      } else {
        NonFlagStep(args, parsed, i);
      }
      i := i + 1;
    }
  }

  /** A flag and the run of values after it extend both invariants over the run. */
  lemma FlagStep(args: seq<string>, parsed: map<string, ArgValue>, i: nat, j: nat)
    requires i < |args| && IsFlag(args[i]) && j == RunEnd(args, i + 1)
    requires KeysUpTo(args, parsed, i) && ValuesUpTo(args, parsed, i)
    ensures var parsed' := parsed[KeyOf(args[i]) := ValueAt(args, i)];
      KeysUpTo(args, parsed', j) && ValuesUpTo(args, parsed', j)
  {
    FlagStepKeys(args, parsed, i, j);
    FlagStepValues(args, parsed, i, j);
  }

  lemma FlagStepKeys(args: seq<string>, parsed: map<string, ArgValue>, i: nat, j: nat)
    requires i < |args| && IsFlag(args[i]) && j == RunEnd(args, i + 1)
    requires KeysUpTo(args, parsed, i)
    ensures KeysUpTo(args, parsed[KeyOf(args[i]) := ValueAt(args, i)], j)
  {
    forall k
      ensures FlagNamed(args, k, j) <==> FlagNamed(args, k, i) || k == KeyOf(args[i])
    {
      FlagNamedOverRun(args, k, i, j);
    }
  }

  /** The flags up to the end of a flag's run are those before it and the flag itself. */
  lemma FlagNamedOverRun(args: seq<string>, k: string, i: nat, j: nat)
    requires i < |args| && IsFlag(args[i]) && j == RunEnd(args, i + 1)
    ensures FlagNamed(args, k, j) <==> FlagNamed(args, k, i) || k == KeyOf(args[i])
  {
    if FlagNamed(args, k, j) {
      var p :| 0 <= p < j && IsFlag(args[p]) && KeyOf(args[p]) == k;
      assert p <= i;
    }
    if FlagNamed(args, k, i) {
      var p :| 0 <= p < i && IsFlag(args[p]) && KeyOf(args[p]) == k;
      assert 0 <= p < j;
    }
    if k == KeyOf(args[i]) {
      assert 0 <= i < j && IsFlag(args[i]);
    }
  }

  lemma FlagStepValues(args: seq<string>, parsed: map<string, ArgValue>, i: nat, j: nat)
    requires i < |args| && IsFlag(args[i]) && j == RunEnd(args, i + 1)
    requires ValuesUpTo(args, parsed, i)
    ensures ValuesUpTo(args, parsed[KeyOf(args[i]) := ValueAt(args, i)], j)
  {
    var key := KeyOf(args[i]);
    var parsed' := parsed[key := ValueAt(args, i)];
    forall p | 0 <= p < j && IsFlag(args[p]) && LastBefore(args, p, j)
      ensures KeyOf(args[p]) in parsed' && parsed'[KeyOf(args[p])] == ValueAt(args, p)
    {
      if p < i {
        assert LastBefore(args, p, i);
        assert KeyOf(args[p]) != key;
      }
    }
  }

  /** An argument that is not a flag leaves the map as it is. */
  lemma NonFlagStep(args: seq<string>, parsed: map<string, ArgValue>, i: nat)
    requires i < |args| && !IsFlag(args[i])
    requires KeysUpTo(args, parsed, i) && ValuesUpTo(args, parsed, i)
    ensures KeysUpTo(args, parsed, i + 1) && ValuesUpTo(args, parsed, i + 1)
  {
    forall p | 0 <= p < i + 1 && IsFlag(args[p]) && LastBefore(args, p, i + 1)
      ensures KeyOf(args[p]) in parsed && parsed[KeyOf(args[p])] == ValueAt(args, p)
    {
      assert LastBefore(args, p, i);
    }
  }

  datatype Command =
    | Help
    | Version
    | Import(file: Option<string>)
    | Generate(count: Option<string>, path: Option<string>, url: Option<string>)
    | Unknown

  /** `main`'s choice of command once the arguments are parsed: no arguments
      or `--help` shows help, then `--version`, then `--import` (the first
      path when several follow), then `--generate` (its first three values). */
  function Dispatch(argCount: nat, parsed: map<string, ArgValue>): (c: Command)
    ensures argCount == 0 ==> c == Help
    ensures argCount > 0 ==> (c == Help <==> "help" in parsed)
    ensures c.Version? <==> argCount > 0 && "help" !in parsed && "version" in parsed
    ensures c.Import? ==> "import" in parsed && "help" !in parsed && "version" !in parsed
    ensures c.Generate? ==> "generate" in parsed && "import" !in parsed
    ensures c == Unknown <==> argCount > 0 && forall k :: k in parsed ==> k !in {"help", "version", "import", "generate"}
    ensures c.Import? ==> c.file == At(Items(parsed["import"]), 0)
    ensures c.Generate? ==> var ps := Items(parsed["generate"]);
      c.count == At(ps, 0) && c.path == At(ps, 1) && c.url == At(ps, 2)
  {
    if argCount == 0 || "help" in parsed then Help
    else if "version" in parsed then Version
    else if "import" in parsed then
      Import(match parsed["import"] case Text(s) => Some(s) case List(xs) => At(xs, 0))
    else if "generate" in parsed then
      var ps := match parsed["generate"] case Text(s) => [s] case List(xs) => xs;
      Generate(At(ps, 0), At(ps, 1), At(ps, 2))
    else Unknown
  }

  /** An option's value as an array: `Array.isArray(v) ? v : [v]`. */
  function Items(v: ArgValue): (xs: seq<string>)
    ensures |xs| >= 1 || v == List([])
  {
    match v
    case Text(s) => [s]
    case List(items) => items
  }

  /** The array an option holds, in terms of the arguments after it: `['true']`
      for a bare flag, and otherwise exactly those arguments. */
  lemma ItemsOfShape(values: seq<string>)
    ensures Items(Shape(values)) == if |values| == 0 then ["true"] else values
  {
  }

  /** `main` from the raw arguments: the command chosen, with the path of the
      last `--import` (its first value, or `'true'` when none follows) and the
      first three values after the last `--generate`. */
  method MainCommand(args: seq<string>) returns (c: Command)
    ensures |args| == 0 ==> c == Help
    ensures forall p :: 0 <= p < |args| && IsFlag(args[p]) && KeyOf(args[p]) == "import" && LastBefore(args, p, |args|) ==>
      var vs := args[p + 1..RunEnd(args, p + 1)];
      c.Import? ==> c.file == Some(if |vs| == 0 then "true" else vs[0])
    ensures forall p :: 0 <= p < |args| && IsFlag(args[p]) && KeyOf(args[p]) == "generate" && LastBefore(args, p, |args|) ==>
      var vs := args[p + 1..RunEnd(args, p + 1)];
      c.Generate? ==> c == Generate(Some(if |vs| == 0 then "true" else vs[0]), At(vs, 1), At(vs, 2))
  {
    var parsed := ParseArguments(args);
    c := Dispatch(|args|, parsed);
    forall p | 0 <= p < |args| && IsFlag(args[p]) && LastBefore(args, p, |args|)
      ensures Items(parsed[KeyOf(args[p])]) == var vs := args[p + 1..RunEnd(args, p + 1)]; if |vs| == 0 then ["true"] else vs
    {
      ItemsOfShape(args[p + 1..RunEnd(args, p + 1)]);
    }
  }

  /** `xs[i]`, `undefined` past the end. */
  function At(xs: seq<string>, i: nat): (r: Option<string>)
    ensures r.Some? <==> i < |xs|
  {
    if i < |xs| then Some(xs[i]) else None
  }

  datatype GenerateError = MissingArgument | BadCount

  /** A JavaScript string argument that may be `undefined` is truthy: present and non-empty. */
  predicate Given(v: Option<string>) {
    v.Some? && v.value != ""
  }

  /** `generateData`'s check of its arguments before it generates anything:
      all three must be given, and the count must parse to a positive integer. */
  function ValidateGenerate(count: Option<string>, path: Option<string>, url: Option<string>): (r: Result<nat, GenerateError>)
    ensures r == Err(MissingArgument) <==> !Given(count) || !Given(path) || !Given(url)
    ensures r.Ok? ==> r.value > 0 && ParseInt(count.value) == Fin(r.value as real)
    ensures r == Err(BadCount) <==> (Given(count) && Given(path) && Given(url)
      && (ParseInt(count.value).NaN? || (ParseInt(count.value).Fin? && ParseInt(count.value).value <= 0.0)))
  {
    if !Given(count) || !Given(path) || !Given(url) then Err(MissingArgument)
    else
      var n := ParseInt(count.value);
      if n.NaN? || (n.Fin? && n.value <= 0.0) then Err(BadCount)
      else
        assert n.Fin? && n.value == n.value.Floor as real;
        Ok(n.value.Floor as nat)
  }

  /** A count written as a positive decimal (with any leading whitespace) is accepted as that number. */
  lemma ValidateGenerateOfNumeral(w: string, n: nat, path: string, url: string)
    requires forall i :: 0 <= i < |w| ==> IsWhitespace(w[i])
    requires n > 0 && path != "" && url != ""
    ensures ValidateGenerate(Some(w + ShowInt(n)), Some(path), Some(url)) == Ok(n)
  {
    ParseIntOfShowInt(w, n, "");
    assert w + ShowInt(n) + "" == w + ShowInt(n);
  }
}
