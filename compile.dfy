/** `Compile` (parser.go): turns a configuration tree into a tree of compiled
    expressions of the same shape.

    `regexp.MustCompile` is the caller-supplied `compileRegex`; where it would
    panic (`None`), the whole compilation stops and reports the offending
    pattern, so a tree with an invalid pattern anywhere yields no parsers. */
module Compiler {
  import opened Regexp
  import opened Types

  datatype CompileResult = Compiled(parsers: seq<Parser>) | InvalidPattern(pattern: string)

  /** The failure a result carries, if any. */
  function FailureOf(r: CompileResult): Option<string> {
    match r
    case Compiled(_) => None
    case InvalidPattern(p) => Some(p)
  }

  /** What `Compile(config)` yields: the configurations are compiled in order,
      each pattern before its own sub-tree. */
  function Compilation(config: seq<Config>, compileRegex: string -> Option<Regex>): CompileResult
    decreases config
  {
    if config == [] then Compiled([])
    else
      var last := config[|config| - 1];
      match Compilation(config[..|config| - 1], compileRegex)
      case InvalidPattern(p) => InvalidPattern(p)
      case Compiled(done) =>
        match compileRegex(last.pattern)
        case None => InvalidPattern(last.pattern)
        case Some(r) =>
          match Compilation(last.submatch, compileRegex)
          case InvalidPattern(p) => InvalidPattern(p)
          case Compiled(children) => Compiled(done + [Parser(r, last.level, children)])
  }

  method Compile(config: seq<Config>, compileRegex: string -> Option<Regex>) returns (result: CompileResult)
    ensures result == Compilation(config, compileRegex)
    decreases config
  {
    var output: seq<Parser> := [];
    for n := 0 to |config|
      invariant Compilation(config[..n], compileRegex) == Compiled(output)
    {
      assert config[..n + 1][..n] == config[..n];
      var r := compileRegex(config[n].pattern);
      if r.None? {
        CompilationStopsAtFailure(config, n + 1, compileRegex);
        return InvalidPattern(config[n].pattern);
      }
      var s := Compile(config[n].submatch, compileRegex);
      if s.InvalidPattern? {
        CompilationStopsAtFailure(config, n + 1, compileRegex);
        return s;
      }
      output := output + [Parser(r.value, config[n].level, s.parsers)];
    }
    assert config[..|config|] == config;
    return Compiled(output);
  }

  /** Once a prefix of the forest fails, nothing after it is compiled and the
      failure is the result of the whole forest: there is no partial tree. */
  lemma {:induction false} CompilationStopsAtFailure(config: seq<Config>, n: nat, compileRegex: string -> Option<Regex>)
    requires n <= |config|
    requires Compilation(config[..n], compileRegex).InvalidPattern?
    ensures Compilation(config, compileRegex) == Compilation(config[..n], compileRegex)
    decreases |config| - n
  {
    if n < |config| {
      assert config[..n + 1][..n] == config[..n];
      CompilationStopsAtFailure(config, n + 1, compileRegex);
    } else {
      assert config[..n] == config;
    }
  }

  /** The compiled forest has the configuration's shape: one parser per
      configuration, in order, with its level, its compiled pattern and the
      compilation of its sub-configurations as children. */
  lemma {:induction false} CompilationKeepsShape(config: seq<Config>, compileRegex: string -> Option<Regex>)
    requires Compilation(config, compileRegex).Compiled?
    ensures var ps := Compilation(config, compileRegex).parsers;
      && |ps| == |config|
      && forall i :: 0 <= i < |config| ==>
           && ps[i].level == config[i].level
           && compileRegex(config[i].pattern) == Some(ps[i].regex)
           && Compilation(config[i].submatch, compileRegex) == Compiled(ps[i].submatch)
    decreases config
  {
    if config != [] {
      var prefix := config[..|config| - 1];
      CompilationKeepsShape(prefix, compileRegex);
      assert forall i :: 0 <= i < |prefix| ==> config[i] == prefix[i];
    }
  }

  /** Every pattern of a configuration forest, in the order `Compile` meets
      them: each node before its sub-tree, siblings left to right. */
  function Patterns(config: seq<Config>): seq<string>
    decreases config
  {
    if config == [] then []
    else
      var last := config[|config| - 1];
      Patterns(config[..|config| - 1]) + [last.pattern] + Patterns(last.submatch)
  }

  /** The first pattern of a list that does not compile. */
  function FirstInvalid(patterns: seq<string>, compileRegex: string -> Option<Regex>): (r: Option<string>)
    ensures r.None? <==> forall p :: p in patterns ==> compileRegex(p).Some?
    ensures r.Some? ==>
      exists k :: 0 <= k < |patterns| && patterns[k] == r.value && compileRegex(r.value).None?
        && forall j :: 0 <= j < k ==> compileRegex(patterns[j]).Some?
  {
    if patterns == [] then None
    else if compileRegex(patterns[0]).None? then
      Some(patterns[0])
    else
      var r := FirstInvalid(patterns[1..], compileRegex);
      if r.Some? then
        var k :| 0 <= k < |patterns[1..]| && patterns[1..][k] == r.value && compileRegex(r.value).None?
          && forall j :: 0 <= j < k ==> compileRegex(patterns[1..][j]).Some?;
        assert patterns[k + 1] == r.value;
        assert forall j :: 0 <= j < k + 1 ==> compileRegex(patterns[j]).Some? by {
          forall j | 0 <= j < k + 1 ensures compileRegex(patterns[j]).Some? {
            if j > 0 { assert patterns[j] == patterns[1..][j - 1]; }
          }
        }
        r
      else
        assert forall p :: p in patterns ==> p == patterns[0] || p in patterns[1..];
        r
  }

  lemma {:induction false} FirstInvalidAppend(a: seq<string>, b: seq<string>, compileRegex: string -> Option<Regex>)
    ensures FirstInvalid(a + b, compileRegex) ==
      if FirstInvalid(a, compileRegex).Some? then FirstInvalid(a, compileRegex) else FirstInvalid(b, compileRegex)
    decreases a
  {
    if a != [] {
      assert (a + b)[0] == a[0];
      assert (a + b)[1..] == a[1..] + b;
      FirstInvalidAppend(a[1..], b, compileRegex);
    } else {
      assert a + b == b;
    }
  }

  /** Compilation fails exactly when some pattern of the tree is invalid, and it
      reports the first invalid pattern in the order `Compile` visits them. */
  lemma {:induction false} CompilationFailsOnFirstInvalid(config: seq<Config>, compileRegex: string -> Option<Regex>)
    ensures FailureOf(Compilation(config, compileRegex)) == FirstInvalid(Patterns(config), compileRegex)
    decreases config
  {
    if config != [] {
      var prefix, last := config[..|config| - 1], config[|config| - 1];
      CompilationFailsOnFirstInvalid(prefix, compileRegex);
      CompilationFailsOnFirstInvalid(last.submatch, compileRegex);
      FirstInvalidAppend(Patterns(prefix) + [last.pattern], Patterns(last.submatch), compileRegex);
      FirstInvalidAppend(Patterns(prefix), [last.pattern], compileRegex);
      assert FirstInvalid([last.pattern], compileRegex) ==
        if compileRegex(last.pattern).None? then Some(last.pattern) else FirstInvalid([], compileRegex);
    }
  }
}
