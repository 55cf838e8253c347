// Redirecting the base images of a Dockerfile, instruction by instruction.
module BuildContexts {
  import opened Common
  import opened Lines
  import opened ArgExpansion
  import opened HubTwin

  /** `name` or `name=default` of an ARG instruction. */
  datatype Declaration = Declaration(name: string, default: Option<string>)

  /** An instruction that matters: the declarations of an ARG, the tokens of a FROM, or the
      sources another instruction pulls from. */
  datatype Instruction =
    | Arg(declarations: seq<Declaration>)
    | From(tokens: seq<string>)
    | Pull(sources: seq<string>)
    | Other

  datatype Warning = CannotResolve(word: string, why: Refusal) | NotOfficial(reference: string)

  /** What has been collected so far. */
  datatype Build = Build(args: Args, stages: set<string>, contexts: map<string, string>,
                         warnings: seq<Warning>, seenFrom: bool)

  /** The arguments known before the first instruction: the automatic ones whose values the
      caller or, for a build that runs, the platform states. */
  function Start(buildArgs: map<string, string>, platform: map<string, string>): Build {
    Build(map name | name in AUTOMATIC_PLATFORM_ARGS && (name in buildArgs || name in platform) ::
            Known(if name in buildArgs then buildArgs[name] else platform[name]),
          {}, map[], [], false)
  }

  // ----- one instruction -----

  function Declared(args: Args, d: Declaration, buildArgs: map<string, string>): Args {
    if d.name in buildArgs then args[d.name := Known(buildArgs[d.name])]
    else if d.default.None? && d.name in AUTOMATIC_PLATFORM_ARGS then args
    else if d.default.None? then args[d.name := Unset]
    else
      var value := Expansion(d.default.value, args);
      args[d.name := if value.Ok? then Known(value.value) else Unknown]
  }

  /** The arguments after the first `k` declarations. */
  function DeclaredAll(args: Args, ds: seq<Declaration>, k: nat, buildArgs: map<string, string>): Args
    requires k <= |ds|
  {
    if k == 0 then args else Declared(DeclaredAll(args, ds, k - 1, buildArgs), ds[k - 1], buildArgs)
  }

  /** Record the redirect of a reference that the build pulls from ECR Public. */
  function Considered(b: Build, reference: string): Build {
    if !OnEcr(reference) then b
    else if TwinOf(reference).None? then b.(warnings := b.warnings + [NotOfficial(reference)])
    else b.(contexts := b.contexts[reference := TwinOf(reference).value])
  }

  /** Resolve a word; its reference is considered unless it names an earlier stage. (A source of
      another instruction is not compared to `scratch`, which is not on ECR Public either way.) */
  function Resolved(b: Build, word: string): Build {
    var reference := Expansion(word, b.args);
    if reference.Err? then b.(warnings := b.warnings + [CannotResolve(word, reference.error)])
    else if Lower(reference.value) in b.stages || reference.value == "scratch" then b
    else Considered(b, reference.value)
  }

  /** The tokens that are not flags. */
  function Words(tokens: seq<string>): seq<string> {
    if tokens == [] then []
    else (if StartsWith(tokens[0], "--") then [] else [tokens[0]]) + Words(tokens[1..])
  }

  /** The stage a FROM names: the word after the first `AS`, from word `j` on. */
  function StageFrom(words: seq<string>, j: nat): Option<string>
    decreases |words| - j
  {
    if j + 1 >= |words| then None
    else if Lower(words[j]) == "as" then Some(Lower(words[j + 1]))
    else StageFrom(words, j + 1)
  }

  function AfterFrom(b: Build, tokens: seq<string>): Build {
    var words, b' := Words(tokens), b.(seenFrom := true);
    if words == [] then b'
    else
      var stage, r := StageFrom(words, 0), Resolved(b', words[0]);
      if stage.Some? && stage.value != "" then r.(stages := r.stages + {stage.value}) else r
  }

  predicate IsQuote(c: char) { c == '"' || c == '\'' }

  /** Without quotes at either end. */
  function Unquoted(s: string): string
    decreases |s|
  {
    if s != "" && IsQuote(s[0]) then Unquoted(s[1..])
    else if s != "" && IsQuote(s[|s| - 1]) then Unquoted(s[..|s| - 1])
    else s
  }

  predicate IsNumber(s: string) { s != "" && forall i :: 0 <= i < |s| ==> '0' <= s[i] <= '9' }

  function Pulled(b: Build, source: string): Build {
    var src := Unquoted(source);
    if IsNumber(src) || Lower(src) in b.stages then b else Resolved(b, src)
  }

  /** What the first `k` sources add. */
  function PulledAll(b: Build, sources: seq<string>, k: nat): Build
    requires k <= |sources|
  {
    if k == 0 then b else Pulled(PulledAll(b, sources, k - 1), sources[k - 1])
  }

  function Step(b: Build, instruction: Instruction, buildArgs: map<string, string>): Build {
    match instruction
    case Arg(ds) => if b.seenFrom then b else b.(args := DeclaredAll(b.args, ds, |ds|, buildArgs))
    case From(tokens) => AfterFrom(b, tokens)
    case Pull(sources) => PulledAll(b, sources, |sources|)
    case Other => b
  }

  /** What has been collected after the first `k` instructions. */
  function After(b: Build, file: seq<Instruction>, k: nat, buildArgs: map<string, string>): Build
    requires k <= |file|
  {
    if k == 0 then b else Step(After(b, file, k - 1, buildArgs), file[k - 1], buildArgs)
  }

  // ----- the run over the file -----

  method Resolve(b: Build, word: string) returns (r: Build)
    ensures r == Resolved(b, word)
  {
    var reference := Expand(word, b.args);
    if reference.Err? {
      return b.(warnings := b.warnings + [CannotResolve(word, reference.error)]);
    }
    if Lower(reference.value) in b.stages || reference.value == "scratch" {
      return b;
    }
    r := Considered(b, reference.value);
  }

  method Declare(b: Build, ds: seq<Declaration>, buildArgs: map<string, string>) returns (args: Args)
    ensures args == DeclaredAll(b.args, ds, |ds|, buildArgs)
  {
    args := b.args;
    for k := 0 to |ds|
      invariant args == DeclaredAll(b.args, ds, k, buildArgs)
    {
      var d := ds[k];
      if d.name in buildArgs {
        args := args[d.name := Known(buildArgs[d.name])];
      } else if d.default.None? && d.name in AUTOMATIC_PLATFORM_ARGS {
        continue;
      } else if d.default.None? {
        args := args[d.name := Unset];
      } else {
        var value := Expand(d.default.value, args);
        args := args[d.name := if value.Ok? then Known(value.value) else Unknown];
      }
    }
  }

  method PullAll(b: Build, sources: seq<string>) returns (r: Build)
    ensures r == PulledAll(b, sources, |sources|)
  {
    r := b;
    for k := 0 to |sources|
      invariant r == PulledAll(b, sources, k)
    {
      var src := Unquoted(sources[k]);
      if IsNumber(src) || Lower(src) in r.stages {
        continue;
      }
      r := Resolve(r, src);
    }
  }

  method FindStage(words: seq<string>) returns (stage: Option<string>)
    ensures stage == StageFrom(words, 0)
  {
    var j := 0;
    while j + 1 < |words|
      invariant StageFrom(words, 0) == StageFrom(words, j)
    {
      if Lower(words[j]) == "as" {
        return Some(Lower(words[j + 1]));
      }
      j := j + 1;
    }
    return None;
  }

  /** The redirects and warnings for a file, with the automatic arguments unknown. */
  method BuildContexts(file: seq<Instruction>, buildArgs: map<string, string>)
    returns (contexts: map<string, string>, warnings: seq<Warning>)
    ensures var b := After(Start(buildArgs, map[]), file, |file|, buildArgs);
            contexts == b.contexts && warnings == b.warnings
    ensures forall r :: r in contexts ==> TwinOf(r) == Some(contexts[r])
  {
    ghost var start := Start(buildArgs, map[]);
    RedirectedToTwins(file, |file|, start, buildArgs);
    var b := Start(buildArgs, map[]);
    for k := 0 to |file|
      invariant b == After(start, file, k, buildArgs)
    {
      hide Resolved, StageFrom, PulledAll, DeclaredAll, Words;
      match file[k]
      case Arg(ds) =>
        if b.seenFrom {
          continue;
        }
        var args := Declare(b, ds, buildArgs);
        b := b.(args := args);
      case From(tokens) =>
        b := b.(seenFrom := true);
        var words := Words(tokens);
        if words == [] {
          continue;
        }
        var stage := FindStage(words);
        b := Resolve(b, words[0]);
        if stage.Some? && stage.value != "" {
          b := b.(stages := b.stages + {stage.value});
        }
      case Pull(sources) =>
        b := PullAll(b, sources);
      case Other =>
    }
    return b.contexts, b.warnings;
  }

  // ----- what a file redirects -----

  /** A FROM of these words names the stage `s`: it stands after the first `AS`. */
  ghost predicate NamesStage(words: seq<string>, s: string) {
    s != "" && exists i: nat :: i + 1 < |words| && IsFirstAs(words, i) && s == Lower(words[i + 1])
  }

  ghost predicate IsFirstAs(words: seq<string>, i: nat) {
    i < |words| && Lower(words[i]) == "as" && forall k :: 0 <= k < i ==> Lower(words[k]) != "as"
  }

  /** The instruction pulls the image that `word` stands for, unless that is a stage. */
  ghost predicate Pulls(instruction: Instruction, word: string, stages: set<string>) {
    match instruction
    case From(tokens) => Words(tokens) != [] && word == Words(tokens)[0]
    case Pull(sources) => exists i: nat :: i < |sources| && PullsSource(sources[i], word, stages)
    case _ => false
  }

  ghost predicate PullsSource(source: string, word: string, stages: set<string>) {
    && word == Unquoted(source) && Lower(word) !in stages
    && (word == "" || exists i :: 0 <= i < |word| && word[i] !in "0123456789")
  }

  /** With what is known so far, the word stands for the official image `r` and not for a stage. */
  ghost predicate StandsFor(b: Build, word: string, r: string) {
    Expansion(word, b.args) == Ok(r) && Lower(r) !in b.stages && r != "scratch" && TwinOf(r).Some?
  }

  ghost predicate Redirects(b: Build, instruction: Instruction, r: string) {
    exists word :: Pulls(instruction, word, b.stages) && StandsFor(b, word, r)
  }

  lemma ResolvedAdds(b: Build, word: string, r: string)
    ensures r in Resolved(b, word).contexts <==> r in b.contexts || StandsFor(b, word, r)
    ensures Resolved(b, word).stages == b.stages && Resolved(b, word).args == b.args
    ensures Resolved(b, word).seenFrom == b.seenFrom
  {
    hide Expansion, Parse, Chomp;
  }

  lemma {:induction false} PulledAdds(b: Build, sources: seq<string>, k: nat, r: string)
    requires k <= |sources|
    ensures r in PulledAll(b, sources, k).contexts
            <==> || r in b.contexts
                 || exists i: nat, word :: i < k && PullsSource(sources[i], word, b.stages) && StandsFor(b, word, r)
    ensures PulledAll(b, sources, k).stages == b.stages && PulledAll(b, sources, k).args == b.args
    ensures PulledAll(b, sources, k).seenFrom == b.seenFrom
  {
    hide Resolved, StandsFor;
    if k > 0 {
      PulledAdds(b, sources, k - 1, r);
      var p, word := PulledAll(b, sources, k - 1), Unquoted(sources[k - 1]);
      ResolvedAdds(p, word, r);
      SameStanding(p, b, word, r);
    }
  }

  lemma SameStanding(p: Build, b: Build, word: string, r: string)
    requires p.stages == b.stages && p.args == b.args
    ensures StandsFor(p, word, r) <==> StandsFor(b, word, r)
  {
  }

  lemma {:induction false} StageIsFirstAs(words: seq<string>, j: nat, s: string)
    requires forall k :: 0 <= k < j && k < |words| ==> Lower(words[k]) != "as"
    ensures s != "" ==> (NamesStage(words, s) <==> StageFrom(words, j) == Some(s))
    decreases |words| - j
  {
    hide Lower;
    if j + 1 < |words| && Lower(words[j]) == "as" {
      assert IsFirstAs(words, j);
      assert forall i: nat :: IsFirstAs(words, i) ==> i == j;
    } else if j + 1 < |words| {
      StageIsFirstAs(words, j + 1, s);
    }
  }

  lemma StepAdds(b: Build, instruction: Instruction, buildArgs: map<string, string>, r: string)
    ensures r in Step(b, instruction, buildArgs).contexts <==> r in b.contexts || Redirects(b, instruction, r)
    ensures r in Step(b, instruction, buildArgs).stages
            <==> r in b.stages || (instruction.From? && NamesStage(Words(instruction.tokens), r))
    ensures Step(b, instruction, buildArgs).seenFrom <==> b.seenFrom || instruction.From?
    ensures b.seenFrom || instruction.From? ==> Step(b, instruction, buildArgs).args == b.args
  {
    match instruction
    case Arg(ds) => hide DeclaredAll;
    case From(tokens) =>
      var words := Words(tokens);
      StageIsFirstAs(words, 0, r);
      if words != [] {
        FromAdds(b, tokens, r);
      }
    case Pull(sources) =>
      PulledAdds(b, sources, |sources|, r);
      hide PulledAll, StandsFor, PullsSource;
    case Other =>
  }

  lemma FromAdds(b: Build, tokens: seq<string>, r: string)
    requires Words(tokens) != []
    ensures var s, stage := AfterFrom(b, tokens), StageFrom(Words(tokens), 0);
            && (r in s.contexts <==> r in b.contexts || StandsFor(b, Words(tokens)[0], r))
            && (r in s.stages <==> r in b.stages || (stage == Some(r) && r != ""))
            && s.args == b.args && s.seenFrom
  {
    ResolvedAdds(b.(seenFrom := true), Words(tokens)[0], r);
    hide Resolved, StageFrom, Words;
  }

  /** What a file redirects: exactly the official references that a FROM or another instruction
      pulls, with the arguments and stages known where it stands. A name is a stage exactly when
      an earlier FROM gives it, and arguments no longer change once a FROM is seen. */
  lemma {:induction false} RedirectedExactly(file: seq<Instruction>, k: nat, start: Build, buildArgs: map<string, string>, r: string)
    requires k <= |file| && start.contexts == map[] && start.stages == {} && !start.seenFrom
    ensures r in After(start, file, k, buildArgs).contexts
            <==> exists j: nat :: j < k && Redirects(After(start, file, j, buildArgs), file[j], r)
    ensures r in After(start, file, k, buildArgs).stages
            <==> exists j: nat :: j < k && file[j].From? && NamesStage(Words(file[j].tokens), r)
    ensures After(start, file, k, buildArgs).seenFrom <==> exists j: nat :: j < k && file[j].From?
    decreases k
  {
    hide Step, Redirects, NamesStage, Words;
    if k > 0 {
      RedirectedExactly(file, k - 1, start, buildArgs, r);
      StepAdds(After(start, file, k - 1, buildArgs), file[k - 1], buildArgs, r);
    }
  }

  /** What is redirected is redirected to its twin. */
  lemma {:induction false} RedirectedToTwins(file: seq<Instruction>, k: nat, start: Build, buildArgs: map<string, string>)
    requires k <= |file| && ToTwins(start)
    ensures ToTwins(After(start, file, k, buildArgs))
    decreases k
  {
    hide Step, ToTwins;
    if k > 0 {
      RedirectedToTwins(file, k - 1, start, buildArgs);
      StepToTwins(After(start, file, k - 1, buildArgs), file[k - 1], buildArgs);
    }
  }

  predicate ToTwins(b: Build) { forall r :: r in b.contexts ==> TwinOf(r) == Some(b.contexts[r]) }

  lemma StepToTwins(b: Build, instruction: Instruction, buildArgs: map<string, string>)
    requires ToTwins(b)
    ensures ToTwins(Step(b, instruction, buildArgs))
  {
    hide DeclaredAll, StageFrom, Words, TwinOf, OnEcr, Expansion;
    if instruction.Pull? {
      PulledToTwins(b, instruction.sources, |instruction.sources|);
    }
  }

  lemma {:induction false} PulledToTwins(b: Build, sources: seq<string>, k: nat)
    requires k <= |sources| && ToTwins(b)
    ensures ToTwins(PulledAll(b, sources, k))
  {
    hide Pulled, ToTwins;
    if k > 0 {
      PulledToTwins(b, sources, k - 1);
      OnePulledToTwin(PulledAll(b, sources, k - 1), sources[k - 1]);
    }
  }

  lemma OnePulledToTwin(b: Build, source: string)
    requires ToTwins(b)
    ensures ToTwins(Pulled(b, source))
  {
    hide TwinOf, OnEcr, Expansion, Unquoted, IsNumber;
  }

  // ----- words and quotes -----

  /** The words are the tokens that do not begin with two dashes, in their order. */
  lemma {:induction false} WordsExactly(a: seq<string>, token: string, b: seq<string>)
    ensures Words(a + [token] + b)
            == Words(a) + (if |token| >= 2 && token[0] == token[1] == '-' then [] else [token]) + Words(b)
    ensures Words([]) == []
    decreases |a|
  {
    NoWords();
    hide Words;
    if a == [] {
      assert a + [token] + b == [token] + b;
      FirstWord(token, b);
    } else {
      WordsExactly(a[1..], token, b);
      assert a + [token] + b == [a[0]] + (a[1..] + [token] + b);
      FirstWord(a[0], a[1..] + [token] + b);
      assert a == [a[0]] + a[1..];
      FirstWord(a[0], a[1..]);
    }
  }

  lemma NoWords()
    ensures Words([]) == []
  {
  }

  lemma FirstWord(token: string, b: seq<string>)
    ensures Words([token] + b) == (if |token| >= 2 && token[0] == token[1] == '-' then [] else [token]) + Words(b)
  {
    assert ([token] + b)[1..] == b;
    assert |token| >= 2 ==> (token[..2] == "--" <==> token[0] == token[1] == '-');
  }

  /** `r` is `s[i..j]`, and only quotes stand around it. */
  ghost predicate QuotedAround(s: string, i: nat, j: nat, r: string) {
    i <= j <= |s| && r == s[i..j] && forall k :: 0 <= k < i || j <= k < |s| ==> s[k] in {'"', '\''}
  }

  lemma QuotedBefore(s: string, i: nat, j: nat, r: string)
    requires s != "" && IsQuote(s[0]) && QuotedAround(s[1..], i, j, r)
    ensures QuotedAround(s, i + 1, j + 1, r)
  {
    assert forall k :: 1 <= k < |s| ==> s[k] == s[1..][k - 1];
  }

  lemma QuotedAfter(s: string, i: nat, j: nat, r: string)
    requires s != "" && IsQuote(s[|s| - 1]) && QuotedAround(s[..|s| - 1], i, j, r)
    ensures QuotedAround(s, i, j, r)
  {
    assert forall k :: 0 <= k < |s| - 1 ==> s[k] == s[..|s| - 1][k];
  }

  /** What remains of a text stands between quotes only, and has none at either end. */
  lemma {:induction false} UnquotedExactly(s: string)
    ensures exists i: nat, j: nat :: QuotedAround(s, i, j, Unquoted(s))
    ensures Unquoted(s) != "" ==> Unquoted(s)[0] !in {'"', '\''} && Unquoted(s)[|Unquoted(s)| - 1] !in {'"', '\''}
    decreases |s|
  {
    if s != "" && IsQuote(s[0]) {
      UnquotedExactly(s[1..]);
      hide QuotedAround;
      var i: nat, j: nat :| QuotedAround(s[1..], i, j, Unquoted(s));
      QuotedBefore(s, i, j, Unquoted(s));
      assert QuotedAround(s, i + 1, j + 1, Unquoted(s));
    } else if s != "" && IsQuote(s[|s| - 1]) {
      UnquotedExactly(s[..|s| - 1]);
      hide QuotedAround;
      var i: nat, j: nat :| QuotedAround(s[..|s| - 1], i, j, Unquoted(s));
      QuotedAfter(s, i, j, Unquoted(s));
      assert QuotedAround(s, i, j, Unquoted(s));
    } else {
      assert Unquoted(s) == s[0..|s|];
      assert QuotedAround(s, 0, |s|, Unquoted(s));
    }
  }

  // ----- what an ARG binds -----

  /** The declaration binds its name: a value is stated for it, or it has a default, or the name is
      not the builder's. */
  predicate Binding(d: Declaration, buildArgs: map<string, string>) {
    d.name in buildArgs || d.default.Some? || d.name !in AUTOMATIC_PLATFORM_ARGS
  }

  /** The value a declaration gives: the stated one, or its default expanded with the arguments
      before it, unknown if that is refused, or none. */
  ghost predicate Gives(d: Declaration, before: Args, buildArgs: map<string, string>, v: Value) {
    && (d.name in buildArgs ==> v == Known(buildArgs[d.name]))
    && (d.name !in buildArgs && d.default.None? ==> v == Unset)
    && (d.name !in buildArgs && d.default.Some? ==>
          && (Expansion(d.default.value, before).Ok? ==> v == Known(Expansion(d.default.value, before).value))
          && (Expansion(d.default.value, before).Err? ==> v == Unknown))
  }

  ghost predicate SameAt(a: Args, b: Args, name: string) {
    (name in a <==> name in b) && (name in b ==> a[name] == b[name])
  }

  /** `ds[m]` is the last of the first `k` declarations that binds the name. */
  ghost predicate LastIn(ds: seq<Declaration>, k: nat, buildArgs: map<string, string>, name: string, m: nat)
    requires k <= |ds|
  {
    && m < k && ds[m].name == name && Binding(ds[m], buildArgs)
    && forall i :: m < i < k && ds[i].name == name ==> !Binding(ds[i], buildArgs)
  }

  ghost predicate NoneIn(ds: seq<Declaration>, k: nat, buildArgs: map<string, string>, name: string)
    requires k <= |ds|
  {
    forall i :: 0 <= i < k && ds[i].name == name ==> !Binding(ds[i], buildArgs)
  }

  lemma OneBinds(args: Args, d: Declaration, buildArgs: map<string, string>, name: string)
    ensures var after := Declared(args, d, buildArgs);
            if d.name == name && Binding(d, buildArgs) then name in after && Gives(d, args, buildArgs, after[name])
            else SameAt(after, args, name)
  {
    hide Expansion;
  }

  lemma {:induction false} AllKeep(args: Args, ds: seq<Declaration>, k: nat, buildArgs: map<string, string>, name: string)
    requires k <= |ds| && NoneIn(ds, k, buildArgs, name)
    ensures SameAt(DeclaredAll(args, ds, k, buildArgs), args, name)
  {
    hide Declared, Binding;
    if k > 0 {
      AllKeep(args, ds, k - 1, buildArgs, name);
      OneBinds(DeclaredAll(args, ds, k - 1, buildArgs), ds[k - 1], buildArgs, name);
    }
  }

  lemma {:induction false} LastBinds(args: Args, ds: seq<Declaration>, k: nat, buildArgs: map<string, string>, name: string, m: nat)
    requires k <= |ds| && LastIn(ds, k, buildArgs, name, m)
    ensures var after := DeclaredAll(args, ds, k, buildArgs);
            name in after && Gives(ds[m], DeclaredAll(args, ds, m, buildArgs), buildArgs, after[name])
  {
    hide Declared, Binding, Gives;
    OneBinds(DeclaredAll(args, ds, k - 1, buildArgs), ds[k - 1], buildArgs, name);
    if m < k - 1 {
      LastBinds(args, ds, k - 1, buildArgs, name, m);
    }
  }

  /** Instruction `j` is an ARG before every FROM. */
  ghost predicate Reaches(file: seq<Instruction>, j: nat) {
    j < |file| && file[j].Arg? && forall i :: 0 <= i < j ==> !file[i].From?
  }

  /** The last binding of the name before every FROM, in the first `k` instructions: declaration `m`
      of instruction `j`. */
  ghost predicate LastBinding(file: seq<Instruction>, k: nat, buildArgs: map<string, string>, name: string, j: nat, m: nat)
    requires k <= |file|
  {
    && j < k && Reaches(file, j) && LastIn(file[j].declarations, |file[j].declarations|, buildArgs, name, m)
    && forall i: nat :: j < i < k && Reaches(file, i) ==>
                     NoneIn(file[i].declarations, |file[i].declarations|, buildArgs, name)
  }

  ghost predicate NoBinding(file: seq<Instruction>, k: nat, buildArgs: map<string, string>, name: string)
    requires k <= |file|
  {
    forall i: nat :: i < k && Reaches(file, i) ==> NoneIn(file[i].declarations, |file[i].declarations|, buildArgs, name)
  }

  /** The arguments that declaration `m` of instruction `j` sees. */
  function SeenBy(start: Build, file: seq<Instruction>, j: nat, m: nat, buildArgs: map<string, string>): Args
    requires j < |file| && file[j].Arg? && m <= |file[j].declarations|
  {
    DeclaredAll(After(start, file, j, buildArgs).args, file[j].declarations, m, buildArgs)
  }

  lemma {:induction false} SeenFromExactly(file: seq<Instruction>, k: nat, start: Build, buildArgs: map<string, string>)
    requires k <= |file| && !start.seenFrom
    ensures After(start, file, k, buildArgs).seenFrom <==> exists j :: 0 <= j < k && file[j].From?
  {
    hide Step;
    if k > 0 {
      SeenFromExactly(file, k - 1, start, buildArgs);
      StepAdds(After(start, file, k - 1, buildArgs), file[k - 1], buildArgs, "");
    }
  }

  /** One instruction changes the arguments only if it is an ARG before every FROM, and then by its
      declarations. */
  lemma StepBinds(file: seq<Instruction>, k: nat, start: Build, buildArgs: map<string, string>)
    requires k < |file| && !start.seenFrom
    ensures var before, after := After(start, file, k, buildArgs).args, After(start, file, k + 1, buildArgs).args;
            after == if Reaches(file, k)
                     then DeclaredAll(before, file[k].declarations, |file[k].declarations|, buildArgs) else before
  {
    SeenFromExactly(file, k, start, buildArgs);
    var b := After(start, file, k, buildArgs);
    match file[k]
    case Arg(ds) => hide DeclaredAll, After;
    case From(tokens) => StepAdds(b, file[k], buildArgs, "");
    case Pull(sources) => PulledAdds(b, sources, |sources|, "");
    case Other =>
  }

  /** What an argument is at any place of a file: the value that its last binding before every FROM
      gives, a stated value if there is one, and without a binding what it was at the start. A name of
      the builder's that is only declared keeps its value. */
  lemma {:induction false} BoundExactly(file: seq<Instruction>, k: nat, start: Build, buildArgs: map<string, string>, name: string)
    requires k <= |file| && !start.seenFrom
    ensures NoBinding(file, k, buildArgs, name) ==> SameAt(After(start, file, k, buildArgs).args, start.args, name)
    ensures forall j: nat, m: nat :: LastBinding(file, k, buildArgs, name, j, m) ==>
              var args := After(start, file, k, buildArgs).args;
              name in args && Gives(file[j].declarations[m], SeenBy(start, file, j, m, buildArgs), buildArgs, args[name])
    decreases k
  {
    hide Gives, Step, Declared, Binding, NoneIn, SameAt;
    if k == 0 {
      SameAsItself(start.args, name);
    } else {
      BoundExactly(file, k - 1, start, buildArgs, name);
      StepBinds(file, k - 1, start, buildArgs);
      var before := After(start, file, k - 1, buildArgs).args;
      var after := After(start, file, k, buildArgs).args;
      if Reaches(file, k - 1) {
        var ds := file[k - 1].declarations;
        if NoneIn(ds, |ds|, buildArgs, name) {
          AllKeep(before, ds, |ds|, buildArgs, name);
        }
        SameThrough(after, before, start.args, name);
        SameReads(after, before, name);
        forall j: nat, m: nat | LastBinding(file, k, buildArgs, name, j, m)
          ensures name in after && Gives(file[j].declarations[m], SeenBy(start, file, j, m, buildArgs), buildArgs, after[name])
        {
          if j < k - 1 {
            assert LastBinding(file, k - 1, buildArgs, name, j, m);
          } else {
            LastBinds(before, ds, |ds|, buildArgs, name, m);
          }
        }
      } else {
        assert forall j: nat, m: nat :: LastBinding(file, k, buildArgs, name, j, m) ==>
                 LastBinding(file, k - 1, buildArgs, name, j, m);
      }
    }
  }

  lemma SameAsItself(a: Args, name: string)
    ensures SameAt(a, a, name)
  {
  }

  lemma SameThrough(a: Args, b: Args, c: Args, name: string)
    ensures SameAt(a, b, name) && SameAt(b, c, name) ==> SameAt(a, c, name)
  {
  }

  lemma SameReads(a: Args, b: Args, name: string)
    ensures SameAt(a, b, name) && name in b ==> name in a && a[name] == b[name]
  {
  }

  /** A stated value wins: a name that an ARG before every FROM declares has the value that the caller
      states for it, whatever its default. */
  lemma {:induction false} StatedValueWins(file: seq<Instruction>, k: nat, start: Build, buildArgs: map<string, string>, name: string, j: nat, m: nat)
    requires j < k <= |file| && !start.seenFrom && name in buildArgs && Reaches(file, j)
    requires m < |file[j].declarations| && file[j].declarations[m].name == name
    ensures var args := After(start, file, k, buildArgs).args; name in args && args[name] == Known(buildArgs[name])
    decreases k
  {
    StepBinds(file, k - 1, start, buildArgs);
    var before := After(start, file, k - 1, buildArgs).args;
    hide Step, Declared, After, DeclaredAll;
    if Reaches(file, k - 1) {
      var ds := file[k - 1].declarations;
      StatedAll(before, ds, |ds|, buildArgs, name);
    }
    if j < k - 1 {
      StatedValueWins(file, k - 1, start, buildArgs, name, j, m);
    }
  }

  lemma {:induction false} StatedAll(args: Args, ds: seq<Declaration>, k: nat, buildArgs: map<string, string>, name: string)
    requires k <= |ds| && name in buildArgs
    ensures var after := DeclaredAll(args, ds, k, buildArgs);
            if exists i :: 0 <= i < k && ds[i].name == name then name in after && after[name] == Known(buildArgs[name])
            else SameAt(after, args, name)
  {
    hide Expansion;
    if k > 0 {
      StatedAll(args, ds, k - 1, buildArgs, name);
    }
  }

  /** Before the first instruction only the builder's own names are bound: to the value stated, or else
      to the platform's. */
  lemma StartBinds(buildArgs: map<string, string>, platform: map<string, string>, name: string)
    ensures var b := Start(buildArgs, platform);
            && (name in b.args <==> name in AUTOMATIC_PLATFORM_ARGS && (name in buildArgs || name in platform))
            && (name in b.args && name in buildArgs ==> b.args[name] == Known(buildArgs[name]))
            && (name in b.args && name !in buildArgs ==> b.args[name] == Known(platform[name]))
            && b.stages == {} && b.contexts == map[] && b.warnings == [] && !b.seenFrom
  {
  }

  // ----- which words are given up on -----

  /** With what is known so far, the word is given up on, or its reference is: the expansion is
      refused, or it stands for a reference on ECR Public that names no official image. */
  ghost predicate GivesUp(b: Build, word: string, w: Warning) {
    match w
    case CannotResolve(refused, why) => refused == word && Expansion(word, b.args) == Err(why)
    case NotOfficial(r) =>
      && Expansion(word, b.args) == Ok(r) && Lower(r) !in b.stages && r != "scratch"
      && Occurs(r, 0, "public.ecr.aws/docker/library/") && TwinOf(r).None?
  }

  ghost predicate Warns(b: Build, instruction: Instruction, w: Warning) {
    exists word :: Pulls(instruction, word, b.stages) && GivesUp(b, word, w)
  }

  lemma OnEcrExactly(r: string)
    ensures OnEcr(r) <==> Occurs(r, 0, "public.ecr.aws/docker/library/")
  {
    assert |ECR_LIBRARY| <= |r| ==> r[..|ECR_LIBRARY|] == r[0..0 + |ECR_LIBRARY|];
  }

  lemma ResolvedWarns(b: Build, word: string, w: Warning)
    ensures w in Resolved(b, word).warnings <==> w in b.warnings || GivesUp(b, word, w)
  {
    forall r ensures OnEcr(r) <==> Occurs(r, 0, "public.ecr.aws/docker/library/") {
      OnEcrExactly(r);
    }
    hide Expansion, TwinOf, OnEcr, Occurs;
  }

  lemma {:induction false} PulledWarns(b: Build, sources: seq<string>, k: nat, w: Warning)
    requires k <= |sources|
    ensures w in PulledAll(b, sources, k).warnings
            <==> || w in b.warnings
                 || exists i: nat, word :: i < k && PullsSource(sources[i], word, b.stages) && GivesUp(b, word, w)
  {
    hide Resolved, GivesUp;
    if k > 0 {
      PulledWarns(b, sources, k - 1, w);
      PulledAdds(b, sources, k - 1, "");
      var p, word := PulledAll(b, sources, k - 1), Unquoted(sources[k - 1]);
      ResolvedWarns(p, word, w);
      SameGiving(p, b, word, w);
    }
  }

  lemma SameGiving(p: Build, b: Build, word: string, w: Warning)
    requires p.stages == b.stages && p.args == b.args
    ensures GivesUp(p, word, w) <==> GivesUp(b, word, w)
  {
  }

  lemma StepWarns(b: Build, instruction: Instruction, buildArgs: map<string, string>, w: Warning)
    ensures w in Step(b, instruction, buildArgs).warnings <==> w in b.warnings || Warns(b, instruction, w)
  {
    match instruction
    case Arg(ds) => hide DeclaredAll;
    case From(tokens) =>
      if Words(tokens) != [] {
        var seen := b.(seenFrom := true);
        ResolvedWarns(seen, Words(tokens)[0], w);
        SameGiving(seen, b, Words(tokens)[0], w);
        hide Resolved, StageFrom, Words, GivesUp;
      }
    case Pull(sources) =>
      PulledWarns(b, sources, |sources|, w);
      hide PulledAll, GivesUp, PullsSource;
    case Other =>
  }

  /** Which warnings a file gets: exactly one kind for each word that an instruction pulls and whose
      expansion is refused, with the reason, and one for each reference on ECR Public that such a
      word stands for and that names no official image. */
  lemma {:induction false} WarnedExactly(file: seq<Instruction>, k: nat, start: Build, buildArgs: map<string, string>, w: Warning)
    requires k <= |file| && start.warnings == []
    ensures w in After(start, file, k, buildArgs).warnings
            <==> exists j: nat :: j < k && Warns(After(start, file, j, buildArgs), file[j], w)
    decreases k
  {
    hide Step, Warns;
    if k > 0 {
      WarnedExactly(file, k - 1, start, buildArgs, w);
      StepWarns(After(start, file, k - 1, buildArgs), file[k - 1], buildArgs, w);
    }
  }

  /** An ARG after the first FROM cannot reach any reference. */
  lemma {:induction false} ArgsFrozen(file: seq<Instruction>, j: nat, k: nat, start: Build, buildArgs: map<string, string>)
    requires j < k <= |file| && file[j].From?
    ensures After(start, file, k, buildArgs).args == After(start, file, j, buildArgs).args
    ensures After(start, file, k, buildArgs).seenFrom
    decreases k
  {
    hide Step;
    if j < k - 1 {
      ArgsFrozen(file, j, k - 1, start, buildArgs);
    }
    StepAdds(After(start, file, k - 1, buildArgs), file[k - 1], buildArgs, "");
  }

  // ----- what is unknown stays out -----

  /** Every redirect leads to the twin of its reference. */
  ghost predicate TwinsOnly(b: Build) {
    forall r :: r in b.contexts ==> TwinOf(r) == Some(b.contexts[r])
  }

  ghost predicate AllResolved(b: Build) { forall w :: w in b.warnings ==> w.NotOfficial? }

  /** `a` knows less than `c`: what it redirects `c` redirects too, and once nothing was left
      unresolved the two redirect the same. */
  ghost predicate Agrees(a: Build, c: Build) {
    && Refines(a.args, c.args) && a.stages == c.stages && a.seenFrom == c.seenFrom
    && TwinsOnly(a) && TwinsOnly(c) && a.contexts.Keys <= c.contexts.Keys
    && (AllResolved(a) ==> a.contexts.Keys == c.contexts.Keys)
  }

  lemma ConsideredAgrees(a: Build, c: Build, reference: string)
    requires Agrees(a, c)
    ensures Agrees(Considered(a, reference), Considered(c, reference))
  {
    hide TwinOf, OnEcr, Refines;
    var a' := Considered(a, reference);
    assert AllResolved(a') ==> AllResolved(a) by {
      assert forall w :: w in a.warnings ==> w in a'.warnings;
    }
  }

  lemma OnlyThere(a: Build, c: Build, reference: string, w: Warning)
    requires Agrees(a, c) && w.CannotResolve?
    ensures Agrees(a.(warnings := a.warnings + [w]), Considered(c, reference))
    ensures Agrees(a.(warnings := a.warnings + [w]), c)
  {
    hide TwinOf, OnEcr, Refines;
    assert w in a.warnings + [w];
  }

  lemma ResolvedAgrees(a: Build, c: Build, word: string)
    requires Agrees(a, c)
    ensures Agrees(Resolved(a, word), Resolved(c, word))
  {
    var r, q := Expansion(word, a.args), Expansion(word, c.args);
    assert Refines(a.args, c.args) && a.stages == c.stages;
    hide Agrees, Considered;
    if r.Ok? {
      ExpansionRefines(word, a.args, c.args);
      ConsideredAgrees(a, c, r.value);
    } else {
      var w := CannotResolve(word, r.error);
      var a' := a.(warnings := a.warnings + [w]);
      if q.Ok? {
        OnlyThere(a, c, q.value, w);
      } else {
        OnlyThere(a, c, "", w);
      }
    }
  }

  lemma DeclaredRefines(a: Args, c: Args, d: Declaration, buildArgs: map<string, string>)
    requires Refines(a, c)
    ensures Refines(Declared(a, d, buildArgs), Declared(c, d, buildArgs))
  {
    if d.default.Some? && Expansion(d.default.value, a).Ok? {
      ExpansionRefines(d.default.value, a, c);
    }
    hide Expansion;
    var a', c' := Declared(a, d, buildArgs), Declared(c, d, buildArgs);
    forall name | ValueOf(name, a').Ok? ensures ValueOf(name, c') == ValueOf(name, a') {
      if name != d.name {
        assert ValueOf(name, a') == ValueOf(name, a) && ValueOf(name, c') == ValueOf(name, c);
      }
    }
  }

  lemma {:induction false} DeclaredAllRefines(a: Args, c: Args, ds: seq<Declaration>, k: nat, buildArgs: map<string, string>)
    requires Refines(a, c) && k <= |ds|
    ensures Refines(DeclaredAll(a, ds, k, buildArgs), DeclaredAll(c, ds, k, buildArgs))
  {
    hide Refines, Declared;
    if k > 0 {
      DeclaredAllRefines(a, c, ds, k - 1, buildArgs);
      DeclaredRefines(DeclaredAll(a, ds, k - 1, buildArgs), DeclaredAll(c, ds, k - 1, buildArgs), ds[k - 1], buildArgs);
    }
  }

  lemma {:induction false} PulledAgrees(a: Build, c: Build, sources: seq<string>, k: nat)
    requires Agrees(a, c) && k <= |sources|
    ensures Agrees(PulledAll(a, sources, k), PulledAll(c, sources, k))
  {
    if k > 0 {
      PulledAgrees(a, c, sources, k - 1);
      var a', c' := PulledAll(a, sources, k - 1), PulledAll(c, sources, k - 1);
      assert a'.stages == c'.stages;
      hide Agrees, Resolved;
      ResolvedAgrees(a', c', Unquoted(sources[k - 1]));
    }
  }

  lemma FromAgrees(a: Build, c: Build, tokens: seq<string>)
    requires Agrees(a, c)
    ensures Agrees(AfterFrom(a, tokens), AfterFrom(c, tokens))
  {
    var words := Words(tokens);
    var a', c' := a.(seenFrom := true), c.(seenFrom := true);
    assert Agrees(a', c');
    if words != [] {
      ResolvedAgrees(a', c', words[0]);
      hide Resolved, Words, StageFrom, TwinsOnly, AllResolved, Refines;
      var ra, rc := Resolved(a', words[0]), Resolved(c', words[0]);
      if StageFrom(words, 0).Some? {
        StageAdded(ra, rc, StageFrom(words, 0).value);
      }
    }
  }

  lemma StageAdded(a: Build, c: Build, stage: string)
    requires Agrees(a, c)
    ensures Agrees(a.(stages := a.stages + {stage}), c.(stages := c.stages + {stage}))
  {
  }

  lemma StepAgrees(a: Build, c: Build, instruction: Instruction, buildArgs: map<string, string>)
    requires Agrees(a, c)
    ensures Agrees(Step(a, instruction, buildArgs), Step(c, instruction, buildArgs))
  {
    match instruction
    case Arg(ds) =>
      DeclaredAllRefines(a.args, c.args, ds, |ds|, buildArgs);
      hide DeclaredAll;
    case From(tokens) =>
      hide Agrees, AfterFrom;
      FromAgrees(a, c, tokens);
    case Pull(sources) =>
      hide Agrees, PulledAll;
      PulledAgrees(a, c, sources, |sources|);
    case Other =>
  }

  lemma StartAgrees(buildArgs: map<string, string>, platform: map<string, string>)
    ensures Agrees(Start(buildArgs, map[]), Start(buildArgs, platform))
  {
  }

  lemma {:induction false} AfterAgrees(file: seq<Instruction>, k: nat, buildArgs: map<string, string>, platform: map<string, string>)
    requires k <= |file|
    ensures Agrees(After(Start(buildArgs, map[]), file, k, buildArgs),
                   After(Start(buildArgs, platform), file, k, buildArgs))
  {
    hide Agrees, Step, Start;
    if k == 0 {
      StartAgrees(buildArgs, platform);
    } else {
      AfterAgrees(file, k - 1, buildArgs, platform);
      StepAgrees(After(Start(buildArgs, map[]), file, k - 1, buildArgs),
                 After(Start(buildArgs, platform), file, k - 1, buildArgs), file[k - 1], buildArgs);
    }
  }

  /** Whatever values the builder gives its automatic arguments: wherever in the file the expander
      resolves a word without knowing them, the build that knows them resolves it to the same
      reference. Every redirect is one that build needs, and leads to the twin of its reference;
      when no word was left unresolved, the redirects are exactly those of that build. */
  lemma UnknownsAreSound(file: seq<Instruction>, k: nat, buildArgs: map<string, string>, platform: map<string, string>)
    requires k <= |file|
    ensures var a := After(Start(buildArgs, map[]), file, k, buildArgs);
            var c := After(Start(buildArgs, platform), file, k, buildArgs);
            && (forall word :: Expansion(word, a.args).Ok? ==> Expansion(word, c.args) == Expansion(word, a.args))
            && (forall r :: r in a.contexts ==> r in c.contexts && TwinOf(r) == Some(a.contexts[r]) == Some(c.contexts[r]))
            && (AllResolved(a) ==> a.contexts == c.contexts)
  {
    AfterAgrees(file, k, buildArgs, platform);
    var a := After(Start(buildArgs, map[]), file, k, buildArgs);
    var c := After(Start(buildArgs, platform), file, k, buildArgs);
    hide After, Start, TwinOf, AllResolved;
    forall word | Expansion(word, a.args).Ok? ensures Expansion(word, c.args) == Expansion(word, a.args) {
      ExpansionRefines(word, a.args, c.args);
    }
    assert forall r :: r in a.contexts ==> r in c.contexts.Keys;
    if AllResolved(a) {
      forall r | r in c.contexts ensures r in a.contexts.Keys && a.contexts[r] == c.contexts[r] {
        assert TwinOf(r) == Some(a.contexts[r]);
      }
    }
  }
}
