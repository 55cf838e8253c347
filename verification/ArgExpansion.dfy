// Variable expansion in Dockerfile references, with values only the builder knows.
module ArgExpansion {
  import opened Common
  import opened Lines

  /** Why a reference has no value the expander can know. */
  datatype Refusal = Unterminated | Unsupported | SetByBuilder(name: string) | DefaultUnknown(name: string)

  /** A declared argument: without a value, with one, or with one that depends on the builder. */
  datatype Value = Unset | Known(text: string) | Unknown

  type Args = map<string, Value>

  const AUTOMATIC_PLATFORM_ARGS: set<string> :=
    {"BUILDPLATFORM", "BUILDOS", "BUILDARCH", "BUILDVARIANT",
     "TARGETPLATFORM", "TARGETOS", "TARGETARCH", "TARGETVARIANT"}

  /** The builder's own arguments are the four parts of the two platforms. */
  lemma BuildersNames(name: string)
    ensures name in AUTOMATIC_PLATFORM_ARGS
            <==> exists side, part :: side in {"BUILD", "TARGET"} && part in {"PLATFORM", "OS", "ARCH", "VARIANT"}
                                      && name == side + part
  {
    assert "BUILD" + "PLATFORM" == "BUILDPLATFORM" && "TARGET" + "PLATFORM" == "TARGETPLATFORM";
    assert "BUILD" + "OS" == "BUILDOS" && "TARGET" + "OS" == "TARGETOS";
    assert "BUILD" + "ARCH" == "BUILDARCH" && "TARGET" + "ARCH" == "TARGETARCH";
    assert "BUILD" + "VARIANT" == "BUILDVARIANT" && "TARGET" + "VARIANT" == "TARGETVARIANT";
  }

  function ValueOf(name: string, args: Args): Result<Option<string>, Refusal> {
    if name in args then
      match args[name]
      case Unset => Ok(None)
      case Known(text) => Ok(Some(text))
      case Unknown => Err(DefaultUnknown(name))
    else if name in AUTOMATIC_PLATFORM_ARGS then Err(SetByBuilder(name))
    else Ok(None)
  }

  predicate NameStart(c: char) { IsWordChar(c) && !('0' <= c <= '9') }

  lemma NameStarts(c: char)
    ensures NameStart(c) <==> c in LOWER || c in UPPER || c == '_'
  {
    Letters(c);
    hide LOWER, UPPER;
  }

  /** End of the run of word characters from `i` on. */
  function RunEnd(w: string, i: nat): (e: nat)
    requires i <= |w|
    ensures i <= e <= |w|
    decreases |w| - i
  {
    if i < |w| && IsWordChar(w[i]) then RunEnd(w, i + 1) else i
  }

  /** End of the variable name that stands at `i`, or `i` if none does. */
  function NameEnd(w: string, i: nat): (e: nat)
    requires i <= |w|
    ensures i <= e <= |w|
  {
    if i < |w| && NameStart(w[i]) then RunEnd(w, i + 1) else i
  }

  /** The brace that closes `depth` open ones, from `i` on; a backslash takes the next character
      with it. */
  function BraceFrom(w: string, i: nat, depth: nat): (end: Result<nat, Refusal>)
    requires depth > 0
    ensures end.Ok? ==> i <= end.value < |w| && w[end.value] == '}'
    ensures end.Err? ==> end.error == Unterminated
    decreases if i < |w| then |w| - i else 0
  {
    if i >= |w| then Err(Unterminated)
    else if w[i] == '\\' then BraceFrom(w, i + 2, depth)
    else if Two(w, i, '$', '{') then BraceFrom(w, i + 2, depth + 1)
    else if w[i] == '}' then (if depth == 1 then Ok(i) else BraceFrom(w, i + 1, depth - 1))
    else BraceFrom(w, i + 1, depth)
  }

  /** In a word read from `start` on, a character is escaped when an unescaped backslash stands
      before it. */
  predicate Escaped(w: string, start: nat, i: nat)
    requires i <= |w|
  {
    i > start && w[i - 1] == '\\' && !Escaped(w, start, i - 1)
  }

  /** What an unescaped character at `i` does to the nesting: `${` opens, `}` closes. */
  function Nests(w: string, start: nat, i: nat): int
    requires i < |w|
  {
    if Escaped(w, start, i) then 0
    else if Two(w, i, '$', '{') then 1
    else if w[i] == '}' then -1
    else 0
  }

  /** How many braces are open before `i`, one having been opened before `start`. */
  function Depth(w: string, start: nat, i: nat): int
    requires start <= i <= |w|
  {
    if i == start then 1 else Depth(w, start, i - 1) + Nests(w, start, i - 1)
  }

  /** The brace at `end` is the first that leaves none open. */
  ghost predicate Closes(w: string, start: nat, end: nat) {
    && start <= end < |w| && Depth(w, start, end + 1) == 0
    && forall j :: start <= j <= end ==> Depth(w, start, j) > 0
  }

  lemma {:induction false} BraceFromCloses(w: string, start: nat, i: nat, depth: nat, end: nat)
    requires start <= i && depth > 0
    requires if i <= |w| then !Escaped(w, start, i) && Depth(w, start, i) == depth else i == |w| + 1
    requires forall j :: start <= j <= i && j <= |w| ==> Depth(w, start, j) > 0
    ensures BraceFrom(w, i, depth) == Ok(end) <==> Closes(w, start, end)
    decreases if i < |w| then |w| - i else 0
  {
    if i >= |w| {
      assert start <= end < |w| ==> Depth(w, start, end + 1) > 0;
    } else if w[i] == '\\' {
      assert Depth(w, start, i + 1) == depth;
      assert i + 1 < |w| ==> Escaped(w, start, i + 1) && Depth(w, start, i + 2) == depth;
      BraceFromCloses(w, start, i + 2, depth, end);
    } else if Two(w, i, '$', '{') {
      assert Depth(w, start, i + 1) == depth + 1 && !Escaped(w, start, i + 1);
      assert Depth(w, start, i + 2) == depth + 1;
      BraceFromCloses(w, start, i + 2, depth + 1, end);
    } else if w[i] == '}' && depth == 1 {
      assert Depth(w, start, i + 1) == 0;
      assert Closes(w, start, i);
      assert Closes(w, start, end) ==> end == i;
    } else {
      BraceFromCloses(w, start, i + 1, if w[i] == '}' then depth - 1 else depth, end);
    }
  }

  /** The search finds the brace that closes the one opened before `start`, counting the unescaped
      `${` and `}` between, and is refused exactly when no brace does. */
  lemma BraceFoundExactly(w: string, start: nat, end: nat)
    ensures BraceFrom(w, start, 1) == Ok(end) <==> Closes(w, start, end)
  {
    if start <= |w| {
      BraceFromCloses(w, start, start, 1, end);
    }
  }

  datatype Op = Plain | IfEmpty | IfUnset | UnlessEmpty | UnlessUnset

  /** The operator that stands at `e` after a name, and where its operand begins. A bare name may
      be followed by one newline at the very end. */
  function OpAt(inner: string, e: nat): Option<(Op, nat)>
    requires e <= |inner|
  {
    if e == |inner| || (e + 1 == |inner| && inner[e] == '\n') then Some((Plain, |inner|))
    else if Two(inner, e, ':', '-') then Some((IfEmpty, e + 2))
    else if inner[e] == '-' then Some((IfUnset, e + 1))
    else if Two(inner, e, ':', '+') then Some((UnlessEmpty, e + 2))
    else if inner[e] == '+' then Some((UnlessUnset, e + 1))
    else None
  }

  function OrEmpty(value: Option<string>): string { if value.Some? then value.value else "" }

  predicate Filled(value: Option<string>) { OrEmpty(value) != "" }

  /** `prefix` before an expansion, if there is one. */
  function Prefixed(prefix: string, r: Result<string, Refusal>): Result<string, Refusal> {
    if r.Ok? then Ok(prefix + r.value) else r
  }

  /** What `${inner}` stands for; an operand is expanded only when it is used. */
  function Substitution(inner: string, args: Args): Result<string, Refusal>
    decreases |inner|, 2, 0
  {
    var e := NameEnd(inner, 0);
    if e == 0 || OpAt(inner, e).None? then Err(Unsupported)
    else
      var (op, o) := OpAt(inner, e).value;
      var value := ValueOf(inner[..e], args);
      if value.Err? then Err(value.error)
      else
        match op
        case Plain => Ok(OrEmpty(value.value))
        case IfEmpty => if Filled(value.value) then Ok(OrEmpty(value.value)) else Expansion(inner[o..], args)
        case IfUnset => if value.value.Some? then Ok(OrEmpty(value.value)) else Expansion(inner[o..], args)
        case UnlessEmpty => if Filled(value.value) then Expansion(inner[o..], args) else Ok("")
        case UnlessUnset => if value.value.Some? then Expansion(inner[o..], args) else Ok("")
  }

  /** What the word stands for from `i` on. */
  function ExpansionFrom(w: string, i: nat, args: Args): Result<string, Refusal>
    requires i <= |w|
    decreases |w|, 0, |w| - i
  {
    if i == |w| then Ok("")
    else if Two(w, i, '\\', '$') then Prefixed("$", ExpansionFrom(w, i + 2, args))
    else if w[i] != '$' then Prefixed([w[i]], ExpansionFrom(w, i + 1, args))
    else if Two(w, i, '$', '{') then
      var end := BraceFrom(w, i + 2, 1);
      if end.Err? then Err(end.error)
      else
        var value := Substitution(w[i + 2..end.value], args);
        if value.Err? then value else Prefixed(value.value, ExpansionFrom(w, end.value + 1, args))
    else
      var e := NameEnd(w, i + 1);
      if e == i + 1 then Prefixed("$", ExpansionFrom(w, i + 1, args))
      else
        var value := ValueOf(w[i + 1..e], args);
        if value.Err? then Err(value.error)
        else Prefixed(OrEmpty(value.value), ExpansionFrom(w, e, args))
  }

  function Expansion(word: string, args: Args): Result<string, Refusal>
    decreases |word|, 1, 0
  {
    ExpansionFrom(word, 0, args)
  }

  lemma PrefixedTwice(a: string, b: string, r: Result<string, Refusal>)
    ensures Prefixed(a, Prefixed(b, r)) == Prefixed(a + b, r)
  {
    if r.Ok? {
      ConcatAssociates(a, b, r.value);
    }
  }

  lemma PrefixedNothing(r: Result<string, Refusal>)
    ensures Prefixed("", r) == r
    ensures r.Ok? ==> Prefixed(r.value, Ok("")) == r
  {
    if r.Ok? {
      assert "" + r.value == r.value;
      assert r.value + "" == r.value;
    }
  }

  // ----- the expander -----

  method ClosingBrace(word: string, start: nat) returns (end: Result<nat, Refusal>)
    ensures end == BraceFrom(word, start, 1)
    ensures end.Ok? ==> Closes(word, start, end.value)
    ensures end.Err? ==> end.error == Unterminated && forall e :: !Closes(word, start, e)
  {
    forall e: nat ensures BraceFrom(word, start, 1) == Ok(e) <==> Closes(word, start, e) {
      BraceFoundExactly(word, start, e);
    }
    var depth, i := 1, start;
    while i < |word|
      invariant depth > 0 && BraceFrom(word, start, 1) == BraceFrom(word, i, depth)
    {
      if word[i] == '\\' {
        i := i + 2;
        continue;
      }
      if Two(word, i, '$', '{') {
        depth, i := depth + 1, i + 2;
        continue;
      }
      if word[i] == '}' {
        depth := depth - 1;
        if depth == 0 {
          return Ok(i);
        }
      }
      i := i + 1;
    }
    return Err(Unterminated);
  }

  method Substitute(inner: string, args: Args) returns (r: Result<string, Refusal>)
    ensures r == Substitution(inner, args)
    decreases |inner|, 2
  {
    var e := NameEnd(inner, 0);
    if e == 0 || OpAt(inner, e).None? {
      return Err(Unsupported);
    }
    var (op, o) := OpAt(inner, e).value;
    var value := ValueOf(inner[..e], args);
    if value.Err? {
      return Err(value.error);
    }
    var given := match op
      case Plain => true
      case IfEmpty => Filled(value.value)
      case IfUnset => value.value.Some?
      case UnlessEmpty => !Filled(value.value)
      case UnlessUnset => value.value.None?;
    if given {
      return Ok(if op.UnlessEmpty? || op.UnlessUnset? then "" else OrEmpty(value.value));
    }
    r := Expand(inner[o..], args);
  }

  method Expand(word: string, args: Args) returns (r: Result<string, Refusal>)
    ensures r == Expansion(word, args)
    decreases |word|, 1
  {
    hide BraceFrom, NameEnd, Substitution, ValueOf, Closes;
    var out, i := "", 0;
    PrefixedNothing(Expansion(word, args));
    while i < |word|
      invariant 0 <= i <= |word|
      invariant Prefixed(out, ExpansionFrom(word, i, args)) == Expansion(word, args)
    {
      var c := word[i];
      if Two(word, i, '\\', '$') {
        PrefixedTwice(out, "$", ExpansionFrom(word, i + 2, args));
        out, i := out + "$", i + 2;
        continue;
      }
      if c != '$' {
        PrefixedTwice(out, [c], ExpansionFrom(word, i + 1, args));
        out, i := out + [c], i + 1;
        continue;
      }
      if Two(word, i, '$', '{') {
        var end := ClosingBrace(word, i + 2);
        if end.Err? {
          return Err(end.error);
        }
        var value := Substitute(word[i + 2..end.value], args);
        if value.Err? {
          return value;
        }
        PrefixedTwice(out, value.value, ExpansionFrom(word, end.value + 1, args));
        out, i := out + value.value, end.value + 1;
        continue;
      }
      var e := NameEnd(word, i + 1);
      if e == i + 1 {
        PrefixedTwice(out, "$", ExpansionFrom(word, i + 1, args));
        out, i := out + "$", i + 1;
        continue;
      }
      var value := ValueOf(word[i + 1..e], args);
      if value.Err? {
        return Err(value.error);
      }
      PrefixedTwice(out, OrEmpty(value.value), ExpansionFrom(word, e, args));
      out, i := out + OrEmpty(value.value), e;
    }
    PrefixedNothing(Ok(out));
    return Ok(out);
  }

  // ----- unknown values -----

  /** `c` gives each name the value that `a` gives it, wherever `a` gives one. */
  ghost predicate Refines(a: Args, c: Args) {
    forall name :: ValueOf(name, a).Ok? ==> ValueOf(name, c) == ValueOf(name, a)
  }

  lemma {:induction false} SubstitutionRefines(inner: string, a: Args, c: Args)
    requires Refines(a, c) && Substitution(inner, a).Ok?
    ensures Substitution(inner, c) == Substitution(inner, a)
    decreases |inner|, 2, 0
  {
    var e := NameEnd(inner, 0);
    var (op, o) := OpAt(inner, e).value;
    if Expansion(inner[o..], a).Ok? {
      ExpansionFromRefines(inner[o..], 0, a, c);
    }
  }

  lemma {:induction false} ExpansionFromRefines(w: string, i: nat, a: Args, c: Args)
    requires i <= |w| && Refines(a, c) && ExpansionFrom(w, i, a).Ok?
    ensures ExpansionFrom(w, i, c) == ExpansionFrom(w, i, a)
    decreases |w|, 0, |w| - i
  {
    if i == |w| {
    } else if Two(w, i, '\\', '$') {
      ExpansionFromRefines(w, i + 2, a, c);
    } else if w[i] != '$' {
      ExpansionFromRefines(w, i + 1, a, c);
    } else if Two(w, i, '$', '{') {
      var end := BraceFrom(w, i + 2, 1);
      SubstitutionRefines(w[i + 2..end.value], a, c);
      ExpansionFromRefines(w, end.value + 1, a, c);
    } else {
      var e := NameEnd(w, i + 1);
      ExpansionFromRefines(w, if e == i + 1 then i + 1 else e, a, c);
    }
  }

  /** What the expander makes of a word holds for every value of the arguments it does not know. */
  lemma ExpansionRefines(word: string, a: Args, c: Args)
    requires Refines(a, c) && Expansion(word, a).Ok?
    ensures Expansion(word, c) == Expansion(word, a)
  {
    ExpansionFromRefines(word, 0, a, c);
  }
}
