// Templates of Dockerfile references: expanding a word is evaluating the template it spells.
module ArgTemplates {
  import opened Common
  import opened Lines
  import opened ArgExpansion

  /** A word as a list of literals, plain dollar signs, `$name`, `${name}` and
      `${name op operand}`; a word that is malformed from some place on ends there. */
  datatype Template =
    | Done
    | Broken(why: Refusal)
    | Lit(c: char, rest: Template)
    | Dollar(rest: Template)
    | Var(name: string, rest: Template)
    | Bare(name: string, rest: Template)
    | Braced(name: string, op: Op, operand: Template, rest: Template)

  // ----- printing -----

  function OpText(op: Op): string {
    match op
    case Plain => ""
    case IfEmpty => ":-"
    case IfUnset => "-"
    case UnlessEmpty => ":+"
    case UnlessUnset => "+"
  }

  /** What stands between the braces, up to the operand. */
  function Opening(name: string, op: Op): string { name + OpText(op) }

  function Print(t: Template): string {
    match t
    case Done => ""
    case Broken(_) => ""
    case Lit(c, rest) => (if c == '$' then ['\\', c] else [c]) + Print(rest)
    case Dollar(rest) => ['$'] + Print(rest)
    case Var(name, rest) => ['$'] + (name + Print(rest))
    case Bare(name, rest) => ['$', '{'] + (name + (['}'] + Print(rest)))
    case Braced(name, op, operand, rest) =>
      ['$', '{'] + (Opening(name, op) + (Print(operand) + (['}'] + Print(rest))))
  }

  predicate IsName(name: string) {
    name != "" && NameStart(name[0]) && forall i :: 0 <= i < |name| ==> IsWordChar(name[i])
  }

  /** Templates that print without ambiguity: a backslash does not come just before a variable or
      a plain dollar sign, neither a variable without braces nor a plain dollar sign runs into what
      would belong to it, and the literals of operands are neither closing braces nor
      backslashes. */
  predicate Printable(t: Template, inOperand: bool) {
    match t
    case Done => true
    case Broken(_) => false
    case Lit(c, rest) =>
      && Printable(rest, inOperand)
      && (inOperand ==> c != '}' && c != '\\')
      && (c == '\\' ==> rest.Done? || rest.Lit?)
    case Dollar(rest) =>
      Printable(rest, inOperand) && (rest.Lit? ==> !NameStart(rest.c) && rest.c != '{')
    case Var(name, rest) =>
      IsName(name) && Printable(rest, inOperand) && (rest.Lit? ==> !IsWordChar(rest.c))
    case Bare(name, rest) => IsName(name) && Printable(rest, inOperand)
    case Braced(name, op, operand, rest) =>
      IsName(name) && op != Plain && Printable(operand, true) && Printable(rest, inOperand)
  }

  // ----- evaluating -----

  /** What a parameter can be, in section 2.6.2 of the POSIX.1-2017 Shell Command Language. */
  datatype Status = SetAndNotNull | SetButNull | NotSet

  datatype Choice = Parameter | Word | Null

  /** The table of section 2.6.2, for the operators this expander knows. */
  function Chosen(op: Op, status: Status): Choice
    requires op != Plain
  {
    match (op, status)
    case (IfEmpty, SetAndNotNull) => Parameter
    case (IfEmpty, SetButNull) => Word
    case (IfEmpty, NotSet) => Word
    case (IfUnset, SetAndNotNull) => Parameter
    case (IfUnset, SetButNull) => Null
    case (IfUnset, NotSet) => Word
    case (UnlessEmpty, SetAndNotNull) => Word
    case (UnlessEmpty, SetButNull) => Null
    case (UnlessEmpty, NotSet) => Null
    case (UnlessUnset, SetAndNotNull) => Word
    case (UnlessUnset, SetButNull) => Word
    case (UnlessUnset, NotSet) => Null
  }

  function StatusIn(name: string, args: Args): Status {
    if name !in args || args[name] == Unset then NotSet
    else if args[name] == Known("") then SetButNull
    else SetAndNotNull
  }

  /** The text of one variable: of the builder's own, and of one whose default could not be expanded,
      it is not known, and of one that has no value it is empty. */
  function Looked(name: string, args: Args): Result<string, Refusal> {
    if name in args && args[name] == Unknown then Err(DefaultUnknown(name))
    else if name !in args && name in AUTOMATIC_PLATFORM_ARGS then Err(SetByBuilder(name))
    else Ok(if name in args && args[name].Known? then args[name].text else "")
  }

  function Join(first: Result<string, Refusal>, rest: Result<string, Refusal>): Result<string, Refusal> {
    if first.Err? then first else Prefixed(first.value, rest)
  }

  /** A braced variable by the table: its operand is evaluated only when the table says so. */
  function BracedValue(name: string, op: Op, operand: Template, args: Args): Result<string, Refusal>
    decreases operand, 1
  {
    if op == Plain || Looked(name, args).Err? then Looked(name, args)
    else
      match Chosen(op, StatusIn(name, args))
      case Parameter => Looked(name, args)
      case Null => Ok("")
      case Word => Eval(operand, args)
  }

  /** Evaluation from left to right, as far as the first variable that has no known value or the
      first malformed place. */
  function Eval(t: Template, args: Args): Result<string, Refusal>
    decreases t, 0
  {
    match t
    case Done => Ok("")
    case Broken(why) => Err(why)
    case Lit(c, rest) => Prefixed([c], Eval(rest, args))
    case Dollar(rest) => Prefixed("$", Eval(rest, args))
    case Var(name, rest) => Join(Looked(name, args), Eval(rest, args))
    case Bare(name, rest) => Join(Looked(name, args), Eval(rest, args))
    case Braced(name, op, operand, rest) => Join(BracedValue(name, op, operand, args), Eval(rest, args))
  }

  /** The evaluation consults a variable whose value only the builder knows. */
  predicate ConsultsUnknown(t: Template, args: Args) {
    match t
    case Done => false
    case Broken(_) => false
    case Lit(_, rest) => ConsultsUnknown(rest, args)
    case Dollar(rest) => ConsultsUnknown(rest, args)
    case Var(name, rest) => !Knowable(name, args) || ConsultsUnknown(rest, args)
    case Bare(name, rest) => !Knowable(name, args) || ConsultsUnknown(rest, args)
    case Braced(name, op, operand, rest) =>
      || !Knowable(name, args) || ConsultsUnknown(rest, args)
      || (UsesOperand(op, name, args) && ConsultsUnknown(operand, args))
  }

  /** The expander can know the value: one is declared that does not depend on the builder, or
      the name is neither declared nor the builder's. */
  predicate Knowable(name: string, args: Args) {
    if name in args then args[name] != Unknown else name !in AUTOMATIC_PLATFORM_ARGS
  }

  predicate UsesOperand(op: Op, name: string, args: Args) {
    var given := name in args && args[name].Known?;
    match op
    case Plain => false
    case IfEmpty => !given || args[name].text == ""
    case IfUnset => !given
    case UnlessEmpty => given && args[name].text != ""
    case UnlessUnset => given
  }

  /** The evaluation comes to a malformed place. */
  predicate MeetsBroken(t: Template, args: Args) {
    match t
    case Done => false
    case Broken(_) => true
    case Braced(name, op, operand, rest) =>
      MeetsBroken(rest, args) || (UsesOperand(op, name, args) && MeetsBroken(operand, args))
    case _ => MeetsBroken(t.rest, args)
  }

  lemma {:induction false} EvalFailsExactly(t: Template, args: Args)
    ensures Eval(t, args).Err? <==> ConsultsUnknown(t, args) || MeetsBroken(t, args)
  {
    if !t.Done? && !t.Broken? {
      EvalFailsExactly(t.rest, args);
    }
    if t.Braced? {
      EvalFailsExactly(t.operand, args);
    }
  }

  // ----- reading a word -----

  /** The braced variable between whose braces `inner` stands, before `rest`. */
  function ReadBraced(inner: string, rest: Template): Template
    decreases |inner|, 2, 0
  {
    var e := NameEnd(inner, 0);
    if e == 0 || OpAt(inner, e).None? then Broken(Unsupported)
    else
      var (op, o) := OpAt(inner, e).value;
      if op == Plain then Bare(inner[..e], rest) else Braced(inner[..e], op, Read(inner[o..]), rest)
  }

  /** The template that the word spells from `i` on. */
  function ReadFrom(w: string, i: nat): Template
    requires i <= |w|
    decreases |w|, 0, |w| - i
  {
    if i == |w| then Done
    else if Two(w, i, '\\', '$') then Lit('$', ReadFrom(w, i + 2))
    else if w[i] != '$' then Lit(w[i], ReadFrom(w, i + 1))
    else if Two(w, i, '$', '{') then
      var end := BraceFrom(w, i + 2, 1);
      if end.Err? then Broken(end.error)
      else ReadBraced(w[i + 2..end.value], ReadFrom(w, end.value + 1))
    else
      var e := NameEnd(w, i + 1);
      if e == i + 1 then Dollar(ReadFrom(w, e)) else Var(w[i + 1..e], ReadFrom(w, e))
  }

  function Read(word: string): Template
    decreases |word|, 1, 0
  {
    ReadFrom(word, 0)
  }

  // ----- reading what was printed -----

  lemma AtConcat(w: string, i: nat, x: string, y: string)
    ensures Occurs(w, i, x + y) <==> Occurs(w, i, x) && Occurs(w, i + |x|, y)
  {
    if i + |x| + |y| <= |w| {
      var a, b := w[i..i + |x|], w[i + |x|..i + |x| + |y|];
      assert w[i..i + |x + y|] == a + b;
      if a + b == x + y {
        assert (a + b)[..|x|] == x && (a + b)[|x|..] == y;
      }
    }
  }

  lemma AtChar(w: string, i: nat, x: string, k: nat)
    requires Occurs(w, i, x) && k < |x|
    ensures i + k < |w| && w[i + k] == x[k]
  {
    assert w[i..i + |x|][k] == w[i + k];
  }

  lemma AtName(w: string, i: nat, name: string)
    requires IsName(name) && Occurs(w, i, name)
    ensures i + |name| <= |w| && NameStart(w[i])
    ensures forall k :: i <= k < i + |name| ==> IsWordChar(w[k])
  {
    AtChar(w, i, name, 0);
    forall k | i <= k < i + |name| ensures IsWordChar(w[k]) {
      AtChar(w, i, name, k - i);
    }
  }

  lemma {:induction false} RunEndAt(w: string, i: nat, e: nat)
    requires i <= e <= |w| && (forall k :: i <= k < e ==> IsWordChar(w[k]))
    requires e < |w| ==> !IsWordChar(w[e])
    ensures RunEnd(w, i) == e
    decreases e - i
  {
    if i < e {
      RunEndAt(w, i + 1, e);
    }
  }

  lemma NameEndAt(w: string, i: nat, name: string)
    requires IsName(name) && Occurs(w, i, name) && (i + |name| < |w| ==> !IsWordChar(w[i + |name|]))
    ensures NameEnd(w, i) == i + |name|
  {
    AtName(w, i, name);
    RunEndAt(w, i + 1, i + |name|);
  }

  /** A run of name and operator characters holds no brace and no backslash. */
  lemma {:induction false} BracePastPlain(w: string, i: nat, e: nat, depth: nat)
    requires i <= e <= |w| && depth > 0
    requires forall k :: i <= k < e ==> w[k] !in {'\\', '$', '}'}
    ensures BraceFrom(w, i, depth) == BraceFrom(w, e, depth)
    decreases e - i
  {
    if i < e {
      BracePastPlain(w, i + 1, e, depth);
    }
  }

  lemma OpeningAt(w: string, i: nat, name: string, op: Op)
    requires IsName(name) && Occurs(w, i, Opening(name, op))
    ensures forall k :: i <= k < i + |Opening(name, op)| ==> w[k] !in {'\\', '$', '}'}
  {
    var x := Opening(name, op);
    forall k | i <= k < i + |x| ensures w[k] !in {'\\', '$', '}'} {
      AtChar(w, i, x, k - i);
      if k - i < |name| {
        assert IsWordChar(name[k - i]);
      }
    }
  }

  // Where the parts of a printed template stand.

  lemma LitAt(w: string, i: nat, c: char, rest: Template)
    requires Occurs(w, i, Print(Lit(c, rest)))
    ensures if c == '$' then Two(w, i, '\\', '$') && Occurs(w, i + 2, Print(rest))
            else i < |w| && w[i] == c && Occurs(w, i + 1, Print(rest))
  {
    var x := if c == '$' then ['\\', c] else [c];
    AtConcat(w, i, x, Print(rest));
    AtChar(w, i, x, 0);
    AtChar(w, i, x, |x| - 1);
  }

  lemma VarAt(w: string, i: nat, name: string, rest: Template)
    requires IsName(name) && Occurs(w, i, Print(Var(name, rest)))
    ensures i + 1 < |w| && w[i] == '$' && NameStart(w[i + 1])
    ensures Occurs(w, i + 1, name) && Occurs(w, i + 1 + |name|, Print(rest))
  {
    AtConcat(w, i, ['$'], name + Print(rest));
    AtConcat(w, i + 1, name, Print(rest));
    AtChar(w, i, ['$'], 0);
    AtName(w, i + 1, name);
  }

  /** A braced variable: its opening, its operand and its closing brace stand one after another. */
  lemma BracedAt(w: string, i: nat, opening: string, operand: string, rest: string)
    requires Occurs(w, i, ['$', '{'] + (opening + (operand + (['}'] + rest))))
    ensures Two(w, i, '$', '{') && Occurs(w, i + 2, opening) && Occurs(w, i + 2 + |opening|, operand)
    ensures var end := i + 2 + |opening| + |operand|;
            end < |w| && w[end] == '}' && Occurs(w, end + 1, rest)
  {
    AtConcat(w, i, ['$', '{'], opening + (operand + (['}'] + rest)));
    AtChar(w, i, ['$', '{'], 0);
    AtChar(w, i, ['$', '{'], 1);
    AtConcat(w, i + 2, opening, operand + (['}'] + rest));
    AtConcat(w, i + 2 + |opening|, operand, ['}'] + rest);
    AtConcat(w, i + 2 + |opening| + |operand|, ['}'], rest);
    AtChar(w, i + 2 + |opening| + |operand|, ['}'], 0);
  }

  /** A bare name in braces prints like a braced one without operator and operand. */
  function AsBraced(t: Template): Template
    requires t.Bare? || t.Braced?
  {
    if t.Bare? then Braced(t.name, Plain, Done, t.rest) else t
  }

  lemma PrintBraced(t: Template)
    requires t.Bare? || t.Braced?
    ensures var b := AsBraced(t);
            Print(t) == ['$', '{'] + (Opening(b.name, b.op) + (Print(b.operand) + (['}'] + Print(b.rest))))
  {
    if t.Bare? {
      assert Opening(t.name, Plain) == t.name;
      assert Print(Done) + (['}'] + Print(t.rest)) == ['}'] + Print(t.rest);
    }
  }

  lemma LitPasses(w: string, i: nat, c: char, rest: Template, depth: nat)
    requires Printable(Lit(c, rest), true) && Occurs(w, i, Print(Lit(c, rest))) && depth > 0
    ensures var k := if c == '$' then i + 2 else i + 1;
            && BraceFrom(w, i, depth) == BraceFrom(w, k, depth) && Occurs(w, k, Print(rest))
            && k + |Print(rest)| == i + |Print(Lit(c, rest))| && Printable(rest, true)
  {
    hide Occurs;
    LitAt(w, i, c, rest);
  }

  lemma DollarAt(w: string, i: nat, rest: Template)
    requires (rest.Lit? ==> !NameStart(rest.c) && rest.c != '{') && Occurs(w, i, Print(Dollar(rest)))
    ensures i < |w| && w[i] == '$' && Occurs(w, i + 1, Print(rest))
    ensures Print(rest) != "" ==> i + 1 < |w| && w[i + 1] != '{' && !NameStart(w[i + 1])
  {
    AtConcat(w, i, ['$'], Print(rest));
    AtChar(w, i, ['$'], 0);
    if Print(rest) != "" {
      assert Print(rest)[0] in {'$', '\\'} || (rest.Lit? && Print(rest)[0] == rest.c);
      AtChar(w, i + 1, Print(rest), 0);
    }
  }

  lemma DollarPasses(w: string, i: nat, rest: Template, depth: nat)
    requires Printable(Dollar(rest), true) && Occurs(w, i, Print(Dollar(rest))) && depth > 0
    requires i + |Print(Dollar(rest))| < |w| ==> w[i + |Print(Dollar(rest))|] != '{'
    ensures BraceFrom(w, i, depth) == BraceFrom(w, i + 1, depth) && Occurs(w, i + 1, Print(rest))
    ensures |Print(rest)| + 1 == |Print(Dollar(rest))| && Printable(rest, true)
  {
    hide Occurs;
    DollarAt(w, i, rest);
  }

  lemma VarPasses(w: string, i: nat, name: string, rest: Template, depth: nat)
    requires Printable(Var(name, rest), true) && Occurs(w, i, Print(Var(name, rest))) && depth > 0
    ensures var k := i + 1 + |name|;
            && BraceFrom(w, i, depth) == BraceFrom(w, k, depth) && Occurs(w, k, Print(rest))
            && k + |Print(rest)| == i + |Print(Var(name, rest))| && Printable(rest, true)
  {
    hide Occurs;
    VarAt(w, i, name, rest);
    BracePastPlain(w, i + 1, i + 1 + |name|, depth);
  }

  /** The search enters a printed braced variable, and leaves it at its closing brace. */
  lemma BracedOpens(w: string, i: nat, b: Template, depth: nat)
    requires b.Braced? && IsName(b.name) && depth > 0
    requires Occurs(w, i, ['$', '{'] + (Opening(b.name, b.op) + (Print(b.operand) + (['}'] + Print(b.rest)))))
    ensures var k := i + 2 + |Opening(b.name, b.op)|;
            var end := k + |Print(b.operand)|;
            && BraceFrom(w, i + 2, depth) == BraceFrom(w, k, depth) && Occurs(w, k, Print(b.operand))
            && BraceFrom(w, i, depth) == BraceFrom(w, k, depth + 1)
            && BraceFrom(w, end, depth + 1) == BraceFrom(w, end + 1, depth)
            && BraceFrom(w, end, 1) == Ok(end) && Occurs(w, end + 1, Print(b.rest))
            && end < |w| && w[end] == '}'
  {
    hide *;
    var opening := Opening(b.name, b.op);
    BracedAt(w, i, opening, Print(b.operand), Print(b.rest));
    OpeningAt(w, i + 2, b.name, b.op);
    BracePastPlain(w, i + 2, i + 2 + |opening|, depth);
    BracePastPlain(w, i + 2, i + 2 + |opening|, depth + 1);
    BraceSteps(w, i, i + 2 + |opening| + |Print(b.operand)|, depth);
  }

  lemma BraceSteps(w: string, i: nat, end: nat, depth: nat)
    requires Two(w, i, '$', '{') && end < |w| && w[end] == '}' && depth > 0
    ensures BraceFrom(w, i, depth) == BraceFrom(w, i + 2, depth + 1)
    ensures BraceFrom(w, end, depth + 1) == BraceFrom(w, end + 1, depth) && BraceFrom(w, end, 1) == Ok(end)
  {
  }

  lemma BracedPrintable(t: Template, inOperand: bool)
    requires (t.Bare? || t.Braced?) && Printable(t, inOperand)
    ensures var b := AsBraced(t);
            && b.Braced? && IsName(b.name) && Printable(b.operand, true) && Printable(b.rest, inOperand)
            && b.rest == t.rest && (b.op == Plain ==> b.operand.Done?)
            && (b.operand == Done || (t.Braced? && b.operand == t.operand))
            && |Print(t)| == 2 + |Opening(b.name, b.op)| + |Print(b.operand)| + 1 + |Print(b.rest)|
  {
    PrintBraced(t);
  }

  /** The search for a closing brace passes over a printed operand as a whole. */
  lemma {:induction false} BracePast(w: string, i: nat, t: Template, depth: nat)
    requires Printable(t, true) && Occurs(w, i, Print(t)) && depth > 0
    requires i + |Print(t)| < |w| ==> w[i + |Print(t)|] != '{'
    ensures BraceFrom(w, i, depth) == BraceFrom(w, i + |Print(t)|, depth)
    decreases t
  {
    hide *;
    NotBroken(t, true);
    if t.Done? {
      DoneReads("");
    } else if t.Lit? {
      LitPasses(w, i, t.c, t.rest, depth);
      BracePast(w, if t.c == '$' then i + 2 else i + 1, t.rest, depth);
    } else if t.Dollar? {
      DollarPasses(w, i, t.rest, depth);
      BracePast(w, i + 1, t.rest, depth);
    } else if t.Var? {
      VarPasses(w, i, t.name, t.rest, depth);
      BracePast(w, i + 1 + |t.name|, t.rest, depth);
    } else {
      PrintBraced(t);
      BracedPrintable(t, true);
      var b := AsBraced(t);
      BracedOpens(w, i, b, depth);
      var k := i + 2 + |Opening(b.name, b.op)|;
      DoneReads("");
      if b.operand != Done {
        BracePast(w, k, b.operand, depth + 1);
      }
      BracePast(w, k + |Print(b.operand)| + 1, t.rest, depth);
    }
  }

  /** What stands between the braces is read back as name, operator and operand. */
  lemma OpeningIsRead(inner: string, name: string, op: Op, operand: string)
    requires IsName(name) && inner == Opening(name, op) + operand && (op == Plain ==> operand == "")
    ensures NameEnd(inner, 0) == |name| > 0 && inner[..|name|] == name
    ensures |Opening(name, op)| <= |inner| && inner[|Opening(name, op)|..] == operand
    ensures OpAt(inner, |name|) == Some((op, |Opening(name, op)|))
  {
    assert Occurs(inner, 0, name) by {
      assert inner[0..|name|] == name;
    }
    NameEndAt(inner, 0, name);
  }

  /** What follows a variable without braces is no word character. */
  lemma VarEnds(w: string, i: nat, rest: Template)
    requires Occurs(w, i, Print(rest)) && i + |Print(rest)| == |w| && (rest.Lit? ==> !IsWordChar(rest.c))
    ensures i < |w| ==> !IsWordChar(w[i])
  {
    if !rest.Done? && !rest.Broken? {
      assert Print(rest)[0] in {'$', '\\'} || (rest.Lit? && Print(rest)[0] == rest.c);
      AtChar(w, i, Print(rest), 0);
    }
  }

  lemma BackslashStands(w: string, i: nat, rest: Template)
    requires Occurs(w, i + 1, Print(rest)) && i + 1 + |Print(rest)| == |w| && (rest.Done? || rest.Lit?)
    ensures !Two(w, i, '\\', '$')
  {
    if rest.Lit? {
      AtChar(w, i + 1, Print(rest), 0);
      assert Print(rest)[0] != '$';
    }
  }

  lemma LitReads(w: string, i: nat, c: char, rest: Template, inOperand: bool)
    requires Printable(Lit(c, rest), inOperand) && Occurs(w, i, Print(Lit(c, rest)))
    requires i + |Print(Lit(c, rest))| == |w|
    ensures var k := if c == '$' then i + 2 else i + 1;
            && k <= |w| && ReadFrom(w, i) == Lit(c, ReadFrom(w, k))
            && Occurs(w, k, Print(rest)) && k + |Print(rest)| == |w| && Printable(rest, inOperand)
  {
    LitAt(w, i, c, rest);
    hide Occurs;
    if c == '\\' {
      BackslashStands(w, i, rest);
    }
  }

  lemma DollarReads(w: string, i: nat, rest: Template, inOperand: bool)
    requires Printable(Dollar(rest), inOperand) && Occurs(w, i, Print(Dollar(rest)))
    requires i + |Print(Dollar(rest))| == |w|
    ensures i + 1 <= |w| && ReadFrom(w, i) == Dollar(ReadFrom(w, i + 1))
    ensures Occurs(w, i + 1, Print(rest)) && i + 1 + |Print(rest)| == |w| && Printable(rest, inOperand)
  {
    DollarAt(w, i, rest);
    hide Occurs;
  }

  lemma VarReads(w: string, i: nat, name: string, rest: Template, inOperand: bool)
    requires Printable(Var(name, rest), inOperand) && Occurs(w, i, Print(Var(name, rest)))
    requires i + |Print(Var(name, rest))| == |w|
    ensures var k := i + 1 + |name|;
            && k <= |w| && ReadFrom(w, i) == Var(name, ReadFrom(w, k))
            && Occurs(w, k, Print(rest)) && k + |Print(rest)| == |w| && Printable(rest, inOperand)
  {
    hide *;
    VarPrinted(name, rest, inOperand);
    VarAt(w, i, name, rest);
    VarEnds(w, i + 1 + |name|, rest);
    NameEndAt(w, i + 1, name);
    ReadsName(w, i, name);
  }

  lemma ReadsName(w: string, i: nat, name: string)
    requires i + 1 < |w| && w[i] == '$' && NameStart(w[i + 1]) && Occurs(w, i + 1, name)
    requires name != "" && NameEnd(w, i + 1) == i + 1 + |name|
    ensures i + 1 + |name| <= |w| && ReadFrom(w, i) == Var(name, ReadFrom(w, i + 1 + |name|))
  {
    hide NameEnd;
  }

  lemma VarPrinted(name: string, rest: Template, inOperand: bool)
    requires Printable(Var(name, rest), inOperand)
    ensures name != "" && IsName(name) && Printable(rest, inOperand) && (rest.Lit? ==> !IsWordChar(rest.c))
    ensures |Print(Var(name, rest))| == 1 + |name| + |Print(rest)|
  {
  }

  lemma BracedReads(w: string, i: nat, b: Template)
    requires b.Braced? && IsName(b.name) && Printable(b.operand, true)
    requires Occurs(w, i, ['$', '{'] + (Opening(b.name, b.op) + (Print(b.operand) + (['}'] + Print(b.rest)))))
    ensures var end := i + 2 + |Opening(b.name, b.op)| + |Print(b.operand)|;
            && end < |w| && Occurs(w, end + 1, Print(b.rest))
            && ReadFrom(w, i) == ReadBraced(Opening(b.name, b.op) + Print(b.operand), ReadFrom(w, end + 1))
  {
    hide *;
    var opening, operand := Opening(b.name, b.op), Print(b.operand);
    BracedAt(w, i, opening, operand, Print(b.rest));
    BracedOpens(w, i, b, 1);
    BracePast(w, i + 2 + |opening|, b.operand, 1);
    Between(w, i + 2, opening, operand);
    ReadsBrace(w, i, i + 2 + |opening| + |operand|);
  }

  lemma ReadsBrace(w: string, i: nat, end: nat)
    requires Two(w, i, '$', '{') && i + 2 <= end < |w| && BraceFrom(w, i + 2, 1) == Ok(end)
    ensures ReadFrom(w, i) == ReadBraced(w[i + 2..end], ReadFrom(w, end + 1))
  {
    hide BraceFrom, ReadBraced;
  }

  lemma BracedIsRead(inner: string, b: Template, rest: Template)
    requires b.Braced? && IsName(b.name) && inner == Opening(b.name, b.op) + Print(b.operand)
    requires b.op == Plain ==> b.operand.Done?
    requires Read(Print(b.operand)) == b.operand
    ensures ReadBraced(inner, rest)
            == if b.op == Plain then Bare(b.name, rest) else Braced(b.name, b.op, b.operand, rest)
  {
    OpeningIsRead(inner, b.name, b.op, Print(b.operand));
    hide Opening, IsName, NameEnd, OpAt, Print, Read;
  }

  lemma Between(w: string, i: nat, x: string, y: string)
    requires Occurs(w, i, x) && Occurs(w, i + |x|, y)
    ensures i + |x| + |y| <= |w| && w[i..i + |x| + |y|] == x + y
  {
    AtConcat(w, i, x, y);
  }

  lemma {:induction false} ReadsPrinted(w: string, i: nat, t: Template, inOperand: bool)
    requires Printable(t, inOperand) && Occurs(w, i, Print(t)) && i + |Print(t)| == |w|
    ensures ReadFrom(w, i) == t
    decreases t
  {
    hide *;
    NotBroken(t, inOperand);
    if t.Done? {
      DoneReads(w);
    } else if t.Lit? {
      LitReads(w, i, t.c, t.rest, inOperand);
      ReadsPrinted(w, if t.c == '$' then i + 2 else i + 1, t.rest, inOperand);
    } else if t.Dollar? {
      DollarReads(w, i, t.rest, inOperand);
      ReadsPrinted(w, i + 1, t.rest, inOperand);
    } else if t.Var? {
      VarReads(w, i, t.name, t.rest, inOperand);
      ReadsPrinted(w, i + 1 + |t.name|, t.rest, inOperand);
    } else {
      PrintBraced(t);
      BracedPrintable(t, inOperand);
      var b := AsBraced(t);
      BracedReads(w, i, b);
      var opening, operand := Opening(b.name, b.op), Print(b.operand);
      if b.operand != Done {
        PrintsWhole(b.operand);
        ReadsPrinted(operand, 0, b.operand, true);
        ReadIsFromStart(operand);
      } else {
        DoneReads("");
      }
      ReadsPrinted(w, i + 2 + |opening| + |operand| + 1, t.rest, inOperand);
      BracedIsRead(opening + operand, b, t.rest);
      OfBraced(t, inOperand);
    }
  }

  lemma NotBroken(t: Template, inOperand: bool)
    requires Printable(t, inOperand)
    ensures !t.Broken?
  {
  }

  lemma OfBraced(t: Template, inOperand: bool)
    requires (t.Bare? || t.Braced?) && Printable(t, inOperand)
    ensures var b := AsBraced(t);
            t == if b.op == Plain then Bare(b.name, t.rest) else Braced(b.name, b.op, b.operand, t.rest)
  {
  }

  lemma ReadIsFromStart(w: string)
    ensures Read(w) == ReadFrom(w, 0)
  {
  }

  lemma DoneReads(w: string)
    ensures Print(Done) == "" && ReadFrom(w, |w|) == Done && Read("") == Done
  {
  }

  lemma PrintsWhole(t: Template)
    ensures Occurs(Print(t), 0, Print(t))
  {
    assert Print(t)[0..|Print(t)|] == Print(t);
  }

  /** A printed template is read back. */
  lemma ReadPrint(t: Template)
    requires Printable(t, false)
    ensures Read(Print(t)) == t
  {
    PrintsWhole(t);
    ReadsPrinted(Print(t), 0, t, false);
  }

  // ----- printing what was read -----

  /** No part is malformed. */
  predicate Intact(t: Template) {
    match t
    case Done => true
    case Broken(_) => false
    case Braced(_, _, operand, rest) => Intact(operand) && Intact(rest)
    case _ => Intact(t.rest)
  }

  /** Between these braces a bare name stands before a newline, or an operand has one that does. */
  predicate DropsBraced(inner: string)
    decreases |inner|, 2, 0
  {
    var e := NameEnd(inner, 0);
    && e > 0 && OpAt(inner, e).Some?
    && var (op, o) := OpAt(inner, e).value;
       if op == Plain then e < |inner| else DropsFrom(inner[o..], 0)
  }

  /** From `i` on, the word has a bare name in braces with a newline after it, which reading drops. */
  predicate DropsFrom(w: string, i: nat)
    requires i <= |w|
    decreases |w|, 0, |w| - i
  {
    if i == |w| then false
    else if Two(w, i, '\\', '$') then DropsFrom(w, i + 2)
    else if w[i] != '$' then DropsFrom(w, i + 1)
    else if Two(w, i, '$', '{') then
      var end := BraceFrom(w, i + 2, 1);
      end.Ok? && (DropsBraced(w[i + 2..end.value]) || DropsFrom(w, end.value + 1))
    else DropsFrom(w, NameEnd(w, i + 1))
  }

  predicate DropsNewline(word: string) { DropsFrom(word, 0) }

  lemma InnerParts(inner: string)
    requires OpAt(inner, NameEnd(inner, 0)).Some?
    ensures var e := NameEnd(inner, 0);
            var (op, o) := OpAt(inner, e).value;
            && e <= o <= |inner| && (op == Plain ==> o == |inner| && |OpText(op)| == 0)
            && (op != Plain || e == |inner| ==> inner == inner[..e] + OpText(op) + inner[o..])
  {
    hide NameEnd;
    var e := NameEnd(inner, 0);
    var (op, o) := OpAt(inner, e).value;
    assert op != Plain || e == |inner| ==> inner[e..o] == OpText(op);
    assert inner == inner[..e] + inner[e..o] + inner[o..];
  }

  lemma {:induction false} PrintReadBraced(inner: string, rest: Template)
    requires Intact(ReadBraced(inner, rest)) && !DropsBraced(inner)
    ensures Print(ReadBraced(inner, rest)) == ['$', '{'] + (inner + (['}'] + Print(rest)))
    decreases |inner|, 2, 0
  {
    hide NameEnd, ReadFrom, OpAt, Print, Read, ReadBraced, DropsFrom;
    var e := NameEnd(inner, 0);
    ReadBracedIs(inner, rest);
    assert e > 0 && OpAt(inner, e).Some?;
    InnerParts(inner);
    var (op, o) := OpAt(inner, e).value;
    var name, operand := inner[..e], inner[o..];
    PrintBraced(ReadBraced(inner, rest));
    if op == Plain {
      DoneReads(inner);
    } else {
      ReadIsFromStart(operand);
      PrintReadFrom(operand, 0);
    }
    PartsJoin(inner, name, op, operand, Print(rest));
  }

  lemma PartsJoin(inner: string, name: string, op: Op, operand: string, rest: string)
    requires inner == name + OpText(op) + operand
    ensures Opening(name, op) + (operand + (['}'] + rest)) == inner + (['}'] + rest)
    ensures operand[0..] == operand
  {
  }

  /** One step of reading, printed. */
  lemma PrintStep(w: string, i: nat)
    requires i < |w|
    ensures Two(w, i, '\\', '$') ==> Print(ReadFrom(w, i)) == w[i..i + 2] + Print(ReadFrom(w, i + 2))
    ensures !Two(w, i, '\\', '$') && w[i] != '$' ==> Print(ReadFrom(w, i)) == w[i..i + 1] + Print(ReadFrom(w, i + 1))
    ensures w[i] == '$' && Two(w, i, '$', '{') && BraceFrom(w, i + 2, 1).Ok? ==>
              var end := BraceFrom(w, i + 2, 1).value;
              ReadFrom(w, i) == ReadBraced(w[i + 2..end], ReadFrom(w, end + 1))
    ensures w[i] == '$' && !Two(w, i, '$', '{') ==>
              var e := NameEnd(w, i + 1);
              Print(ReadFrom(w, i)) == w[i..i + 1] + (w[i + 1..e] + Print(ReadFrom(w, e)))
  {
    hide BraceFrom, NameEnd, ReadBraced;
    assert w[i..i + 1] == [w[i]];
    assert Two(w, i, '\\', '$') ==> w[i..i + 2] == ['\\', '$'];
    var e := NameEnd(w, i + 1);
    assert e == i + 1 ==> w[i + 1..e] + Print(ReadFrom(w, e)) == Print(ReadFrom(w, e));
  }

  lemma {:induction false} PrintReadFrom(w: string, i: nat)
    requires i <= |w| && Intact(ReadFrom(w, i)) && !DropsFrom(w, i)
    ensures Print(ReadFrom(w, i)) == w[i..]
    decreases |w|, 0, |w| - i
  {
    hide *;
    if i == |w| {
      DoneReads(w);
    } else {
      TwoReads(w, i);
      PrintStep(w, i);
      IntactRest(w, i);
      DropsRest(w, i);
      if Two(w, i, '\\', '$') {
        PrintReadFrom(w, i + 2);
      } else if w[i] != '$' {
        PrintReadFrom(w, i + 1);
      } else if Two(w, i, '$', '{') {
        var end := BraceFrom(w, i + 2, 1).value;
        PrintReadBraced(w[i + 2..end], ReadFrom(w, end + 1));
        PrintReadFrom(w, end + 1);
        BracedCut(w, i, end);
      } else {
        var e := NameEnd(w, i + 1);
        PrintReadFrom(w, e);
      }
    }
  }

  lemma TwoReads(w: string, i: nat)
    requires i < |w|
    ensures Two(w, i, '\\', '$') ==> i + 2 <= |w|
    ensures Two(w, i, '$', '{') ==> i + 2 <= |w| && w[i] == '$'
    ensures Two(w, i, '$', '{') && BraceFrom(w, i + 2, 1).Ok? ==> w[BraceFrom(w, i + 2, 1).value] == '}'
  {
  }

  /** An intact word is not malformed where it is read, and its rest is intact. */
  lemma IntactRest(w: string, i: nat)
    requires i < |w| && Intact(ReadFrom(w, i))
    ensures w[i] == '$' && Two(w, i, '$', '{') ==> BraceFrom(w, i + 2, 1).Ok?
    ensures Two(w, i, '\\', '$') ==> Intact(ReadFrom(w, i + 2))
    ensures w[i] != '$' && !Two(w, i, '\\', '$') ==> Intact(ReadFrom(w, i + 1))
    ensures w[i] == '$' && !Two(w, i, '$', '{') ==> Intact(ReadFrom(w, NameEnd(w, i + 1)))
    ensures w[i] == '$' && Two(w, i, '$', '{') ==>
              var end := BraceFrom(w, i + 2, 1).value;
              Intact(ReadBraced(w[i + 2..end], ReadFrom(w, end + 1)))
              && Intact(ReadFrom(w, end + 1))
  {
    if w[i] == '$' && Two(w, i, '$', '{') {
      assert BraceFrom(w, i + 2, 1).Ok?;
      var end := BraceFrom(w, i + 2, 1).value;
    }
    hide BraceFrom, NameEnd, ReadBraced;
  }

  lemma DropsRest(w: string, i: nat)
    requires i < |w|
    ensures Two(w, i, '\\', '$') ==> DropsFrom(w, i) == DropsFrom(w, i + 2)
    ensures w[i] != '$' && !Two(w, i, '\\', '$') ==> DropsFrom(w, i) == DropsFrom(w, i + 1)
    ensures w[i] == '$' && !Two(w, i, '$', '{') ==> DropsFrom(w, i) == DropsFrom(w, NameEnd(w, i + 1))
    ensures w[i] == '$' && Two(w, i, '$', '{') && BraceFrom(w, i + 2, 1).Ok? ==>
              var end := BraceFrom(w, i + 2, 1).value;
              DropsFrom(w, i) == (DropsBraced(w[i + 2..end]) || DropsFrom(w, end + 1))
    ensures w[i] == '$' && Two(w, i, '$', '{') && BraceFrom(w, i + 2, 1).Err? ==>
              !DropsFrom(w, i) && Print(ReadFrom(w, i)) == ""
  {
    hide BraceFrom, NameEnd, DropsBraced;
  }

  lemma BracedCut(w: string, i: nat, end: nat)
    requires Two(w, i, '$', '{') && i + 2 <= end < |w| && w[end] == '}'
    ensures w[i..] == ['$', '{'] + (w[i + 2..end] + (['}'] + w[end + 1..]))
  {
  }

  /** Whether the rest is intact, by one step of reading. */
  lemma IntactStep(w: string, i: nat)
    requires i < |w|
    ensures Two(w, i, '\\', '$') ==> Intact(ReadFrom(w, i)) == Intact(ReadFrom(w, i + 2))
    ensures w[i] != '$' && !Two(w, i, '\\', '$') ==> Intact(ReadFrom(w, i)) == Intact(ReadFrom(w, i + 1))
    ensures w[i] == '$' && !Two(w, i, '$', '{') ==> Intact(ReadFrom(w, i)) == Intact(ReadFrom(w, NameEnd(w, i + 1)))
  {
    hide BraceFrom, NameEnd, ReadBraced;
  }

  lemma IntactParts(inner: string, rest: Template)
    ensures Intact(ReadBraced(inner, rest)) <==> Intact(ReadBraced(inner, Done)) && Intact(rest)
  {
    hide NameEnd, OpAt, Read;
  }

  /** What was read prints no longer than what stands between the braces, and shorter if a part is
      malformed or a newline is dropped. */
  lemma {:induction false} BracedPrintsShorter(inner: string, rest: Template)
    ensures |Print(ReadBraced(inner, rest))| <= 3 + |inner| + |Print(rest)|
    ensures DropsBraced(inner) || !Intact(ReadBraced(inner, Done)) ==>
              |Print(ReadBraced(inner, rest))| < 3 + |inner| + |Print(rest)|
    decreases |inner|, 2, 0
  {
    hide NameEnd, ReadFrom, OpAt, Print, Read, ReadBraced, DropsFrom;
    var e := NameEnd(inner, 0);
    ReadBracedIs(inner, rest);
    ReadBracedIs(inner, Done);
    if e == 0 || OpAt(inner, e).None? {
      BrokenPrints(Unsupported);
    } else {
      InnerParts(inner);
      var (op, o) := OpAt(inner, e).value;
      var operand := inner[o..];
      PrintBraced(ReadBraced(inner, rest));
      DoneReads(inner);
      if op != Plain {
        ReadIsFromStart(operand);
        PrintsShorter(operand, 0);
        assert |inner| == e + |OpText(op)| + |operand|;
        assert Intact(Braced(inner[..e], op, Read(operand), Done)) <==> Intact(Read(operand));
      } else {
        assert Intact(Bare(inner[..e], Done));
      }
    }
  }

  lemma BrokenPrints(why: Refusal)
    ensures Print(Broken(why)) == "" && !Intact(Broken(why))
  {
  }

  lemma {:induction false} PrintsShorter(w: string, i: nat)
    requires i <= |w|
    ensures |Print(ReadFrom(w, i))| <= |w| - i
    ensures DropsFrom(w, i) || !Intact(ReadFrom(w, i)) ==> |Print(ReadFrom(w, i))| < |w| - i
    decreases |w|, 0, |w| - i
  {
    hide *;
    if i == |w| {
      DoneReads(w);
      AtTheEnd(w);
    } else {
      TwoReads(w, i);
      PrintStep(w, i);
      IntactStep(w, i);
      DropsRest(w, i);
      if Two(w, i, '\\', '$') {
        PrintsShorter(w, i + 2);
      } else if w[i] != '$' {
        PrintsShorter(w, i + 1);
      } else if Two(w, i, '$', '{') {
        var end := BraceFrom(w, i + 2, 1);
        if end.Ok? {
          BracedPrintsShorter(w[i + 2..end.value], ReadFrom(w, end.value + 1));
          IntactParts(w[i + 2..end.value], ReadFrom(w, end.value + 1));
          PrintsShorter(w, end.value + 1);
        }
      } else {
        PrintsShorter(w, NameEnd(w, i + 1));
      }
    }
  }

  lemma AtTheEnd(w: string)
    ensures !DropsFrom(w, |w|) && Intact(ReadFrom(w, |w|))
  {
  }

  /** A word is what its template prints, so that no other template spells it, exactly when no part
      is malformed and no bare name in braces has a newline after it. */
  lemma PrintRead(w: string)
    ensures Print(Read(w)) == w <==> Intact(Read(w)) && !DropsNewline(w)
  {
    PrintsShorter(w, 0);
    ReadIsFromStart(w);
    hide Intact, Print, ReadFrom, DropsFrom, Read;
    assert Print(Read(w)) == w ==> |Print(Read(w))| == |w| - 0;
    if Intact(Read(w)) && !DropsNewline(w) {
      PrintReadFrom(w, 0);
      assert w[0..] == w;
    }
  }

  // ----- every word -----

  lemma ReadBracedIs(inner: string, rest: Template)
    ensures var e := NameEnd(inner, 0);
            ReadBraced(inner, rest)
            == if e == 0 || OpAt(inner, e).None? then Broken(Unsupported)
               else
                 var (op, o) := OpAt(inner, e).value;
                 if op == Plain then Bare(inner[..e], rest) else Braced(inner[..e], op, Read(inner[o..]), rest)
  {
  }

  /** Substitution follows the table. */
  lemma SubstitutionIsValue(inner: string, e: nat, op: Op, o: nat, args: Args)
    requires e == NameEnd(inner, 0) > 0 && OpAt(inner, e) == Some((op, o)) && o <= |inner|
    requires Expansion(inner[o..], args) == Eval(Read(inner[o..]), args)
    ensures Substitution(inner, args) == BracedValue(inner[..e], op, Read(inner[o..]), args)
  {
    hide NameEnd, OpAt, Expansion, Read, Eval;
  }

  lemma {:induction false} BracedIsEvaluated(inner: string, rest: Template, args: Args)
    ensures Eval(ReadBraced(inner, rest), args) == Join(Substitution(inner, args), Eval(rest, args))
    decreases |inner|, 2, 0
  {
    var e := NameEnd(inner, 0);
    if e == 0 || OpAt(inner, e).None? {
      assert Substitution(inner, args) == Err(Unsupported);
    } else {
      var (op, o) := OpAt(inner, e).value;
      ExpansionIsEvaluated(inner[o..], 0, args);
      assert Expansion(inner[o..], args) == Eval(Read(inner[o..]), args);
      hide NameEnd, OpAt, Expansion, Substitution, ReadBraced, Read, BracedValue, ExpansionFrom, ReadFrom;
      ReadBracedIs(inner, rest);
      SubstitutionIsValue(inner, e, op, o, args);
      PlainValue(inner[..e], Read(inner[o..]), args);
    }
  }

  lemma PlainValue(name: string, operand: Template, args: Args)
    ensures BracedValue(name, Plain, operand, args) == Looked(name, args)
  {
  }

  lemma {:induction false} ExpansionIsEvaluated(w: string, i: nat, args: Args)
    requires i <= |w|
    ensures ExpansionFrom(w, i, args) == Eval(ReadFrom(w, i), args)
    decreases |w|, 0, |w| - i
  {
    hide BraceFrom, NameEnd, ReadBraced, Substitution;
    if i == |w| {
    } else if Two(w, i, '\\', '$') {
      ExpansionIsEvaluated(w, i + 2, args);
    } else if w[i] != '$' {
      ExpansionIsEvaluated(w, i + 1, args);
    } else if Two(w, i, '$', '{') {
      var end := BraceFrom(w, i + 2, 1);
      if end.Ok? {
        ExpansionIsEvaluated(w, end.value + 1, args);
        BracedIsEvaluated(w[i + 2..end.value], ReadFrom(w, end.value + 1), args);
      }
    } else {
      var e := NameEnd(w, i + 1);
      ExpansionIsEvaluated(w, e, args);
    }
  }

  /** Expanding a word, any word, is evaluating the template it spells: the operators have the
      meaning of section 2.6.2, in nested operands too, and the expansion fails exactly when the
      evaluation consults a variable whose value only the builder knows or comes to a malformed
      place. */
  lemma ExpandsEveryWord(word: string, args: Args)
    ensures Expansion(word, args) == Eval(Read(word), args)
    ensures Expansion(word, args).Err? <==> ConsultsUnknown(Read(word), args) || MeetsBroken(Read(word), args)
  {
    ExpansionIsEvaluated(word, 0, args);
    EvalFailsExactly(Read(word), args);
  }

  lemma {:induction false} PrintableIsIntact(t: Template, inOperand: bool, args: Args)
    requires Printable(t, inOperand)
    ensures !MeetsBroken(t, args)
  {
    if t.Braced? {
      PrintableIsIntact(t.operand, true, args);
    }
    if !t.Done? {
      PrintableIsIntact(t.rest, inOperand, args);
    }
  }

  /** So expanding a printed template is evaluating it. */
  lemma PrintThenExpand(t: Template, args: Args)
    requires Printable(t, false)
    ensures Expansion(Print(t), args) == Eval(t, args)
    ensures Expansion(Print(t), args).Err? <==> ConsultsUnknown(t, args)
  {
    hide *;
    ReadPrint(t);
    ExpandsEveryWord(Print(t), args);
    PrintableIsIntact(t, false, args);
  }
}
