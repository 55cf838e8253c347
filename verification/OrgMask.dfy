// Masking comments and literals before looking for identifiers named after the legacy term.
module OrgMask {
  import opened Common
  import opened Lines
  import Segments

  // ----- language families -----

  datatype Syntax = Syntax(lineTokens: seq<string>, blocks: bool, tripleQuotes: bool)

  function LineTokens(suffix: string): seq<string> {
    if suffix == ".php" then ["//", "#"]
    else if suffix in [".tf", ".hcl"] then ["#", "//"]
    else if suffix == ".sql" then ["--"]
    else if suffix == ".json" then []
    else if suffix in [".py", ".rb", ".sh", ".bash", ".zsh", ".yaml", ".yml"] then ["#"]
    else if suffix in [".go", ".js", ".ts", ".jsx", ".tsx", ".java", ".scala", ".c", ".cpp", ".cc", ".cxx",
                       ".h", ".hpp", ".cs", ".rs", ".kt", ".swift", ".proto", ".tmpl"] then ["//"]
    else ["#", "//"]
  }

  /** Every token that opens a line comment is nonempty and begins with a non-word character. */
  predicate Delimits(x: Syntax) {
    forall tok :: tok in x.lineTokens ==> tok != "" && tok[0] in {'/', '#', '-'}
  }

  function SyntaxOf(suffix: string): (x: Syntax)
    ensures Delimits(x)
  {
    Syntax(LineTokens(suffix), suffix != ".json", suffix == ".py")
  }

  /** What opens a line comment, by suffix: `//` except in SQL, JSON and the scripting languages, `#` in
      those and in PHP and HCL, `--` in SQL; both of the first two for an unknown suffix. Block
      comments open everywhere but in JSON, and triple quotes in Python only. */
  lemma SyntaxExactly(suffix: string)
    ensures var x := SyntaxOf(suffix);
            && x.blocks == (suffix != ".json") && x.tripleQuotes == (suffix == ".py")
            && (forall tok :: tok in x.lineTokens ==> tok in {"//", "#", "--"})
            && ("--" in x.lineTokens <==> suffix == ".sql")
            && ("//" in x.lineTokens
                <==> suffix !in {".py", ".rb", ".sh", ".bash", ".zsh", ".yaml", ".yml", ".sql", ".json"})
            && ("#" in x.lineTokens
                <==> suffix !in [".go", ".js", ".ts", ".jsx", ".tsx", ".java", ".scala", ".c", ".cpp", ".cc", ".cxx",
                                 ".h", ".hpp", ".cs", ".rs", ".kt", ".swift", ".proto", ".tmpl"]
                     && suffix != ".sql" && suffix != ".json")
  {
    SlashTokens(suffix);
    HashTokens(suffix);
    hide LineTokens;
  }

  lemma SlashTokens(suffix: string)
    ensures forall tok :: tok in LineTokens(suffix) ==> tok in {"//", "#", "--"}
    ensures "--" in LineTokens(suffix) <==> suffix == ".sql"
    ensures "//" in LineTokens(suffix)
            <==> suffix !in {".py", ".rb", ".sh", ".bash", ".zsh", ".yaml", ".yml", ".sql", ".json"}
  {
  }

  lemma HashTokens(suffix: string)
    ensures "#" in LineTokens(suffix)
            <==> suffix !in [".go", ".js", ".ts", ".jsx", ".tsx", ".java", ".scala", ".c", ".cpp", ".cc", ".cxx",
                             ".h", ".hpp", ".cs", ".rs", ".kt", ".swift", ".proto", ".tmpl"]
                 && suffix != ".sql" && suffix != ".json"
  {
    if suffix in [".go", ".js", ".ts", ".jsx", ".tsx", ".java", ".scala", ".c", ".cpp", ".cc", ".cxx",
                  ".h", ".hpp", ".cs", ".rs", ".kt", ".swift", ".proto", ".tmpl"] {
      SlashesOnly(suffix);
    }
  }

  lemma SlashesOnly(suffix: string)
    requires suffix in [".go", ".js", ".ts", ".jsx", ".tsx", ".java", ".scala", ".c", ".cpp", ".cc", ".cxx",
                        ".h", ".hpp", ".cs", ".rs", ".kt", ".swift", ".proto", ".tmpl"]
    ensures suffix !in [".php", ".tf", ".hcl", ".sql", ".json", ".py", ".rb", ".sh", ".bash", ".zsh", ".yaml", ".yml"]
  {
  }

  // ----- tokens -----

  predicate At(s: string, i: nat, p: string) {
    i + |p| <= |s| && forall k :: 0 <= k < |p| ==> s[i + k] == p[k]
  }

  predicate OpensComment(s: string, i: nat, tokens: seq<string>) {
    exists tok :: tok in tokens && At(s, i, tok)
  }

  /** A quotation mark, single or tripled. */
  datatype Quote = Quote(mark: char, triple: bool) {
    function Width(): nat { if triple then 3 else 1 }
  }

  predicate QuoteAt(s: string, i: nat, q: Quote) {
    i + q.Width() <= |s| && s[i] == q.mark && (q.triple ==> s[i + 1] == q.mark && s[i + 2] == q.mark)
  }

  predicate IsQuote(q: Quote) { q.mark == '"' || q.mark == '\'' || q.mark == '`' }

  /** The quote that opens at `i`: the first delimiter that stands there, triple quotes only
      where the language has them. */
  function DelimiterAt(s: string, i: nat, triple: bool): (d: Option<Quote>)
    ensures d.Some? ==> IsQuote(d.value) && QuoteAt(s, i, d.value)
  {
    if triple && QuoteAt(s, i, Quote('"', true)) then Some(Quote('"', true))
    else if triple && QuoteAt(s, i, Quote('\'', true)) then Some(Quote('\'', true))
    else if i < |s| && s[i] in {'"', '\'', '`'} then Some(Quote(s[i], false))
    else None
  }

  datatype Kind = CodeChar | LineComment | BlockComment | Quoted(delim: Quote)

  function KindAt(s: string, i: nat, x: Syntax): Kind
    requires i < |s|
  {
    if s[i] == '\n' then CodeChar
    else if x.blocks && Two(s, i, '/', '*') then BlockComment
    else if OpensComment(s, i, x.lineTokens) then LineComment
    else
      match DelimiterAt(s, i, x.tripleQuotes)
      case Some(d) => Quoted(d)
      case None => CodeChar
  }

  /** Where a quoted literal closes; a backslash takes the next character with it, except a
      newline. */
  function QuoteClose(s: string, i: nat, q: Quote): (e: nat)
    requires i <= |s|
    ensures i <= e <= |s| && (e < |s| ==> QuoteAt(s, e, q))
    decreases |s| - i
  {
    if i == |s| then i
    else if s[i] == '\n' then QuoteClose(s, i + 1, q)
    else if s[i] == '\\' && i + 1 < |s| && s[i + 1] != '\n' then QuoteClose(s, i + 2, q)
    else if QuoteAt(s, i, q) then i
    else QuoteClose(s, i + 1, q)
  }

  /** Where the closing delimiter of the token at `i` begins, or where an open token ends. */
  function CloseAt(s: string, i: nat, x: Syntax): (c: nat)
    requires i < |s|
    ensures i <= c <= |s|
  {
    match KindAt(s, i, x)
    case CodeChar => i + 1
    case LineComment => LineEnd(s, i)
    case BlockComment => FirstClose(s, i + 2)
    case Quoted(d) => QuoteClose(s, i + d.Width(), d)
  }

  function EndAt(s: string, i: nat, x: Syntax): (e: nat)
    requires i < |s|
    ensures i < e <= |s|
  {
    var c := CloseAt(s, i, x);
    match KindAt(s, i, x)
    case BlockComment => if c < |s| then c + 2 else c
    case Quoted(d) => if c < |s| then c + d.Width() else c
    case LineComment => c
    case CodeChar => c
  }

  /** Where the tokens of the text end. */
  function Ends(s: string, x: Syntax): nat -> nat {
    (i: nat) => if i < |s| then EndAt(s, i, x) else i + 1
  }

  /** The start of the token that holds position `i`. */
  function Start(s: string, x: Syntax, i: nat): (a: nat)
    requires i < |s|
    ensures a <= i < EndAt(s, a, x)
  {
    Segments.Start(Ends(s, x), i)
  }

  /** A position between two tokens of the segmentation. */
  predicate Boundary(s: string, x: Syntax, i: nat) {
    i == |s| || (i < |s| && Start(s, x, i) == i)
  }

  /** A position outside comments and literals. */
  predicate IsCode(s: string, x: Syntax, i: nat)
    requires i < |s|
  {
    KindAt(s, Start(s, x, i), x) == CodeChar
  }

  /** From a boundary, the positions of one token belong to it and its end is a boundary. */
  lemma TokenCovers(s: string, x: Syntax, a: nat)
    requires a < |s| && Boundary(s, x, a)
    ensures forall i :: a <= i < EndAt(s, a, x) ==> Start(s, x, i) == a
    ensures Boundary(s, x, EndAt(s, a, x))
  {
    Segments.Covers(Ends(s, x), a);
  }

  lemma StartIsBoundary(s: string, x: Syntax, i: nat)
    requires i < |s|
    ensures Boundary(s, x, Start(s, x, i))
  {
    Segments.StartsUnit(Ends(s, x), 0, i);
  }

  // ----- the lexical rules, without the scanning functions -----

  /** In contents that begin at `a`, a character other than a newline is escaped when an unescaped
      backslash stands before it. */
  predicate Escaped(s: string, a: nat, i: nat)
    requires i <= |s|
  {
    i > a && s[i - 1] == '\\' && (i == |s| || s[i] != '\n') && !Escaped(s, a, i - 1)
  }

  predicate OpensBlock(s: string, a: nat, x: Syntax) { x.blocks && Two(s, a, '/', '*') }

  /** The delimiter that opens at `a`: a quotation mark, tripled where it can be. */
  predicate OpensQuote(s: string, a: nat, x: Syntax, d: Quote) {
    && IsQuote(d) && QuoteAt(s, a, d)
    && (d.triple <==> x.tripleQuotes && d.mark != '`' && QuoteAt(s, a, Quote(d.mark, true)))
  }

  /** The closing delimiter stands at `c`, unescaped, in the literal that opens at `a`. */
  predicate ClosesQuote(s: string, a: nat, d: Quote, c: nat) {
    a + d.Width() <= c && QuoteAt(s, c, d) && !Escaped(s, a + d.Width(), c)
  }

  /** The lexical rules: `s[a..e]` is one token. A block comment goes before a line comment, and a
      line comment before a literal. */
  predicate IsToken(s: string, a: nat, e: nat, x: Syntax, k: Kind)
    requires a < e <= |s|
  {
    match k
    case BlockComment =>
      s[a] != '\n' && OpensBlock(s, a, x) && EndsBlock(s, a + 2, e)
    case LineComment =>
      s[a] != '\n' && !OpensBlock(s, a, x) && OpensComment(s, a, x.lineTokens)
      && (forall j :: a <= j < e ==> s[j] != '\n') && (e == |s| || s[e] == '\n')
    case Quoted(d) =>
      && s[a] != '\n' && !OpensBlock(s, a, x) && !OpensComment(s, a, x.lineTokens) && OpensQuote(s, a, x, d)
      && a + d.Width() <= e && (forall c: nat :: c < e - d.Width() ==> !ClosesQuote(s, a, d, c))
      && (e == |s| || ClosesQuote(s, a, d, e - d.Width()))
    case CodeChar =>
      && e == a + 1
      && (s[a] == '\n'
          || (!OpensBlock(s, a, x) && !OpensComment(s, a, x.lineTokens) && s[a] !in {'"', '\'', '`'}))
  }

  /** The closing quote is the first one that is not escaped. */
  lemma {:induction false} QuoteCloseIsFirstUnescaped(s: string, a: nat, i: nat, q: Quote)
    requires a <= i <= |s| && IsQuote(q) && !Escaped(s, a, i)
    ensures var e := QuoteClose(s, i, q);
            && (forall j :: i <= j < e && QuoteAt(s, j, q) ==> Escaped(s, a, j))
            && (e < |s| ==> !Escaped(s, a, e))
    decreases |s| - i
  {
    if i < |s| {
      if s[i] == '\\' && i + 1 < |s| && s[i + 1] != '\n' {
        assert Escaped(s, a, i + 1) && !Escaped(s, a, i + 2);
        QuoteCloseIsFirstUnescaped(s, a, i + 2, q);
      } else if !QuoteAt(s, i, q) && i + 1 < |s| {
        assert !Escaped(s, a, i + 1);
        QuoteCloseIsFirstUnescaped(s, a, i + 1, q);
      }
    }
  }

  lemma QuoteDetermined(s: string, a: nat, e: nat, x: Syntax, d: Quote)
    requires a < e <= |s| && KindAt(s, a, x) == Quoted(d)
    ensures (&& a + d.Width() <= e && (forall c: nat :: c < e - d.Width() ==> !ClosesQuote(s, a, d, c))
             && (e == |s| || ClosesQuote(s, a, d, e - d.Width())))
            <==> e == EndAt(s, a, x)
  {
    var i := a + d.Width();
    assert IsQuote(d) && i <= |s|;
    QuoteCloseIsFirstUnescaped(s, i, i, d);
    var q := QuoteClose(s, i, d);
    hide Escaped, KindAt, IsQuote;
    assert q < |s| ==> ClosesQuote(s, a, d, q);
    assert forall c: nat :: c < q ==> !ClosesQuote(s, a, d, c);
    assert forall c: nat :: ClosesQuote(s, a, d, c) ==> c < |s|;
    assert EndAt(s, a, x) == if q < |s| then q + d.Width() else q;
    hide ClosesQuote;
  }

  /** The rules leave exactly one token at every position, the one the segmentation takes. */
  lemma GrammarDeterminesToken(s: string, a: nat, e: nat, x: Syntax, k: Kind)
    requires a < e <= |s|
    ensures IsToken(s, a, e, x, k) <==> k == KindAt(s, a, x) && e == EndAt(s, a, x)
  {
    forall d ensures OpensQuote(s, a, x, d) <==> DelimiterAt(s, a, x.tripleQuotes) == Some(d) {
    }
    hide OpensComment, ClosesQuote;
    match KindAt(s, a, x)
    case Quoted(d) =>
      QuoteDetermined(s, a, e, x, d);
    case BlockComment => BlockEndDetermined(s, a + 2, e);
    case LineComment =>
    case CodeChar =>
  }

  // ----- the mask -----

  function Shown(s: string, x: Syntax, i: nat): char
    requires i < |s|
  {
    if IsCode(s, x, i) || s[i] == '\n' then s[i] else ' '
  }

  function MaskFrom(s: string, x: Syntax, i: nat): (m: string)
    requires i <= |s|
    ensures |m| == |s| - i
    decreases |s| - i
  {
    if i == |s| then "" else [Shown(s, x, i)] + MaskFrom(s, x, i + 1)
  }

  /** The masked text. */
  function Mask(s: string, x: Syntax): (m: string)
    ensures |m| == |s|
  {
    MaskFrom(s, x, 0)
  }

  lemma {:induction false} MaskAt(s: string, x: Syntax, i: nat, j: nat)
    requires i <= j < |s|
    ensures MaskFrom(s, x, i)[j - i] == Shown(s, x, j)
    decreases j - i
  {
    hide Shown;
    if i < j {
      MaskAt(s, x, i + 1, j);
    }
  }

  /** What the mask shows of a token, by the lexical rules alone: code and newlines stay, all else is
      blank. Where the token ends the next begins. */
  lemma MaskShows(s: string, x: Syntax, a: nat, e: nat, k: Kind, i: nat)
    requires a <= i < e <= |s| && Boundary(s, x, a) && IsToken(s, a, e, x, k)
    ensures Mask(s, x)[i] == if k == CodeChar || s[i] == '\n' then s[i] else ' '
    ensures Boundary(s, x, e)
  {
    hide Boundary, Start, IsToken, KindAt, EndAt, MaskFrom;
    GrammarDeterminesToken(s, a, e, x, k);
    TokenCovers(s, x, a);
    MaskAt(s, x, 0, i);
  }

  // ----- the one-pass scanner -----

  datatype State = Code | InBlock | InQuote(delim: Quote)

  /** One turn of the scanner: how much it reads, the state it leaves, and whether it writes
      spaces or the one character it read. */
  datatype Turn = Turn(read: nat, next: State, blank: bool)

  function Spaces(n: nat): (r: string)
    ensures |r| == n
  {
    seq(n, _ => ' ')
  }

  function Written(s: string, i: nat, t: Turn): (w: string)
    requires i < |s|
  {
    if t.blank then Spaces(t.read) else [s[i]]
  }

  function Opening(s: string, i: nat, k: Kind): Turn
    requires i < |s|
  {
    match k
    case BlockComment => Turn(2, InBlock, true)
    case LineComment => Turn(LineEnd(s, i) - i, Code, true)
    case Quoted(d) => Turn(d.Width(), InQuote(d), true)
    case CodeChar => Turn(1, Code, false)
  }

  function TurnAt(s: string, i: nat, state: State, x: Syntax): (t: Turn)
    requires i < |s|
    ensures 1 <= t.read && i + t.read <= |s| && (!t.blank ==> t.read == 1)
  {
    if s[i] == '\n' then Turn(1, state, false)
    else
      match state
      case InBlock => if Two(s, i, '*', '/') then Turn(2, Code, true) else Turn(1, InBlock, true)
      case InQuote(q) =>
        if s[i] == '\\' && i + 1 < |s| && s[i + 1] != '\n' then Turn(2, state, true)
        else if QuoteAt(s, i, q) then Turn(q.Width(), Code, true)
        else Turn(1, state, true)
      case Code => Opening(s, i, KindAt(s, i, x))
  }

  function Machine(s: string, i: nat, state: State, x: Syntax): string
    requires i <= |s|
    decreases |s| - i
  {
    if i == |s| then ""
    else
      var t := TurnAt(s, i, state, x);
      Written(s, i, t) + Machine(s, i + t.read, t.next, x)
  }

  lemma MachineUnfolds(s: string, i: nat, state: State, x: Syntax)
    requires i < |s|
    ensures var t := TurnAt(s, i, state, x);
            Machine(s, i, state, x) == Written(s, i, t) + Machine(s, i + t.read, t.next, x)
  {
  }

  /** The scanner has written `out` so far and stands at `i`. */
  ghost predicate Progress(s: string, x: Syntax, i: nat, state: State, out: string) {
    i <= |s| && out + Machine(s, i, state, x) == Machine(s, 0, Code, x)
  }

  lemma OneTurn(s: string, x: Syntax, i: nat, state: State, out: string)
    requires i < |s| && Progress(s, x, i, state, out)
    ensures var t := TurnAt(s, i, state, x);
            Progress(s, x, i + t.read, t.next, out + Written(s, i, t))
  {
    var t := TurnAt(s, i, state, x);
    MachineUnfolds(s, i, state, x);
    ConcatAssociates(out, Written(s, i, t), Machine(s, i + t.read, t.next, x));
  }

  /** What the scanner's state says about position `i` of a token that began at `a`. */
  ghost predicate Inside(s: string, x: Syntax, a: nat, i: nat, state: State) {
    if state.Code? then Boundary(s, x, i)
    else
      && a < |s| && Boundary(s, x, a) && a < i <= CloseAt(s, a, x)
      && KindAt(s, a, x) == (if state.InBlock? then BlockComment else Quoted(state.delim))
      && (state.InBlock? ==> a + 2 <= i)
      && (state.InQuote? ==> a + state.delim.Width() <= i && QuoteClose(s, i, state.delim) == CloseAt(s, a, x))
  }

  /** A turn shows the characters it reads, and leaves a state that fits its new place. */
  ghost predicate Shows(s: string, x: Syntax, i: nat, t: Turn)
    requires i < |s|
  {
    if t.blank then BlankFrom(s, x, i, t.read) else t.read == 1 && Shown(s, x, i) == s[i]
  }

  ghost predicate BlankFrom(s: string, x: Syntax, i: nat, n: nat) {
    i + n <= |s| && forall j :: i <= j < i + n ==> Shown(s, x, j) == ' '
  }

  ghost predicate Leads(s: string, x: Syntax, a: nat, i: nat, state: State)
    requires i < |s|
  {
    var t := TurnAt(s, i, state, x);
    Inside(s, x, if state.Code? then i else a, i + t.read, t.next)
  }

  /** Within a token that is not code, spaces show whatever holds no newline. */
  lemma BlankRange(s: string, x: Syntax, a: nat, i: nat, n: nat)
    requires a < |s| && Boundary(s, x, a) && KindAt(s, a, x) != CodeChar
    requires a <= i && i + n <= EndAt(s, a, x)
    requires forall j :: i <= j < i + n ==> s[j] != '\n'
    ensures BlankFrom(s, x, i, n)
  {
    hide Boundary, Start;
    TokenCovers(s, x, a);
  }

  lemma CodeShows(s: string, x: Syntax, i: nat)
    requires i < |s| && Boundary(s, x, i)
    ensures Shows(s, x, i, TurnAt(s, i, Code, x))
  {
    hide Boundary, Start;
    if s[i] != '\n' {
      match KindAt(s, i, x)
      case BlockComment => BlankRange(s, x, i, i, 2);
      case LineComment => BlankRange(s, x, i, i, LineEnd(s, i) - i);
      case Quoted(d) =>
        BlankRange(s, x, i, i, d.Width());
      case CodeChar => TokenCovers(s, x, i);
    }
  }

  lemma CodeLeads(s: string, x: Syntax, a: nat, i: nat)
    requires i < |s| && Boundary(s, x, i)
    ensures Leads(s, x, a, i, Code)
  {
    hide Boundary, Start;
    TokenCovers(s, x, i);
    if KindAt(s, i, x).Quoted? {
      var d := KindAt(s, i, x).delim;
      assert Inside(s, x, i, i + d.Width(), InQuote(d));
    } else if KindAt(s, i, x).BlockComment? {
      assert Inside(s, x, i, i + 2, InBlock);
    } else {
      assert TurnAt(s, i, Code, x) == Turn(EndAt(s, i, x) - i, Code, KindAt(s, i, x).LineComment?);
    }
  }

  lemma BlockShows(s: string, x: Syntax, a: nat, i: nat)
    requires i < |s| && Inside(s, x, a, i, InBlock)
    ensures Shows(s, x, i, TurnAt(s, i, InBlock, x))
  {
    hide Boundary, Start;
    if s[i] != '\n' {
      BlankRange(s, x, a, i, TurnAt(s, i, InBlock, x).read);
    }
  }

  lemma BlockLeads(s: string, x: Syntax, a: nat, i: nat)
    requires i < |s| && Inside(s, x, a, i, InBlock)
    ensures Leads(s, x, a, i, InBlock)
  {
    hide Boundary, Start;
    TokenCovers(s, x, a);
    assert Two(s, i, '*', '/') <==> CloseAt(s, a, x) == i;
  }

  lemma QuoteShows(s: string, x: Syntax, a: nat, i: nat, q: Quote)
    requires i < |s| && Inside(s, x, a, i, InQuote(q))
    ensures Shows(s, x, i, TurnAt(s, i, InQuote(q), x))
  {
    hide Boundary, Start;
    if s[i] != '\n' {
      BlankRange(s, x, a, i, TurnAt(s, i, InQuote(q), x).read);
    }
  }

  lemma QuoteCloses(s: string, x: Syntax, a: nat, i: nat, q: Quote)
    requires i < |s| && Inside(s, x, a, i, InQuote(q)) && QuoteClose(s, i, q) == i
    ensures Boundary(s, x, i + q.Width())
  {
    hide Boundary, Start;
    TokenCovers(s, x, a);
    assert EndAt(s, a, x) == i + q.Width();
  }

  lemma QuoteLeads(s: string, x: Syntax, a: nat, i: nat, q: Quote)
    requires i < |s| && Inside(s, x, a, i, InQuote(q))
    ensures Leads(s, x, a, i, InQuote(q))
  {
    hide Boundary, Start;
    var t := TurnAt(s, i, InQuote(q), x);
    if t.next.Code? {
      assert t.read == q.Width() && QuoteClose(s, i, q) == i;
      QuoteCloses(s, x, a, i, q);
    } else {
      assert t.next == InQuote(q) && QuoteClose(s, i, q) == QuoteClose(s, i + t.read, q);
    }
  }

  lemma TurnIsSound(s: string, x: Syntax, a: nat, i: nat, state: State)
    requires i < |s| && Inside(s, x, a, i, state)
    ensures Shows(s, x, i, TurnAt(s, i, state, x)) && Leads(s, x, a, i, state)
  {
    hide Shows, Leads, TurnAt;
    match state {
      case Code =>
        CodeShows(s, x, i);
        CodeLeads(s, x, a, i);
      case InBlock =>
        BlockShows(s, x, a, i);
        BlockLeads(s, x, a, i);
      case InQuote(q) =>
        QuoteShows(s, x, a, i, q);
        QuoteLeads(s, x, a, i, q);
    }
  }

  ghost predicate ShowsRest(s: string, x: Syntax, i: nat, m: string) {
    i + |m| == |s| && forall k :: 0 <= k < |m| ==> m[k] == Shown(s, x, i + k)
  }

  lemma ShowsConcat(s: string, x: Syntax, i: nat, t: Turn, m: string)
    requires i < |s| && Shows(s, x, i, t) && ShowsRest(s, x, i + t.read, m)
    ensures ShowsRest(s, x, i, Written(s, i, t) + m)
  {
    hide Shown;
    var w := Written(s, i, t);
    assert |w| == t.read;
    forall k | t.read <= k < |w + m| ensures (w + m)[k] == Shown(s, x, i + k) {
      assert m[k - t.read] == Shown(s, x, i + t.read + (k - t.read));
    }
  }

  lemma ShowsOneMore(s: string, x: Syntax, i: nat, state: State)
    requires i < |s| && Shows(s, x, i, TurnAt(s, i, state, x))
    requires var t := TurnAt(s, i, state, x); ShowsRest(s, x, i + t.read, Machine(s, i + t.read, t.next, x))
    ensures ShowsRest(s, x, i, Machine(s, i, state, x))
  {
    hide *;
    var t := TurnAt(s, i, state, x);
    MachineUnfolds(s, i, state, x);
    ShowsConcat(s, x, i, t, Machine(s, i + t.read, t.next, x));
  }

  lemma {:induction false} MachineShows(s: string, x: Syntax, a: nat, i: nat, state: State)
    requires i <= |s| && Inside(s, x, a, i, state)
    ensures ShowsRest(s, x, i, Machine(s, i, state, x))
    decreases |s| - i
  {
    hide TurnAt, Inside, Shows;
    if i < |s| {
      var t := TurnAt(s, i, state, x);
      TurnIsSound(s, x, a, i, state);
      MachineShows(s, x, if state.Code? then i else a, i + t.read, t.next);
      ShowsOneMore(s, x, i, state);
    }
  }

  /** The one-pass scanner computes the mask of the segmented text. */
  lemma MachineIsMask(s: string, x: Syntax)
    ensures Machine(s, 0, Code, x) == Mask(s, x)
  {
    MachineShows(s, x, 0, 0, Code);
    var m := Machine(s, 0, Code, x);
    forall k | 0 <= k < |s| ensures m[k] == Mask(s, x)[k] {
      assert m[k] == Shown(s, x, 0 + k);
      MaskAt(s, x, 0, k);
    }
  }

  method FindsLineToken(text: string, i: nat, tokens: seq<string>) returns (found: bool)
    ensures found == OpensComment(text, i, tokens)
  {
    for k := 0 to |tokens|
      invariant forall j :: 0 <= j < k ==> !At(text, i, tokens[j])
    {
      if At(text, i, tokens[k]) {
        return true;
      }
    }
    return false;
  }

  /** The opening tests of the scanner, in its order: block comment, line comment, quote. */
  method OpenerAt(text: string, i: nat, x: Syntax) returns (k: Kind)
    requires i < |text| && text[i] != '\n'
    ensures k == KindAt(text, i, x)
  {
    if x.blocks && Two(text, i, '/', '*') {
      return BlockComment;
    }
    var comment := FindsLineToken(text, i, x.lineTokens);
    if comment {
      return LineComment;
    }
    var delim := DelimiterAt(text, i, x.tripleQuotes);
    return if delim.Some? then Quoted(delim.value) else CodeChar;
  }

  /** The scanning loop; `state` is the open delimiter or the open block comment, if any. */
  method MaskWith(text: string, x: Syntax) returns (out: string)
    ensures out == Mask(text, x)
  {
    hide TurnAt, Written, Mask, Machine, Progress;
    out := "";
    var i, state := 0, Code;
    StartsProgress(text, x);
    while i < |text|
      invariant 0 <= i <= |text| && Progress(text, x, i, state, out)
    {
      OneTurn(text, x, i, state, out);
      var piece, read, next := TakeTurn(text, x, i, state);
      out := out + piece;
      i, state := i + read, next;
    }
    EndsProgress(text, x, state, out);
  }

  lemma StartsProgress(s: string, x: Syntax)
    ensures Progress(s, x, 0, Code, "")
  {
    assert "" + Machine(s, 0, Code, x) == Machine(s, 0, Code, x);
  }

  lemma EndsProgress(s: string, x: Syntax, state: State, out: string)
    requires Progress(s, x, |s|, state, out)
    ensures out == Mask(s, x)
  {
    MachineIsMask(s, x);
    assert out + "" == out;
  }

  /** The body of the scanner's loop. */
  method TakeTurn(text: string, x: Syntax, i: nat, state: State) returns (piece: string, read: nat, next: State)
    requires i < |text|
    ensures var t := TurnAt(text, i, state, x);
            piece == Written(text, i, t) && read == t.read && next == t.next
  {
    hide OpensComment, DelimiterAt, KindAt;
    var ch := text[i];
    piece, read, next := Spaces(1), 1, state;
    if ch == '\n' {
      piece := [ch];
    } else {
      match state {
        case InBlock =>
          if Two(text, i, '*', '/') {
            piece, read, next := Spaces(2), 2, Code;
          }
        case InQuote(quote) =>
          if ch == '\\' && i + 1 < |text| && text[i + 1] != '\n' {
            piece, read := Spaces(2), 2;
          } else if QuoteAt(text, i, quote) {
            piece, read, next := Spaces(quote.Width()), quote.Width(), Code;
          }
        case Code =>
          var kind := OpenerAt(text, i, x);
          if kind.BlockComment? {
            piece, read, next := Spaces(2), 2, InBlock;
          } else if kind.LineComment? {
            read := LineEnd(text, i) - i;
            piece := Spaces(read);
          } else if kind.Quoted? {
            piece, read, next := Spaces(kind.delim.Width()), kind.delim.Width(), InQuote(kind.delim);
          } else {
            piece := [ch];
          }
      }
    }
  }

  /** The mask of a file, by the syntax its suffix stands for. */
  method MaskNonCode(text: string, suffix: string) returns (out: string)
    ensures out == Mask(text, SyntaxOf(suffix))
  {
    out := MaskWith(text, SyntaxOf(suffix));
  }

  // ----- layout -----

  /** Length and every newline stay; every character stays or becomes a space. */
  lemma MaskLayout(s: string, x: Syntax)
    ensures SameLayout(Mask(s, x), s)
    ensures forall i :: 0 <= i < |s| ==> Mask(s, x)[i] in {s[i], ' '}
  {
    forall i | 0 <= i < |s| ensures Mask(s, x)[i] == Shown(s, x, i) {
      MaskAt(s, x, 0, i);
    }
  }

  /** A masked region begins and ends at a non-word character, or at the end of a line or of the
      file: a word character of code has the same word characters around it in both texts. */
  predicate WordsAgree(m: string, s: string) {
    |m| == |s| && forall p :: 0 <= p < |m| ==> AgreeAt(m, s, p)
  }

  predicate AgreeAt(m: string, s: string, p: nat)
    requires p < |m| == |s|
  {
    IsWordChar(m[p]) ==>
      && m[p] == s[p]
      && (p + 1 < |m| ==> (IsWordChar(m[p + 1]) <==> IsWordChar(s[p + 1])))
      && (p > 0 ==> (IsWordChar(m[p - 1]) <==> IsWordChar(s[p - 1])))
  }

  lemma RegionsDelimited(s: string, x: Syntax)
    requires Delimits(x)
    ensures WordsAgree(Mask(s, x), s)
  {
    var m := Mask(s, x);
    forall p | 0 <= p < |m| ensures AgreeAt(m, s, p) {
      AgreesAround(s, x, m, p);
    }
  }

  lemma WordIsCode(s: string, x: Syntax, p: nat)
    requires p < |s|
    ensures IsWordChar(Shown(s, x, p)) ==> IsCode(s, x, p) && Shown(s, x, p) == s[p]
  {
  }

  lemma AgreesAround(s: string, x: Syntax, m: string, p: nat)
    requires Delimits(x) && p < |s| && m == Mask(s, x)
    ensures AgreeAt(m, s, p)
  {
    hide Shown;
    MaskAt(s, x, 0, p);
    WordIsCode(s, x, p);
    if IsWordChar(m[p]) {
      if p + 1 < |m| {
        MaskAt(s, x, 0, p + 1);
        WordAfter(s, x, p);
      }
      if p > 0 {
        MaskAt(s, x, 0, p - 1);
        WordBefore(s, x, p);
      }
    }
  }

  lemma OpenersAreNotWords(s: string, x: Syntax, i: nat)
    requires i < |s| && Delimits(x) && KindAt(s, i, x) != CodeChar
    ensures !IsWordChar(s[i])
  {
    match KindAt(s, i, x)
    case BlockComment =>
    case LineComment =>
      var tok :| tok in x.lineTokens && At(s, i, tok);
      assert s[i + 0] == tok[0];
    case Quoted(_) =>
  }

  lemma ClosersAreNotWords(s: string, x: Syntax, a: nat)
    requires a < |s| && KindAt(s, a, x) != CodeChar && EndAt(s, a, x) < |s|
    ensures !IsWordChar(s[EndAt(s, a, x) - 1]) || s[EndAt(s, a, x)] == '\n'
  {
  }

  lemma WordAfter(s: string, x: Syntax, p: nat)
    requires p + 1 < |s| && Delimits(x) && IsCode(s, x, p)
    ensures IsWordChar(Shown(s, x, p + 1)) <==> IsWordChar(s[p + 1])
  {
    hide Boundary, Start;
    StartIsBoundary(s, x, p);
    TokenCovers(s, x, Start(s, x, p));
    assert Start(s, x, p) == p;
    if !IsCode(s, x, p + 1) {
      OpenersAreNotWords(s, x, p + 1);
    }
  }

  lemma WordBefore(s: string, x: Syntax, p: nat)
    requires 0 < p < |s| && Delimits(x) && IsCode(s, x, p) && IsWordChar(s[p])
    ensures IsWordChar(Shown(s, x, p - 1)) <==> IsWordChar(s[p - 1])
  {
    hide Boundary, Start;
    var a := Start(s, x, p - 1);
    StartIsBoundary(s, x, p - 1);
    TokenCovers(s, x, a);
    assert EndAt(s, a, x) == p;
    if !IsCode(s, x, p - 1) {
      ClosersAreNotWords(s, x, a);
    }
  }
}
