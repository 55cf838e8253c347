// Blanking SQL comments and literals while dollar-quoted bodies stay as they are.
module SqlLexer {
  import opened Lines
  import Segments

  // ----- tokens, by the scanner's own lexical rules -----

  predicate TagChar(c: char) { 'a' <= c <= 'z' || 'A' <= c <= 'Z' || c == '_' }

  lemma TagChars(c: char)
    ensures TagChar(c) <==> c in LOWER || c in UPPER || c == '_'
  {
    Letters(c);
    hide LOWER, UPPER;
  }

  /** End of the run of tag characters that starts at `i`. */
  function TagRun(s: string, i: nat): (e: nat)
    requires i <= |s|
    ensures i <= e <= |s|
    decreases |s| - i
  {
    if i < |s| && TagChar(s[i]) then TagRun(s, i + 1) else i
  }

  /** A dollar-quoting tag stands at `i`. */
  predicate TagAt(s: string, i: nat) {
    i < |s| && s[i] == '$' && TagRun(s, i + 1) < |s| && s[TagRun(s, i + 1)] == '$'
  }

  function TagEnd(s: string, i: nat): (e: nat)
    requires TagAt(s, i)
    ensures i + 2 <= e <= |s|
  {
    TagRun(s, i + 1) + 1
  }

  /** What stands at `i` repeats the tag `s[a..e]`. */
  predicate Repeats(s: string, i: nat, a: nat, e: nat)
    requires a <= e <= |s|
    ensures Repeats(s, i, a, e) ==> i + (e - a) <= |s| || a == e
    decreases e - a
  {
    a == e || (i < |s| && s[i] == s[a] && Repeats(s, i + 1, a + 1, e))
  }

  /** First place from `i` on where the tag `s[a..e]` stands again, or the end. */
  function FindTag(s: string, i: nat, a: nat, e: nat): (c: nat)
    requires i <= |s| && a <= e <= |s|
    ensures i <= c <= |s| && (c < |s| ==> Repeats(s, c, a, e))
    ensures forall j :: i <= j < c ==> !Repeats(s, j, a, e)
    decreases |s| - i
  {
    if i == |s| || Repeats(s, i, a, e) then i else FindTag(s, i + 1, a, e)
  }

  /** Where a single-quoted literal closes: a doubled quote does not close it. */
  function LiteralClose(s: string, i: nat): (e: nat)
    requires i <= |s|
    ensures i <= e <= |s| && (e < |s| ==> s[e] == '\'')
    decreases |s| - i
  {
    if i == |s| then i
    else if Two(s, i, '\'', '\'') then LiteralClose(s, i + 2)
    else if s[i] == '\'' then i
    else LiteralClose(s, i + 1)
  }

  datatype Kind = CodeChar | LineComment | BlockComment | Literal | Dollar

  function KindAt(s: string, i: nat): Kind
    requires i < |s|
  {
    if Two(s, i, '-', '-') then LineComment
    else if Two(s, i, '/', '*') then BlockComment
    else if TagAt(s, i) then Dollar
    else if s[i] == '\'' then Literal
    else CodeChar
  }

  /** Where the closing delimiter of the token at `i` begins, or where an open token ends. */
  function CloseAt(s: string, i: nat): (c: nat)
    requires i < |s|
    ensures i < c <= |s|
  {
    match KindAt(s, i)
    case LineComment => LineEnd(s, i + 2)
    case BlockComment => FirstClose(s, i + 2)
    case Dollar => FindTag(s, TagEnd(s, i), i, TagEnd(s, i))
    case Literal => LiteralClose(s, i + 1)
    case CodeChar => i + 1
  }

  function EndAt(s: string, i: nat): (e: nat)
    requires i < |s|
    ensures i < e <= |s|
  {
    var c := CloseAt(s, i);
    match KindAt(s, i)
    case BlockComment => if c < |s| then c + 2 else c
    case Dollar => if c < |s| then c + (TagEnd(s, i) - i) else c
    case Literal => if c < |s| then c + 1 else c
    case _ => c
  }

  /** Where the tokens of the text end. */
  function Ends(s: string): nat -> nat {
    (i: nat) => if i < |s| then EndAt(s, i) else i + 1
  }

  /** The start of the token that holds position `i`. */
  function Start(s: string, i: nat): (a: nat)
    requires i < |s|
    ensures a <= i < EndAt(s, a)
  {
    Segments.Start(Ends(s), i)
  }

  /** A position between two tokens of the segmentation. */
  predicate Boundary(s: string, i: nat) {
    i == |s| || (i < |s| && Start(s, i) == i)
  }

  /** From a boundary, the positions of one token belong to it and its end is a boundary. */
  lemma TokenCovers(s: string, a: nat)
    requires a < |s| && Boundary(s, a)
    ensures forall i :: a <= i < EndAt(s, a) ==> Start(s, i) == a
    ensures Boundary(s, EndAt(s, a))
  {
    Segments.Covers(Ends(s), a);
  }

  lemma StartIsBoundary(s: string, i: nat)
    requires i < |s|
    ensures Boundary(s, Start(s, i))
  {
    Segments.StartsUnit(Ends(s), 0, i);
  }

  // ----- the lexical rules, without the scanning functions -----

  /** A tag stands in `a..m`: two dollar signs with letters and underscores between them. */
  predicate IsTag(s: string, a: nat, m: nat) {
    && a + 2 <= m <= |s| && s[a] == '$' && s[m - 1] == '$'
    && forall j :: a < j < m - 1 ==> TagChar(s[j])
  }

  /** Single quotes between `i` and `j`. */
  function Quotes(s: string, i: nat, j: nat): nat
    requires i <= j <= |s|
  {
    if i == j then 0 else Quotes(s, i, j - 1) + (if s[j - 1] == '\'' then 1 else 0)
  }

  /** The quote at `c` closes the literal that opens at `a`: quotes before it are doubled, and no
      other quote follows it. */
  predicate ClosesLiteral(s: string, a: nat, c: nat) {
    && a < c < |s| && s[c] == '\'' && Quotes(s, a + 1, c) % 2 == 0
    && (c + 1 == |s| || s[c + 1] != '\'')
  }

  /** The lexical rules: `s[a..e]` is one token. */
  predicate IsToken(s: string, a: nat, e: nat, k: Kind)
    requires a < e <= |s|
  {
    match k
    case LineComment =>
      Two(s, a, '-', '-') && a + 2 <= e && (forall j :: a <= j < e ==> s[j] != '\n')
      && (e == |s| || s[e] == '\n')
    case BlockComment =>
      Two(s, a, '/', '*') && EndsBlock(s, a + 2, e)
    case Literal =>
      s[a] == '\'' && (forall c :: a < c < e - 1 ==> !ClosesLiteral(s, a, c))
      && (e == |s| || ClosesLiteral(s, a, e - 1))
    case Dollar => exists m :: a < m <= e && IsTag(s, a, m) && IsDollar(s, a, m, e)
    case CodeChar =>
      e == a + 1 && !Two(s, a, '-', '-') && !Two(s, a, '/', '*') && s[a] != '\''
      && forall m :: a < m <= |s| ==> !IsTag(s, a, m)
  }

  /** With the tag in `a..m`, the dollar-quoted body ends at `e`: with the first repetition of the
      tag, or with the text. */
  predicate IsDollar(s: string, a: nat, m: nat, e: nat)
    requires a < m <= e <= |s|
  {
    && (forall j :: m <= j < e - (m - a) ==> !Occurs(s, j, s[a..m]))
    && (e == |s| || (m + (m - a) <= e && Occurs(s, e - (m - a), s[a..m])))
  }

  lemma {:induction false} TagRunIs(s: string, i: nat, e: nat)
    requires i <= e <= |s| && (forall j :: i <= j < e ==> TagChar(s[j]))
    requires e < |s| ==> !TagChar(s[e])
    ensures TagRun(s, i) == e
    decreases e - i
  {
    if i < e {
      TagRunIs(s, i + 1, e);
    }
  }

  lemma {:induction false} TagRunHolds(s: string, i: nat)
    requires i <= |s|
    ensures forall j :: i <= j < TagRun(s, i) ==> TagChar(s[j])
    decreases |s| - i
  {
    if i < TagRun(s, i) {
      TagRunHolds(s, i + 1);
    }
  }

  lemma TagDetermined(s: string, a: nat, m: nat)
    requires a < |s|
    ensures IsTag(s, a, m) <==> TagAt(s, a) && m == TagEnd(s, a)
  {
    TagRunHolds(s, a + 1);
    if IsTag(s, a, m) {
      TagRunIs(s, a + 1, m - 1);
    }
  }

  lemma {:induction false} RepeatsOccurs(s: string, i: nat, a: nat, m: nat)
    requires a <= m <= |s|
    ensures Repeats(s, i, a, m) && i <= |s| <==> Occurs(s, i, s[a..m])
    decreases m - a
  {
    if a < m {
      RepeatsOccurs(s, i + 1, a + 1, m);
      FirstOf(s, a, m);
      if i + (m - a) <= |s| {
        FirstOf(s, i, i + (m - a));
      }
    }
  }

  lemma FirstOf(s: string, a: nat, m: nat)
    requires a < m <= |s|
    ensures s[a..m] == [s[a]] + s[a + 1..m]
  {
  }

  lemma DollarDetermined(s: string, a: nat, m: nat, e: nat)
    requires TagAt(s, a) && m == TagEnd(s, a) && m <= e <= |s|
    ensures IsDollar(s, a, m, e) <==> e == EndAt(s, a)
  {
    var tag, c := s[a..m], FindTag(s, m, a, m);
    hide TagAt, TagEnd, FindTag, Repeats, Occurs;
    forall j: nat | j <= |s| ensures Repeats(s, j, a, m) <==> Occurs(s, j, tag) {
      RepeatsOccurs(s, j, a, m);
    }
    OccursFits(s, tag);
  }

  lemma OccursFits(s: string, tag: string)
    ensures forall j: nat :: Occurs(s, j, tag) ==> j + |tag| <= |s|
  {
  }

  lemma {:induction false} LiteralCloses(s: string, a: nat, i: nat)
    requires a < i <= |s| && Quotes(s, a + 1, i) % 2 == 0
    ensures var c := LiteralClose(s, i);
            && (forall j :: i <= j < c ==> !ClosesLiteral(s, a, j))
            && (c < |s| ==> ClosesLiteral(s, a, c))
    decreases |s| - i
  {
    if i < |s| {
      if Two(s, i, '\'', '\'') {
        assert Quotes(s, a + 1, i + 2) == Quotes(s, a + 1, i + 1) + 1 == Quotes(s, a + 1, i) + 2;
        LiteralCloses(s, a, i + 2);
      } else if s[i] != '\'' {
        LiteralCloses(s, a, i + 1);
      }
    }
  }

  lemma LiteralDetermined(s: string, a: nat, e: nat)
    requires a < e <= |s| && KindAt(s, a) == Literal
    ensures IsToken(s, a, e, Literal) <==> e == EndAt(s, a)
  {
    LiteralCloses(s, a, a + 1);
    hide ClosesLiteral;
  }

  /** The rules leave exactly one token at every position, the one the segmentation takes. */
  lemma GrammarDeterminesToken(s: string, a: nat, e: nat, k: Kind)
    requires a < e <= |s|
    ensures IsToken(s, a, e, k) <==> k == KindAt(s, a) && e == EndAt(s, a)
  {
    forall m ensures a < m ==> (IsTag(s, a, m) <==> TagAt(s, a) && m == TagEnd(s, a)) {
      if a < m { TagDetermined(s, a, m); }
    }
    match KindAt(s, a)
    case Literal => LiteralDetermined(s, a, e);
    case BlockComment => BlockEndDetermined(s, a + 2, e);
    case Dollar =>
      hide IsDollar;
      assert IsTag(s, a, TagEnd(s, a));
      if TagEnd(s, a) <= e {
        DollarDetermined(s, a, TagEnd(s, a), e);
      }
    case LineComment =>
    case CodeChar =>
  }

  // ----- the stripped text -----

  /** What stands at position `i` of the token at `a`: comments and literal contents are blanked
      with their newlines kept; quotes, code and dollar-quoted bodies stay. */
  function ShownIn(s: string, a: nat, i: nat): char
    requires a < |s| && i < |s|
  {
    match KindAt(s, a)
    case LineComment => BlankChar(s[i])
    case BlockComment => BlankChar(s[i])
    case Literal => if i == a || i == CloseAt(s, a) then s[i] else BlankChar(s[i])
    case Dollar => s[i]
    case CodeChar => s[i]
  }

  function Shown(s: string, i: nat): char
    requires i < |s|
  {
    ShownIn(s, Start(s, i), i)
  }

  function ShownOf(s: string): nat -> char {
    (i: nat) => if i < |s| then Shown(s, i) else ' '
  }

  /** The stripped text. */
  function Strip(s: string): (t: string)
    ensures |t| == |s|
  {
    Tabulate(ShownOf(s), 0, |s|)
  }

  lemma StripAt(s: string, i: nat)
    requires i < |s|
    ensures Strip(s)[i] == Shown(s, i)
  {
    TabulateAt(ShownOf(s), 0, |s|, i);
  }

  /** Length and every newline stay; every character stays or becomes a space. */
  lemma StripLayout(s: string)
    ensures SameLayout(Strip(s), s)
    ensures forall i :: 0 <= i < |s| ==> Strip(s)[i] in {s[i], ' '}
  {
    forall i | 0 <= i < |s| ensures Strip(s)[i] == Shown(s, i) {
      StripAt(s, i);
    }
  }

  /** What the stripped text shows of a token, by the lexical rules alone: comments and what stands
      between the quotes of a literal are blanked with their newlines kept; all else stays. Where the
      token ends the next begins. */
  lemma StripShows(s: string, a: nat, e: nat, k: Kind, i: nat)
    requires a <= i < e <= |s| && Boundary(s, a) && IsToken(s, a, e, k)
    ensures k in {CodeChar, Dollar} ==> Strip(s)[i] == s[i]
    ensures k in {LineComment, BlockComment} ==> Strip(s)[i] == if s[i] == '\n' then '\n' else ' '
    ensures k == Literal ==>
              Strip(s)[i] == if i == a || (i == e - 1 && ClosesLiteral(s, a, i)) || s[i] == '\n' then s[i] else ' '
    ensures Boundary(s, e)
  {
    GrammarDeterminesToken(s, a, e, k);
    TokenCovers(s, a);
    StripAt(s, i);
    if k == Literal {
      LiteralCloses(s, a, a + 1);
    }
    hide Boundary, Start, IsToken, Strip, LiteralClose, ClosesLiteral;
  }

  // ----- the scanner -----

  datatype State = Code | InBlock | InLiteral | InDollar(from: nat, to: nat)

  /** One turn of the scanner: how much it reads, the state it leaves, whether it blanks. */
  datatype Turn = Turn(read: nat, next: State, blank: bool)

  predicate Fits(s: string, state: State) { state.InDollar? ==> state.from < state.to <= |s| }

  function TurnAt(s: string, i: nat, state: State): (t: Turn)
    requires i < |s| && Fits(s, state)
    ensures 1 <= t.read && i + t.read <= |s| && Fits(s, t.next)
  {
    match state
    case InDollar(a, e) => if Repeats(s, i, a, e) then Turn(e - a, Code, false) else Turn(1, state, false)
    case InBlock => if Two(s, i, '*', '/') then Turn(2, Code, true) else Turn(1, state, true)
    case InLiteral =>
      if Two(s, i, '\'', '\'') then Turn(2, state, true)
      else if s[i] == '\'' then Turn(1, Code, false)
      else Turn(1, state, true)
    case Code =>
      match KindAt(s, i)
      case LineComment => Turn(LineEnd(s, i + 2) - i, Code, true)
      case BlockComment => Turn(2, InBlock, true)
      case Dollar => Turn(TagEnd(s, i) - i, InDollar(i, TagEnd(s, i)), false)
      case Literal => Turn(1, InLiteral, false)
      case CodeChar => Turn(1, Code, false)
  }

  /** Characters blanked, or as they are. */
  function Plain(s: string, blank: bool): nat -> char {
    (i: nat) => if i >= |s| then ' ' else if blank then BlankChar(s[i]) else s[i]
  }

  function Written(s: string, i: nat, t: Turn): (w: string)
    ensures |w| == t.read
  {
    Tabulate(Plain(s, t.blank), i, t.read)
  }

  function Machine(s: string, i: nat, state: State): string
    requires i <= |s| && Fits(s, state)
    decreases |s| - i
  {
    if i == |s| then ""
    else
      var t := TurnAt(s, i, state);
      Written(s, i, t) + Machine(s, i + t.read, t.next)
  }

  lemma MachineUnfolds(s: string, i: nat, state: State)
    requires i < |s| && Fits(s, state)
    ensures var t := TurnAt(s, i, state);
            Machine(s, i, state) == Written(s, i, t) + Machine(s, i + t.read, t.next)
  {
  }

  lemma MachineEnds(s: string, state: State)
    requires Fits(s, state)
    ensures Machine(s, |s|, state) == ""
  {
  }

  /** The scanner has written `out` so far and stands at `i`: what is left completes the whole. */
  lemma OneTurn(s: string, i: nat, state: State, out: string)
    requires i < |s| && Fits(s, state)
    ensures var t := TurnAt(s, i, state);
            out + Machine(s, i, state) == out + Written(s, i, t) + Machine(s, i + t.read, t.next)
  {
    var t := TurnAt(s, i, state);
    MachineUnfolds(s, i, state);
    ConcatAssociates(out, Written(s, i, t), Machine(s, i + t.read, t.next));
  }

  /** What the scanner's state says about position `i` of a token that began at `a`. */
  ghost predicate Inside(s: string, a: nat, i: nat, state: State) {
    if state.Code? then Boundary(s, i)
    else
      && a < |s| && Boundary(s, a) && a < i <= CloseAt(s, a)
      && match KindAt(s, a)
         case BlockComment => state.InBlock? && a + 2 <= i
         case Literal => state.InLiteral? && LiteralClose(s, i) == CloseAt(s, a)
         case Dollar => state == InDollar(a, TagEnd(s, a)) && state.to <= i
         case _ => false
  }

  /** The turn's characters are shown as the token shows them. */
  ghost predicate Shows(s: string, i: nat, t: Turn) {
    i + t.read <= |s|
    && forall j :: i <= j < i + t.read ==> ShownOf(s)(j) == Plain(s, t.blank)(j)
  }

  ghost predicate Leads(s: string, a: nat, i: nat, state: State)
    requires i < |s| && Fits(s, state)
  {
    var t := TurnAt(s, i, state);
    Inside(s, if state.Code? then i else a, i + t.read, t.next)
  }

  lemma Covered(s: string, a: nat, i: nat, t: Turn)
    requires a < |s| && Boundary(s, a) && a <= i && i + t.read <= EndAt(s, a)
    requires forall j :: i <= j < i + t.read ==> ShownIn(s, a, j) == if t.blank then BlankChar(s[j]) else s[j]
    ensures Shows(s, i, t)
  {
    TokenCovers(s, a);
  }

  lemma CodeShows(s: string, i: nat)
    requires i < |s| && Boundary(s, i)
    ensures Shows(s, i, TurnAt(s, i, Code))
  {
    Covered(s, i, i, TurnAt(s, i, Code));
  }

  lemma CodeLeads(s: string, a: nat, i: nat)
    requires i < |s| && Boundary(s, i)
    ensures Leads(s, a, i, Code)
  {
    hide Boundary, Start;
    match KindAt(s, i)
    case LineComment => TokenCovers(s, i);
    case CodeChar => TokenCovers(s, i);
    case BlockComment =>
    case Dollar =>
    case Literal =>
  }

  lemma BlockShows(s: string, a: nat, i: nat)
    requires i < |s| && Inside(s, a, i, InBlock)
    ensures Shows(s, i, TurnAt(s, i, InBlock))
  {
    Covered(s, a, i, TurnAt(s, i, InBlock));
  }

  lemma BlockLeads(s: string, a: nat, i: nat)
    requires i < |s| && Inside(s, a, i, InBlock)
    ensures Leads(s, a, i, InBlock)
  {
    hide Boundary, Start;
    TokenCovers(s, a);
    assert Two(s, i, '*', '/') <==> CloseAt(s, a) == i;
  }

  lemma LiteralShows(s: string, a: nat, i: nat)
    requires i < |s| && Inside(s, a, i, InLiteral)
    ensures Shows(s, i, TurnAt(s, i, InLiteral))
  {
    Covered(s, a, i, TurnAt(s, i, InLiteral));
  }

  lemma LiteralLeads(s: string, a: nat, i: nat)
    requires i < |s| && Inside(s, a, i, InLiteral)
    ensures Leads(s, a, i, InLiteral)
  {
    hide Boundary, Start;
    if TurnAt(s, i, InLiteral).next.Code? {
      TokenCovers(s, a);
      assert EndAt(s, a) == i + 1;
    }
  }

  lemma DollarShows(s: string, a: nat, i: nat, e: nat)
    requires i < |s| && Fits(s, InDollar(a, e)) && Inside(s, a, i, InDollar(a, e))
    ensures Shows(s, i, TurnAt(s, i, InDollar(a, e)))
  {
    Covered(s, a, i, TurnAt(s, i, InDollar(a, e)));
  }

  lemma DollarLeads(s: string, a: nat, i: nat, e: nat)
    requires i < |s| && Fits(s, InDollar(a, e)) && Inside(s, a, i, InDollar(a, e))
    ensures Leads(s, a, i, InDollar(a, e))
  {
    hide Boundary, Start;
    if Repeats(s, i, a, e) {
      TokenCovers(s, a);
      assert EndAt(s, a) == i + (e - a);
    }
  }

  lemma TurnIsSound(s: string, a: nat, i: nat, state: State)
    requires i < |s| && Fits(s, state) && Inside(s, a, i, state)
    ensures Shows(s, i, TurnAt(s, i, state)) && Leads(s, a, i, state)
  {
    match state {
      case Code =>
        CodeShows(s, i);
        CodeLeads(s, a, i);
      case InBlock =>
        BlockShows(s, a, i);
        BlockLeads(s, a, i);
      case InLiteral =>
        LiteralShows(s, a, i);
        LiteralLeads(s, a, i);
      case InDollar(from, to) =>
        DollarShows(s, a, i, to);
        DollarLeads(s, a, i, to);
    }
  }

  /** A turn writes the stripped form of what it reads. */
  lemma TurnStrips(s: string, i: nat, t: Turn)
    requires Shows(s, i, t)
    ensures Tabulate(ShownOf(s), i, |s| - i)
            == Written(s, i, t) + Tabulate(ShownOf(s), i + t.read, |s| - (i + t.read))
  {
    hide ShownOf, Plain, Tabulate;
    TabulateSplit(ShownOf(s), i, t.read, |s| - (i + t.read));
    TabulateSame(ShownOf(s), Plain(s, t.blank), i, t.read);
  }

  lemma OneMoreStrips(s: string, i: nat, state: State)
    requires i < |s| && Fits(s, state) && Shows(s, i, TurnAt(s, i, state))
    requires var t := TurnAt(s, i, state);
             Machine(s, i + t.read, t.next) == Tabulate(ShownOf(s), i + t.read, |s| - (i + t.read))
    ensures Machine(s, i, state) == Tabulate(ShownOf(s), i, |s| - i)
  {
    hide Shows, TurnAt, Machine, ShownOf, Written;
    MachineUnfolds(s, i, state);
    TurnStrips(s, i, TurnAt(s, i, state));
  }

  /** The next place and state keep the invariant. */
  lemma TurnLeads(s: string, a: nat, i: nat, state: State) returns (a': nat)
    requires i < |s| && Fits(s, state) && Inside(s, a, i, state)
    ensures var t := TurnAt(s, i, state);
            Shows(s, i, t) && Inside(s, a', i + t.read, t.next)
  {
    TurnIsSound(s, a, i, state);
    a' := if state.Code? then i else a;
  }

  lemma EndStrips(s: string, state: State)
    requires Fits(s, state)
    ensures Machine(s, |s|, state) == Tabulate(ShownOf(s), |s|, 0)
  {
  }

  lemma {:induction false} MachineStrips(s: string, a: nat, i: nat, state: State)
    requires i <= |s| && Fits(s, state) && Inside(s, a, i, state)
    ensures Machine(s, i, state) == Tabulate(ShownOf(s), i, |s| - i)
    decreases |s| - i
  {
    hide *;
    if i < |s| {
      var t := TurnAt(s, i, state);
      var a' := TurnLeads(s, a, i, state);
      MachineStrips(s, a', i + t.read, t.next);
      OneMoreStrips(s, i, state);
    } else {
      EndStrips(s, state);
    }
  }

  /** The one-pass scanner computes the stripped text of the segmented input. */
  lemma MachineIsStrip(s: string)
    ensures Machine(s, 0, Code) == Strip(s)
  {
    MachineStrips(s, 0, 0, Code);
  }

  lemma SmallPieces(s: string, i: nat, blank: bool)
    requires i < |s|
    ensures Tabulate(Plain(s, blank), i, 1) == [if blank then BlankChar(s[i]) else s[i]]
    ensures i + 1 < |s| ==> Tabulate(Plain(s, true), i, 2) == [BlankChar(s[i]), BlankChar(s[i + 1])]
  {
  }

  /** The characters one turn appends, spelled out. */
  function Appended(s: string, i: nat, state: State, t: Turn): string
    requires i < |s| && i + t.read <= |s|
  {
    if (state.Code? && t.next.InDollar?) || (state.InDollar? && t.next.Code?) then s[i..i + t.read]
    else if state.Code? && t.next.Code? && t.blank then Written(s, i, t)
    else if t.read == 2 then "  "
    else [if t.blank then BlankChar(s[i]) else s[i]]
  }

  lemma AppendedIsWritten(s: string, i: nat, state: State)
    requires i < |s| && Fits(s, state)
    ensures Appended(s, i, state, TurnAt(s, i, state)) == Written(s, i, TurnAt(s, i, state))
  {
    var t := TurnAt(s, i, state);
    SmallPieces(s, i, t.blank);
    RawPiece(s, i, t.read);
  }

  lemma {:induction false} RawPiece(s: string, i: nat, n: nat)
    requires i + n <= |s|
    ensures Tabulate(Plain(s, false), i, n) == s[i..i + n]
    decreases n
  {
    if n > 0 {
      RawPiece(s, i + 1, n - 1);
    }
  }

  /** The stripping loop. `state` stands for the flags `in_str` and
      `in_block` and for the open dollar tag. */
  method StripComments(sql: string) returns (out: string)
    ensures out == Strip(sql)
  {
    hide TurnAt, Machine, Strip, Written;
    MachineIsStrip(sql);
    out := "";
    var i, state := 0, Code;
    while i < |sql|
      invariant 0 <= i <= |sql| && Fits(sql, state)
      invariant out + Machine(sql, i, state) == Strip(sql)
    {
      OneTurn(sql, i, state, out);
      var piece, read, next := TakeTurn(sql, i, state);
      out := out + piece;
      i, state := i + read, next;
    }
    MachineEnds(sql, state);
  }

  /** The body of the scanner's loop. */
  method TakeTurn(sql: string, i: nat, state: State) returns (piece: string, read: nat, next: State)
    requires i < |sql| && Fits(sql, state)
    ensures var t := TurnAt(sql, i, state);
            piece == Written(sql, i, t) && read == t.read && next == t.next
  {
    AppendedIsWritten(sql, i, state);
    var ch := sql[i];
    piece, read, next := [ch], 1, state;
    match state {
      case InDollar(from, to) =>
        if Repeats(sql, i, from, to) {
          piece, read, next := sql[i..i + (to - from)], to - from, Code;
        }
      case InBlock =>
        if Two(sql, i, '*', '/') {
          piece, read, next := "  ", 2, Code;
        } else {
          piece := [if ch == '\n' then '\n' else ' '];
        }
      case InLiteral =>
        if ch == '\'' {
          if Two(sql, i, '\'', '\'') {
            piece, read := "  ", 2;
          } else {
            next := Code;
          }
        } else {
          piece := [if ch == '\n' then '\n' else ' '];
        }
      case Code =>
        if Two(sql, i, '-', '-') {
          piece, read := BlankLine(sql, i);
        } else if Two(sql, i, '/', '*') {
          piece, read, next := "  ", 2, InBlock;
        } else if TagAt(sql, i) {
          var end := TagEnd(sql, i);
          piece, read, next := sql[i..end], end - i, InDollar(i, end);
        } else if ch == '\'' {
          next := InLiteral;
        }
    }
  }

  /** The inner loop: spaces up to the end of the line. */
  method BlankLine(sql: string, i: nat) returns (piece: string, read: nat)
    requires Two(sql, i, '-', '-')
    ensures read == LineEnd(sql, i + 2) - i && piece == Tabulate(Plain(sql, true), i, read)
  {
    piece := "";
    var j := i;
    while j < |sql| && sql[j] != '\n'
      invariant i <= j <= |sql| && LineEnd(sql, i) == LineEnd(sql, j)
      invariant piece == Tabulate(Plain(sql, true), i, j - i)
    {
      TabulateSplit(Plain(sql, true), i, j - i, 1);
      SmallPieces(sql, j, true);
      piece := piece + " ";
      j := j + 1;
    }
    read := j - i;
  }
}
