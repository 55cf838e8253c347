// Blanking Go comments, and optionally literal contents, without moving a character.
module GoLexer {
  import opened Lines
  import Segments

  // ----- tokens, as the Go specification separates them -----

  datatype Kind = CodeChar | LineComment | BlockComment | Interpreted | RawString

  /** Position of the quote that closes an interpreted literal whose contents begin at `i`;
      a backslash takes the next character with it. */
  function QuoteClose(s: string, i: nat, q: char): (e: nat)
    requires i <= |s|
    ensures i <= e <= |s| && (e < |s| ==> s[e] == q)
    decreases |s| - i
  {
    if i == |s| then i
    else if s[i] == '\\' && i + 1 < |s| then QuoteClose(s, i + 2, q)
    else if s[i] == q then i
    else QuoteClose(s, i + 1, q)
  }

  /** In contents that begin at `a`, a character is escaped when an unescaped backslash stands
      before it. */
  predicate Escaped(s: string, a: nat, i: nat)
    requires i <= |s|
  {
    i > a && s[i - 1] == '\\' && !Escaped(s, a, i - 1)
  }

  /** The closing quote is the first one that is not escaped. */
  lemma {:induction false} QuoteCloseIsFirstUnescaped(s: string, a: nat, i: nat, q: char)
    requires a <= i <= |s| && q != '\\' && !Escaped(s, a, i)
    ensures var e := QuoteClose(s, i, q);
            && (forall j :: i <= j < e && s[j] == q ==> Escaped(s, a, j))
            && (e < |s| ==> !Escaped(s, a, e))
    decreases |s| - i
  {
    if i < |s| && s[i] != q {
      if s[i] == '\\' && i + 1 < |s| {
        assert Escaped(s, a, i + 1) && !Escaped(s, a, i + 2);
        QuoteCloseIsFirstUnescaped(s, a, i + 2, q);
      } else if s[i] != '\\' {
        QuoteCloseIsFirstUnescaped(s, a, i + 1, q);
      }
    }
  }

  function KindAt(s: string, i: nat): Kind
    requires i < |s|
  {
    if Two(s, i, '/', '/') then LineComment
    else if Two(s, i, '/', '*') then BlockComment
    else if s[i] == '"' || s[i] == '\'' then Interpreted
    else if s[i] == '`' then RawString
    else CodeChar
  }

  /** Where the closing delimiter of the token at `i` begins, or where an open token ends. */
  function CloseAt(s: string, i: nat): (e: nat)
    requires i < |s|
    ensures i < e <= |s|
  {
    match KindAt(s, i)
    case LineComment => FirstChar(s, i + 2, '\n')
    case BlockComment => FirstClose(s, i + 2)
    case Interpreted => QuoteClose(s, i + 1, s[i])
    case RawString => FirstChar(s, i + 1, '`')
    case CodeChar => i + 1
  }

  /** Where the token that begins at `i` ends. */
  function EndAt(s: string, i: nat): (e: nat)
    requires i < |s|
    ensures i < e <= |s|
  {
    var c := CloseAt(s, i);
    match KindAt(s, i)
    case BlockComment => if c < |s| then c + 2 else c
    case Interpreted => if c < |s| then c + 1 else c
    case RawString => if c < |s| then c + 1 else c
    case _ => c
  }

  /** The lexical grammar, stated without the scanning functions: `s[a..e]` is one token. */
  predicate IsToken(s: string, a: nat, e: nat, k: Kind)
    requires a < e <= |s|
  {
    match k
    case LineComment =>
      Two(s, a, '/', '/') && a + 2 <= e && (forall j :: a <= j < e ==> s[j] != '\n')
      && (e == |s| || s[e] == '\n')
    case BlockComment =>
      Two(s, a, '/', '*') && EndsBlock(s, a + 2, e)
    case Interpreted =>
      s[a] in {'"', '\''} && (forall j :: a < j < e - 1 && s[j] == s[a] ==> Escaped(s, a + 1, j))
      && (e == |s| || ClosesQuote(s, a, e))
    case RawString =>
      s[a] == '`' && (forall j :: a < j < e - 1 ==> s[j] != '`')
      && (e == |s| || (a + 2 <= e && s[e - 1] == '`'))
    case CodeChar =>
      e == a + 1 && s[a] !in {'"', '\'', '`'} && !Two(s, a, '/', '/') && !Two(s, a, '/', '*')
  }

  predicate ClosesQuote(s: string, a: nat, e: nat)
    requires a < e <= |s|
  {
    a + 2 <= e && s[e - 1] == s[a] && !Escaped(s, a + 1, e - 1)
  }

  /** The grammar leaves exactly one token at every position, so a text has exactly one
      segmentation: the one the scanning functions produce. */
  lemma GrammarDeterminesToken(s: string, a: nat, e: nat, k: Kind)
    requires a < e <= |s|
    ensures IsToken(s, a, e, k) <==> k == KindAt(s, a) && e == EndAt(s, a)
  {
    match KindAt(s, a)
    case Interpreted => QuoteDetermined(s, a, e, k);
    case BlockComment => BlockEndDetermined(s, a + 2, e);
    case LineComment =>
    case RawString =>
    case CodeChar =>
  }

  lemma QuoteDetermined(s: string, a: nat, e: nat, k: Kind)
    requires a < e <= |s| && KindAt(s, a) == Interpreted
    ensures IsToken(s, a, e, k) <==> k == Interpreted && e == EndAt(s, a)
  {
    var c := QuoteClose(s, a + 1, s[a]);
    QuoteCloseIsFirstUnescaped(s, a + 1, a + 1, s[a]);
  }

  /** Where the tokens of the text end. */
  function Ends(s: string): nat -> nat {
    (i: nat) => if i < |s| then EndAt(s, i) else i + 1
  }

  /** The start of the token that holds position `i`. */
  function Start(s: string, i: nat): (a: nat)
    requires i < |s|
    ensures a <= i < EndAt(s, a)
  {
    Segments.Start(Ends(s), i)
  }

  /** A position between two tokens of the segmentation. */
  predicate Boundary(s: string, i: nat) {
    i == |s| || (i < |s| && Start(s, i) == i)
  }

  /** From a boundary, the positions of one token belong to it and its end is a boundary. */
  lemma TokenCovers(s: string, a: nat)
    requires a < |s| && Boundary(s, a)
    ensures forall i :: a <= i < EndAt(s, a) ==> Start(s, i) == a
    ensures Boundary(s, EndAt(s, a))
  {
    Segments.Covers(Ends(s), a);
  }

  lemma StartIsBoundary(s: string, i: nat)
    requires i < |s|
    ensures Boundary(s, Start(s, i))
  {
    Segments.StartsUnit(Ends(s), 0, i);
  }

  // ----- the two views -----

  /** What a view shows at position `i` of the token at `a`: comments always go; literal contents
      go when `blank` is set, the newlines of interpreted literals included. */
  function ShownIn(s: string, a: nat, i: nat, blank: bool): char
    requires a < |s| && i < |s|
  {
    var delimiter := i == a || i == CloseAt(s, a);
    match KindAt(s, a)
    case CodeChar => s[i]
    case LineComment => BlankChar(s[i])
    case BlockComment => BlankChar(s[i])
    case Interpreted => if !blank || delimiter then s[i] else ' '
    case RawString => if !blank || delimiter then s[i] else BlankChar(s[i])
  }

  function Shown(s: string, i: nat, blank: bool): char
    requires i < |s|
  {
    ShownIn(s, Start(s, i), i, blank)
  }

  function View(s: string, blank: bool): (v: string)
    ensures |v| == |s| && forall i :: 0 <= i < |s| ==> v[i] == Shown(s, i, blank)
  {
    seq(|s|, i requires 0 <= i < |s| => Shown(s, i, blank))
  }

  /** What a view shows of a token, by the lexical grammar alone. Comments are blanked with their
      newlines kept; code stays. Literals stay unless they are blanked: then the quotes stay, and the
      newlines of a raw string. Where the token ends the next begins. */
  lemma ViewShows(s: string, blank: bool, a: nat, e: nat, k: Kind, i: nat)
    requires a <= i < e <= |s| && Boundary(s, a) && IsToken(s, a, e, k)
    ensures k in {LineComment, BlockComment} ==> View(s, blank)[i] == if s[i] == '\n' then '\n' else ' '
    ensures k == CodeChar || (k in {Interpreted, RawString} && !blank) ==> View(s, blank)[i] == s[i]
    ensures k == Interpreted && blank ==>
              View(s, blank)[i] == if i == a || (i == e - 1 && ClosesQuote(s, a, e)) then s[i] else ' '
    ensures k == RawString && blank ==> View(s, blank)[i] == if s[i] in {'`', '\n'} then s[i] else ' '
    ensures Boundary(s, e)
  {
    GrammarDeterminesToken(s, a, e, k);
    TokenCovers(s, a);
    if k == Interpreted {
      QuoteCloseIsFirstUnescaped(s, a + 1, a + 1, s[a]);
    }
    hide Boundary, Start, IsToken, QuoteClose;
    assert View(s, blank)[i] == ShownIn(s, a, i, blank);
  }

  // ----- the one-pass scanner -----

  datatype State = Code | InLine | InBlock | InQuote(quote: char) | InRaw

  /** What the scanner's state says about position `i` of a token that began at `a`. */
  ghost predicate Inside(s: string, a: nat, i: nat, state: State) {
    if state.Code? then Boundary(s, i)
    else
      && a < |s| && Boundary(s, a) && a < i <= CloseAt(s, a)
      && KindAt(s, a) == (if state.InLine? then LineComment else if state.InBlock? then BlockComment
                          else if state.InRaw? then RawString else Interpreted)
      && (state.InQuote? ==> state.quote == s[a] && s[a] != '\\' && QuoteClose(s, i, s[a]) == CloseAt(s, a))
      && ((state.InLine? || state.InBlock?) ==> a + 2 <= i)
  }

  /** One turn of the scanner: the characters read, the state left, the characters written. */
  datatype Turn = Turn(read: nat, next: State, written: string)

  function TurnAt(s: string, i: nat, state: State, blank: bool): (t: Turn)
    requires i < |s|
    ensures 1 <= t.read <= 2 && i + t.read <= |s| && |t.written| == t.read
  {
    var c := s[i];
    match state
    case InLine => Turn(1, if c == '\n' then Code else InLine, [BlankChar(c)])
    case InBlock =>
      if Two(s, i, '*', '/') then Turn(2, Code, "  ") else Turn(1, InBlock, [BlankChar(c)])
    case InQuote(q) =>
      if c == '\\' && i + 1 < |s| then
        Turn(2, state, [if c == q || !blank then c else ' ', if !blank then s[i + 1] else ' '])
      else Turn(1, if c == q then Code else state, [if c == q || !blank then c else ' '])
    case InRaw =>
      Turn(1, if c == '`' then Code else InRaw, [if c in {'`', '\n'} || !blank then c else ' '])
    case Code =>
      if Two(s, i, '/', '/') then Turn(2, InLine, "  ")
      else if Two(s, i, '/', '*') then Turn(2, InBlock, "  ")
      else Turn(1, if c in {'"', '\''} then InQuote(c) else if c == '`' then InRaw else Code, [c])
  }

  /** Running the scanner from position `i` in a given state. */
  function Machine(s: string, i: nat, state: State, blank: bool): string
    requires i <= |s|
    decreases |s| - i
  {
    if i == |s| then ""
    else
      var t := TurnAt(s, i, state, blank);
      t.written + Machine(s, i + t.read, t.next, blank)
  }

  /** A turn shows the characters it reads, and leaves a state that fits its new place. */
  ghost predicate Sound(s: string, a: nat, i: nat, state: State, blank: bool)
    requires i < |s|
  {
    var t := TurnAt(s, i, state, blank);
    && t.written[0] == Shown(s, i, blank)
    && (t.read == 2 ==> t.written[1] == Shown(s, i + 1, blank))
    && Inside(s, if state.Code? then i else a, i + t.read, t.next)
  }

  lemma CodeTurn(s: string, a: nat, i: nat, blank: bool)
    requires i < |s| && Inside(s, a, i, Code)
    ensures Sound(s, a, i, Code, blank)
  {
    hide Boundary, Start;
    TokenCovers(s, i);
    match KindAt(s, i)
    case LineComment => assert Inside(s, i, i + 2, InLine);
    case BlockComment => assert Inside(s, i, i + 2, InBlock);
    case Interpreted => assert Inside(s, i, i + 1, InQuote(s[i]));
    case RawString => assert Inside(s, i, i + 1, InRaw);
    case CodeChar => assert Inside(s, i, i + 1, Code);
  }

  lemma LineTurn(s: string, a: nat, i: nat, blank: bool)
    requires i < |s| && Inside(s, a, i, InLine)
    ensures Sound(s, a, i, InLine, blank)
  {
    hide Boundary, Start;
    TokenCovers(s, a);
    if s[i] == '\n' {
      TokenCovers(s, i);
    }
  }

  lemma BlockTurn(s: string, a: nat, i: nat, blank: bool)
    requires i < |s| && Inside(s, a, i, InBlock)
    ensures Sound(s, a, i, InBlock, blank)
  {
    hide Boundary, Start;
    TokenCovers(s, a);
    if Two(s, i, '*', '/') {
      assert CloseAt(s, a) == i && EndAt(s, a) == i + 2;
    } else {
      assert i < CloseAt(s, a);
    }
  }

  lemma QuoteTurn(s: string, a: nat, i: nat, q: char, blank: bool)
    requires i < |s| && Inside(s, a, i, InQuote(q))
    ensures Sound(s, a, i, InQuote(q), blank)
  {
    hide Boundary, Start, FirstChar, FirstClose, QuoteClose;
    TokenCovers(s, a);
    QuoteStep(s, i, q);
  }

  lemma QuoteStep(s: string, i: nat, q: char)
    requires i < |s|
    ensures QuoteClose(s, i, q) == if s[i] == '\\' && i + 1 < |s| then QuoteClose(s, i + 2, q)
                                   else if s[i] == q then i else QuoteClose(s, i + 1, q)
  {
  }

  lemma RawTurn(s: string, a: nat, i: nat, blank: bool)
    requires i < |s| && Inside(s, a, i, InRaw)
    ensures Sound(s, a, i, InRaw, blank)
  {
    hide Boundary, Start;
    TokenCovers(s, a);
  }

  lemma TurnIsSound(s: string, a: nat, i: nat, state: State, blank: bool)
    requires i < |s| && Inside(s, a, i, state)
    ensures Sound(s, a, i, state, blank)
  {
    hide Inside, Sound;
    match state
    case InLine => LineTurn(s, a, i, blank);
    case InBlock => BlockTurn(s, a, i, blank);
    case InQuote(q) => QuoteTurn(s, a, i, q, blank);
    case InRaw => RawTurn(s, a, i, blank);
    case Code => CodeTurn(s, a, i, blank);
  }

  lemma MachineUnfolds(s: string, i: nat, state: State, blank: bool)
    requires i < |s|
    ensures var t := TurnAt(s, i, state, blank);
            Machine(s, i, state, blank) == t.written + Machine(s, i + t.read, t.next, blank)
  {
  }

  ghost predicate ShowsFrom(s: string, i: nat, m: string, blank: bool) {
    |m| == |s| - i && forall k :: 0 <= k < |m| ==> m[k] == Shown(s, i + k, blank)
  }

  lemma ShowsConcat(s: string, i: nat, w: string, m: string, blank: bool)
    requires i + |w| <= |s| && ShowsFrom(s, i + |w|, m, blank)
    requires 1 <= |w| <= 2 && w[0] == Shown(s, i, blank) && (|w| == 2 ==> w[1] == Shown(s, i + 1, blank))
    ensures ShowsFrom(s, i, w + m, blank)
  {
    hide Shown;
    forall k | |w| <= k < |w| + |m| ensures (w + m)[k] == Shown(s, i + k, blank) {
      assert m[k - |w|] == Shown(s, i + |w| + (k - |w|), blank);
    }
  }

  lemma SoundShows(s: string, a: nat, i: nat, state: State, blank: bool)
    requires i < |s| && Sound(s, a, i, state, blank)
    requires var t := TurnAt(s, i, state, blank);
             ShowsFrom(s, i + t.read, Machine(s, i + t.read, t.next, blank), blank)
    ensures ShowsFrom(s, i, Machine(s, i, state, blank), blank)
  {
    hide Shown, Inside, TurnAt, Machine;
    var t := TurnAt(s, i, state, blank);
    MachineUnfolds(s, i, state, blank);
    ShowsConcat(s, i, t.written, Machine(s, i + t.read, t.next, blank), blank);
  }

  lemma {:induction false} MachineShows(s: string, a: nat, i: nat, state: State, blank: bool)
    requires i <= |s| && Inside(s, a, i, state)
    ensures ShowsFrom(s, i, Machine(s, i, state, blank), blank)
    decreases |s| - i
  {
    hide TurnAt, Shown, Inside;
    if i < |s| {
      var t := TurnAt(s, i, state, blank);
      TurnIsSound(s, a, i, state, blank);
      MachineShows(s, if state.Code? then i else a, i + t.read, t.next, blank);
      SoundShows(s, a, i, state, blank);
    }
  }

  /** The scanner has written `out` so far and stands at `i`. */
  ghost predicate Progress(s: string, i: nat, state: State, blank: bool, out: string) {
    i <= |s| && out + Machine(s, i, state, blank) == Machine(s, 0, Code, blank)
  }

  lemma OneTurn(s: string, i: nat, state: State, blank: bool, out: string)
    requires i < |s| && Progress(s, i, state, blank, out)
    ensures var t := TurnAt(s, i, state, blank);
            Progress(s, i + t.read, t.next, blank, out + t.written)
  {
    var t := TurnAt(s, i, state, blank);
    MachineUnfolds(s, i, state, blank);
    ConcatAssociates(out, t.written, Machine(s, i + t.read, t.next, blank));
  }

  /** The one-pass state machine is the view of the segmented text. */
  lemma MachineIsView(s: string, blank: bool)
    ensures Machine(s, 0, Code, blank) == View(s, blank)
  {
    MachineShows(s, 0, 0, Code, blank);
    var m, v := Machine(s, 0, Code, blank), View(s, blank);
    forall k | 0 <= k < |s| ensures m[k] == v[k] {
      assert m[k] == Shown(s, 0 + k, blank);
    }
  }

  method StripGoComments(text: string, blankStrings: bool) returns (out: string)
    ensures out == View(text, blankStrings)
  {
    out := "";
    var i, state := 0, Code;
    while i < |text|
      invariant 0 <= i <= |text| && Progress(text, i, state, blankStrings, out)
    {
      ghost var t, before := TurnAt(text, i, state, blankStrings), (out, i);
      OneTurn(text, i, state, blankStrings, out);
      var c := text[i];
      var n := if i + 1 < |text| then text[i + 1] else '\0';
      match state {
        case InLine =>
          out := out + [if c == '\n' then c else ' '];
          if c == '\n' {
            state := Code;
          }
        case InBlock =>
          if c == '*' && n == '/' {
            out := out + "  ";
            i := i + 1;
            state := Code;
          } else {
            out := out + [if c == '\n' then '\n' else ' '];
          }
        case InQuote(quote) =>
          var closing := c == quote;
          var shown := [if closing || !blankStrings then c else ' '];
          if c == '\\' && i + 1 < |text| {
            out := out + (shown + [if !blankStrings then text[i + 1] else ' ']);
            i := i + 1;
          } else {
            out := out + shown;
            if closing {
              state := Code;
            }
          }
        case InRaw =>
          out := out + [if c in {'`', '\n'} || !blankStrings then c else ' '];
          if c == '`' {
            state := Code;
          }
        case Code =>
          if c == '/' && n == '/' {
            out := out + "  ";
            i := i + 1;
            state := InLine;
          } else if c == '/' && n == '*' {
            out := out + "  ";
            i := i + 1;
            state := InBlock;
          } else {
            out := out + [c];
            if c == '"' || c == '\'' {
              state := InQuote(c);
            } else if c == '`' {
              state := InRaw;
            }
          }
      }
      i := i + 1;
      assert out == before.0 + t.written && i == before.1 + t.read && state == t.next;
    }
    MachineIsView(text, blankStrings);
  }

  // ----- what callers rely on -----

  /** Nothing moves: every character is kept or becomes a space, and stripping comments keeps
      every newline. */
  lemma StrippedViewLayout(s: string)
    ensures SameLayout(View(s, false), s)
    ensures forall i, blank :: 0 <= i < |s| ==> View(s, blank)[i] in {s[i], ' '}
  {
  }

  /** No interpreted literal spans lines, as the Go specification requires. */
  ghost predicate LiteralsOnOneLine(s: string) {
    forall a, j :: 0 <= a < j < |s| && Boundary(s, a) && KindAt(s, a) == Interpreted && j < EndAt(s, a)
                   ==> s[j] != '\n'
  }

  /** Blanking keeps the layout exactly for texts whose interpreted literals stay on one line. */
  lemma BlankedViewLayout(s: string)
    ensures SameLayout(View(s, true), s) <==> LiteralsOnOneLine(s)
  {
    var v := View(s, true);
    if SameLayout(v, s) {
      forall a, j | 0 <= a < j < |s| && Boundary(s, a) && KindAt(s, a) == Interpreted && j < EndAt(s, a)
        ensures s[j] != '\n'
      {
        TokenCovers(s, a);
        assert v[j] == ShownIn(s, a, j, true);
        QuoteIsOnlyNewline(s, a, j);
      }
    }
    if LiteralsOnOneLine(s) {
      forall i | 0 <= i < |s| ensures v[i] == '\n' <==> s[i] == '\n' {
        StartIsBoundary(s, i);
        var a := Start(s, i);
        assert v[i] == ShownIn(s, a, i, true);
        QuoteIsOnlyNewline(s, a, i);
      }
    }
  }

  /** For instance: a quote, a newline and a quote lose the newline. */
  lemma NewlineInLiteralIsLost()
    ensures View("\"\n\"", true) == "\" \"" && !SameLayout(View("\"\n\"", true), "\"\n\"")
  {
    var s := "\"\n\"";
    assert KindAt(s, 0) == Interpreted && CloseAt(s, 0) == QuoteClose(s, 1, '"') == QuoteClose(s, 2, '"') == 2;
    TokenCovers(s, 0);
    assert View(s, true) == "\" \"";
    assert View(s, true)[1] == ' ';
  }

  /** Only a newline inside an interpreted literal is lost to blanking. */
  lemma QuoteIsOnlyNewline(s: string, a: nat, i: nat)
    requires a <= i < |s| && i < EndAt(s, a)
    ensures (ShownIn(s, a, i, true) == '\n' <==> s[i] == '\n')
            <==> !(KindAt(s, a) == Interpreted && a < i && s[i] == '\n')
  {
  }

  /** Each mode is idempotent, and blanking a text whose comments are already stripped equals
      blanking it directly. */
  lemma ViewsCompose(s: string, b1: bool, b2: bool)
    ensures View(View(s, b1), b2) == View(s, b1 || b2)
  {
    if s != "" {
      SecondPass(s, View(s, b1), b1, b2, 0);
    }
  }

  ghost predicate IsView(s: string, v: string, blank: bool) {
    |v| == |s| && forall i :: 0 <= i < |s| ==> v[i] == Shown(s, i, blank)
  }

  /** The second pass renders `s[a..e]`, as `v` shows it, like both passes in one. */
  ghost predicate PassesTwice(s: string, v: string, b1: bool, b2: bool, a: nat, e: nat)
    requires a <= e <= |s| == |v|
  {
    Boundary(v, e) && forall i :: a <= i < e ==> Shown(v, i, b2) == Shown(s, i, b1 || b2)
  }

  lemma {:induction false} SecondPass(s: string, v: string, b1: bool, b2: bool, a: nat)
    requires IsView(s, v, b1) && a < |s| && Boundary(s, a) && Boundary(v, a)
    ensures forall i :: a <= i < |s| ==> Shown(v, i, b2) == Shown(s, i, b1 || b2)
    decreases |s| - a
  {
    TokenCovers(s, a);
    SecondPassToken(s, v, b1, b2, a);
    if EndAt(s, a) < |s| {
      SecondPass(s, v, b1, b2, EndAt(s, a));
    }
  }

  /** What the first pass made of the token at `a`, and of the character after it. */
  ghost predicate Rendered(s: string, v: string, blank: bool, a: nat)
    requires a < |s| == |v|
  {
    && (forall i :: a <= i < EndAt(s, a) ==> v[i] == ShownIn(s, a, i, blank))
    && (EndAt(s, a) < |s| ==> v[EndAt(s, a)] in {s[EndAt(s, a)], ' '})
  }

  lemma SecondPassToken(s: string, v: string, b1: bool, b2: bool, a: nat)
    requires IsView(s, v, b1) && a < |s| && Boundary(s, a) && Boundary(v, a)
    ensures PassesTwice(s, v, b1, b2, a, EndAt(s, a))
  {
    TokenCovers(s, a);
    assert Rendered(s, v, b1, a);
    if KindAt(s, a) in {LineComment, BlockComment} {
      BlanksAreCode(s, v, b1, b2, a, EndAt(s, a));
    } else {
      SecondFindsToken(s, v, b1, a);
      SecondSameToken(s, v, b1, b2, a);
    }
  }

  /** A run of spaces and newlines is code, character by character. */
  lemma {:induction false} BlanksAreCode(s: string, v: string, b1: bool, b2: bool, a: nat, e: nat)
    requires a <= e <= |s| == |v| && Boundary(v, a)
    requires forall i :: a <= i < e ==> v[i] == BlankChar(s[i]) == Shown(s, i, b1 || b2)
    ensures PassesTwice(s, v, b1, b2, a, e)
    decreases e - a
  {
    hide Boundary, Shown;
    if a < e {
      BlankIsCode(v, a, b2);
      BlanksAreCode(s, v, b1, b2, a + 1, e);
    }
  }

  lemma BlankIsCode(v: string, a: nat, blank: bool)
    requires a < |v| && Boundary(v, a) && v[a] in {' ', '\n'}
    ensures Boundary(v, a + 1) && Shown(v, a, blank) == v[a]
  {
    hide Boundary, Start;
    TokenCovers(v, a);
  }

  /** A token that the first pass left in place is rendered by the second as by both. */
  lemma SecondSameToken(s: string, v: string, b1: bool, b2: bool, a: nat)
    requires a < |s| == |v| && Boundary(s, a) && Boundary(v, a) && Rendered(s, v, b1, a)
    requires KindAt(s, a) !in {LineComment, BlockComment}
    requires KindAt(v, a) == KindAt(s, a) && CloseAt(v, a) == CloseAt(s, a)
    ensures PassesTwice(s, v, b1, b2, a, EndAt(s, a))
  {
    hide KindAt, CloseAt, Boundary, Start, ShownIn;
    TokenCovers(s, a);
    TokenCovers(v, a);
    forall i | a <= i < EndAt(s, a) ensures Shown(v, i, b2) == Shown(s, i, b1 || b2) {
      SecondSameChar(s, v, b1, b2, a, i);
    }
  }

  lemma SecondSameChar(s: string, v: string, b1: bool, b2: bool, a: nat, i: nat)
    requires a < |s| == |v| && a <= i < EndAt(s, a) && v[i] == ShownIn(s, a, i, b1)
    requires KindAt(s, a) !in {LineComment, BlockComment}
    requires KindAt(v, a) == KindAt(s, a) && CloseAt(v, a) == CloseAt(s, a)
    ensures ShownIn(v, a, i, b2) == ShownIn(s, a, i, b1 || b2)
  {
  }

  /** Code characters and literals are found again where they were. */
  lemma SecondFindsToken(s: string, v: string, b1: bool, a: nat)
    requires a < |s| == |v| && Rendered(s, v, b1, a) && KindAt(s, a) !in {LineComment, BlockComment}
    ensures KindAt(v, a) == KindAt(s, a) && CloseAt(v, a) == CloseAt(s, a)
  {
    assert v[a] == ShownIn(s, a, a, b1) == s[a];
    match KindAt(s, a)
    case Interpreted => SecondQuote(s, v, b1, a, a + 1);
    case RawString => SecondRaw(s, v, b1, a);
    case CodeChar => assert EndAt(s, a) == a + 1;
  }

  lemma SecondRaw(s: string, v: string, b1: bool, a: nat)
    requires a < |s| == |v| && Rendered(s, v, b1, a) && KindAt(s, a) == RawString
    ensures FirstChar(v, a + 1, '`') == CloseAt(s, a)
  {
    var c := FirstChar(s, a + 1, '`');
    assert c < |s| ==> v[c] == ShownIn(s, a, c, b1);
    forall i | a < i < c ensures v[i] != '`' {
      assert v[i] == ShownIn(s, a, i, b1);
    }
  }

  /** The closing quote is found again at the same place. */
  lemma {:induction false} SecondQuote(s: string, v: string, b1: bool, a: nat, i: nat)
    requires a < |s| == |v| && Rendered(s, v, b1, a) && KindAt(s, a) == Interpreted
    requires a < i <= CloseAt(s, a) && QuoteClose(s, i, s[a]) == CloseAt(s, a)
    ensures QuoteClose(v, i, s[a]) == CloseAt(s, a)
    decreases |s| - i
  {
    if i < |s| {
      assert v[i] == ShownIn(s, a, i, b1);
      if s[i] == '\\' && i + 1 < |s| {
        assert v[i + 1] == ShownIn(s, a, i + 1, b1);
        SecondQuote(s, v, b1, a, i + 2);
      } else if s[i] != s[a] {
        SecondQuote(s, v, b1, a, i + 1);
      }
    }
  }
}
