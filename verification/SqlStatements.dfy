// Splitting stripped SQL into statements.
module SqlStatements {
  import opened Common
  import opened Lines
  import Segments
  import opened SqlLexer

  /** Start of the line that holds position `w`, or `p` if that line began before `p`. */
  function LineStart(t: string, p: nat, w: nat): (f: nat)
    requires p <= w <= |t|
    ensures p <= f <= w && (f == p || t[f - 1] == '\n')
    ensures forall j :: f <= j < w ==> t[j] != '\n'
    decreases w
  {
    if w == p || t[w - 1] == '\n' then w else LineStart(t, p, w - 1)
  }

  // ----- where statements end -----

  /** End of what a splitter must take as a whole at `i`: a dollar-quoted body, or one character. */
  function UnitEnd(t: string, i: nat): (e: nat)
    requires i < |t|
    ensures i < e <= |t|
  {
    if TagAt(t, i) then Close(t, TagEnd(t, i), i, TagEnd(t, i)) else i + 1
  }

  /** End of the next repetition from `i` on of the tag `t[a..e]`, or the end of the text. */
  function Close(t: string, i: nat, a: nat, e: nat): (c: nat)
    requires i <= |t| && a < e <= |t|
    ensures i <= c <= |t|
  {
    var c := FindTag(t, i, a, e);
    if c < |t| then c + (e - a) else c
  }

  /** Where the units of the text end. */
  function UnitEnds(t: string): nat -> nat {
    (i: nat) => if i < |t| then UnitEnd(t, i) else i + 1
  }

  predicate UnitStart(t: string, i: nat) {
    i == |t| || (i < |t| && Segments.Start(UnitEnds(t), i) == i)
  }

  /** A semicolon outside dollar-quoted bodies. */
  predicate Cut(t: string, i: nat) { i < |t| && t[i] == ';' && UnitStart(t, i) }

  /** A semicolon of raw SQL outside comments, quoted literals and dollar-quoted bodies. */
  predicate RawCut(s: string, i: nat) {
    i < |s| && s[i] == ';' && KindAt(s, Start(s, i)).CodeChar?
  }

  lemma UnitCovers(t: string, a: nat)
    requires a < |t| && UnitStart(t, a)
    ensures forall i :: a < i < UnitEnd(t, a) ==> !UnitStart(t, i)
    ensures UnitStart(t, UnitEnd(t, a))
  {
    Segments.Covers(UnitEnds(t), a);
  }

  // ----- both scanners agree -----

  /** Each character of `t` from `i` up to `n` is that of `s`. */
  ghost predicate SameFrom(s: string, t: string, i: nat, n: nat) {
    n <= |s| == |t| && forall j :: i <= j < n ==> t[j] == s[j]
  }

  lemma {:induction false} SameTag(s: string, t: string, i: nat, n: nat)
    requires SameFrom(s, t, i, n) && i <= n && TagRun(s, i) < n
    ensures TagRun(t, i) == TagRun(s, i)
    decreases |s| - i
  {
    if TagRun(s, i) > i {
      SameTag(s, t, i + 1, n);
    }
  }

  lemma {:induction false} SameRepeats(s: string, t: string, i: nat, a: nat, e: nat, n: nat)
    requires a <= e <= n && SameFrom(s, t, a, n) && a <= i && i + (e - a) <= n
    ensures Repeats(t, i, a, e) <==> Repeats(s, i, a, e)
    decreases e - a
  {
    if a < e {
      SameRepeats(s, t, i + 1, a + 1, e, n);
    }
  }

  /** No tag repeats past the end of a text. */
  lemma SameFind(s: string, t: string, i: nat, a: nat, e: nat)
    requires a < e <= i <= |s| && SameFrom(s, t, a, Close(s, i, a, e))
    ensures FindTag(t, i, a, e) == FindTag(s, i, a, e)
  {
    var c, n := FindTag(s, i, a, e), Close(s, i, a, e);
    forall j | i <= j < c ensures !Repeats(t, j, a, e) {
      if j + (e - a) <= n {
        SameRepeats(s, t, j, a, e, n);
      } else {
        assert c == |s| == |t|;
      }
    }
    if c < |s| {
      SameRepeats(s, t, c, a, e, n);
    }
  }

  /** Each character of `t` is that of `s` or a space. */
  ghost predicate Blanked(s: string, t: string) {
    |t| == |s| && forall i :: 0 <= i < |s| ==> t[i] in {s[i], ' '}
  }

  lemma {:induction false} BlankedRun(s: string, t: string, i: nat)
    requires Blanked(s, t) && i <= |s|
    ensures TagRun(t, i) < |t| && t[TagRun(t, i)] == '$' ==> TagRun(s, i) == TagRun(t, i)
    decreases |s| - i
  {
    if i < |s| && TagChar(t[i]) {
      BlankedRun(s, t, i + 1);
    }
  }

  /** Blanking makes no new tag. */
  lemma NoNewTag(s: string, t: string, i: nat)
    requires Blanked(s, t) && TagAt(t, i)
    ensures TagAt(s, i)
  {
    BlankedRun(s, t, i + 1);
  }

  /** A run without tags is taken one character at a time. */
  lemma {:induction false} PlainRun(t: string, a: nat, i: nat)
    requires a <= i <= |t| && UnitStart(t, a) && forall j :: a <= j < i ==> !TagAt(t, j)
    ensures UnitStart(t, i)
    decreases i - a
  {
    if a < i {
      UnitCovers(t, a);
      PlainRun(t, a + 1, i);
    }
  }

  /** A token the stripper left as it was, or blanked, starts and ends where units do. */
  ghost predicate KeepsUnits(s: string, t: string, a: nat)
    requires a < |s|
  {
    && UnitStart(t, EndAt(s, a))
    && forall i :: a <= i < EndAt(s, a) ==> (Cut(t, i) <==> s[i] == ';' && KindAt(s, a).CodeChar?)
  }

  ghost predicate ShowsToken(s: string, t: string, a: nat)
    requires a < |s|
  {
    |t| == |s| && forall i :: a <= i < EndAt(s, a) ==> t[i] == ShownIn(s, a, i)
  }

  lemma DollarKeeps(s: string, t: string, a: nat)
    requires a < |s| && KindAt(s, a).Dollar? && ShowsToken(s, t, a) && UnitStart(t, a)
    ensures KeepsUnits(s, t, a)
  {
    hide UnitStart;
    var e := TagEnd(s, a);
    assert SameFrom(s, t, a, EndAt(s, a)) && e <= CloseAt(s, a) <= EndAt(s, a);
    SameTag(s, t, a + 1, EndAt(s, a));
    assert TagAt(t, a) && TagEnd(t, a) == e;
    SameFind(s, t, e, a, e);
    assert UnitEnd(t, a) == EndAt(s, a);
    UnitCovers(t, a);
    assert t[a] == '$';
  }

  lemma CodeKeeps(s: string, t: string, a: nat)
    requires a < |s| && KindAt(s, a).CodeChar? && ShowsToken(s, t, a) && UnitStart(t, a) && Blanked(s, t)
    ensures KeepsUnits(s, t, a)
  {
    if TagAt(t, a) {
      NoNewTag(s, t, a);
    }
    UnitCovers(t, a);
    assert t[a] == ShownIn(s, a, a);
  }

  lemma BlankKeeps(s: string, t: string, a: nat)
    requires a < |s| && KindAt(s, a) in {LineComment, BlockComment, Literal}
    requires ShowsToken(s, t, a) && UnitStart(t, a)
    ensures KeepsUnits(s, t, a)
  {
    forall i | a <= i < EndAt(s, a) ensures t[i] != '$' && t[i] != ';' {
      BlankShows(s, a, i);
    }
    PlainRun(t, a, EndAt(s, a));
  }

  lemma BlankShows(s: string, a: nat, i: nat)
    requires a < |s| && KindAt(s, a) in {LineComment, BlockComment, Literal}
    requires a <= i < EndAt(s, a)
    ensures ShownIn(s, a, i) in {' ', '\n', '\''}
  {
  }

  lemma StripShowsToken(s: string, a: nat)
    requires a < |s| && Boundary(s, a)
    ensures ShowsToken(s, Strip(s), a)
  {
    TokenCovers(s, a);
    forall i | a <= i < EndAt(s, a) ensures Strip(s)[i] == ShownIn(s, a, i) {
      StripAt(s, i);
    }
  }

  lemma TokenKeeps(s: string, a: nat)
    requires a < |s| && Boundary(s, a) && UnitStart(Strip(s), a)
    ensures KeepsUnits(s, Strip(s), a)
  {
    StripShowsToken(s, a);
    StripLayout(s);
    match KindAt(s, a)
    case Dollar => DollarKeeps(s, Strip(s), a);
    case CodeChar => CodeKeeps(s, Strip(s), a);
    case _ => BlankKeeps(s, Strip(s), a);
  }

  lemma {:induction false} CutFrom(s: string, a: nat, i: nat)
    requires a <= i < |s| && Boundary(s, a) && UnitStart(Strip(s), a)
    ensures Cut(Strip(s), i) <==> RawCut(s, i)
    decreases i - a
  {
    TokenCovers(s, a);
    TokenKeeps(s, a);
    if i >= EndAt(s, a) {
      CutFrom(s, EndAt(s, a), i);
    }
  }

  /** The two scanners agree: the semicolons that end a statement of the stripped text are the
      semicolons of the raw SQL outside comments, literals and dollar-quoted bodies, also when
      one of those is never closed. */
  lemma ScannersAgree(sql: string, i: nat)
    ensures Cut(Strip(sql), i) <==> RawCut(sql, i)
  {
    if i < |sql| {
      CutFrom(sql, 0, i);
    }
  }

  /** By the lexical rules alone: a statement ends at a semicolon that is a token of its own. */
  lemma CutsExactly(sql: string, a: nat, e: nat, k: Kind, i: nat)
    requires a <= i < e <= |sql| && Boundary(sql, a) && IsToken(sql, a, e, k)
    ensures Cut(Strip(sql), i) <==> k == CodeChar && sql[i] == ';'
  {
    SqlLexer.GrammarDeterminesToken(sql, a, e, k);
    SqlLexer.TokenCovers(sql, a);
    ScannersAgree(sql, i);
    hide Cut, Boundary, Start, IsToken, Strip, EndAt;
  }

  // ----- the statements, by reference -----

  /** A statement's range in the text. */
  datatype Slice = Slice(from: nat, to: nat)

  /** The next statement end from `i` on. */
  function NextCut(t: string, i: nat): (e: nat)
    requires i <= |t|
    ensures i <= e <= |t| && (e < |t| ==> t[e] == ';')
    decreases |t| - i
  {
    if i == |t| || t[i] == ';' then i else NextCut(t, UnitEnd(t, i))
  }

  /** The statement between `p` and `e`, without the blank lines before it, unless it is blank. */
  function Kept(t: string, p: nat, e: nat): seq<Slice>
    requires p <= e <= |t|
  {
    if Ink(t, p) < e then [Slice(LineStart(t, p, Ink(t, p)), e)] else []
  }

  function Split(t: string, p: nat): seq<Slice>
    requires p <= |t|
    decreases |t| - p
  {
    var e := NextCut(t, p);
    Kept(t, p, e) + if e == |t| then [] else Split(t, e + 1)
  }

  /** A stretch of raw SQL between two statement ends. */
  ghost predicate Piece(sql: string, p: nat, e: nat) {
    && p <= e <= |sql| && (p == 0 || RawCut(sql, p - 1)) && (e == |sql| || RawCut(sql, e))
    && forall i :: p <= i < e ==> !RawCut(sql, i)
  }

  ghost predicate StatementFrom(sql: string, x: Slice, p: nat) {
    && Piece(sql, p, x.to) && Ink(Strip(sql), p) < x.to
    && x.from == LineStart(Strip(sql), p, Ink(Strip(sql), p))
  }

  ghost predicate StatementAfter(sql: string, x: Slice, p: nat) {
    exists q: nat :: p <= q && StatementFrom(sql, x, q)
  }

  lemma {:induction false} NextCutIsNext(t: string, i: nat)
    requires i <= |t| && UnitStart(t, i)
    ensures NextCut(t, i) < |t| ==> Cut(t, NextCut(t, i))
    ensures forall j :: i <= j < NextCut(t, i) ==> !Cut(t, j)
    decreases |t| - i
  {
    if i < |t| && t[i] != ';' {
      UnitCovers(t, i);
      NextCutIsNext(t, UnitEnd(t, i));
    }
  }

  lemma PieceStarts(sql: string, p: nat)
    requires p <= |sql| && (p == 0 || RawCut(sql, p - 1))
    ensures UnitStart(Strip(sql), p)
  {
    hide Strip, RawCut;
    if p > 0 {
      ScannersAgree(sql, p - 1);
      UnitCovers(Strip(sql), p - 1);
    }
  }

  lemma PieceFrom(sql: string, p: nat)
    requires p <= |sql| && (p == 0 || RawCut(sql, p - 1))
    ensures UnitStart(Strip(sql), p)
    ensures forall e :: Piece(sql, p, e) <==> e == NextCut(Strip(sql), p)
  {
    hide NextCut, Strip, UnitStart, KindAt, Start;
    PieceStarts(sql, p);
    NextCutIsNext(Strip(sql), p);
    forall i ensures Cut(Strip(sql), i) <==> RawCut(sql, i) {
      ScannersAgree(sql, i);
    }
  }

  lemma SplitUnfolds(t: string, p: nat)
    requires p <= |t|
    ensures var e := NextCut(t, p);
            Split(t, p) == Kept(t, p, e) + if e == |t| then [] else Split(t, e + 1)
  {
    hide NextCut, Kept;
  }

  lemma {:induction false} SplitFromPiece(sql: string, p: nat, x: Slice)
    requires p <= |sql| && (p == 0 || RawCut(sql, p - 1))
    ensures x in Split(Strip(sql), p) <==> StatementAfter(sql, x, p)
    decreases |sql| - p
  {
    hide *;
    var t := Strip(sql);
    var e := NextCut(t, p);
    PieceFrom(sql, p);
    KeptIsStatement(sql, p, e, x);
    LaterPieces(sql, p, e, x);
    SplitUnfolds(t, p);
    if e < |sql| {
      SplitFromPiece(sql, e + 1, x);
    }
  }

  lemma KeptIsStatement(sql: string, p: nat, e: nat, x: Slice)
    requires forall to :: Piece(sql, p, to) <==> to == e
    requires p <= e <= |sql|
    ensures x in Kept(Strip(sql), p, e) <==> StatementFrom(sql, x, p)
  {
  }

  lemma LaterPieces(sql: string, p: nat, e: nat, x: Slice)
    requires Piece(sql, p, e)
    ensures e < |sql| ==> RawCut(sql, e)
    ensures StatementAfter(sql, x, p)
            <==> StatementFrom(sql, x, p) || (e < |sql| && StatementAfter(sql, x, e + 1))
  {
    hide StatementFrom;
    NoneBetween(sql, p, e, x);
  }

  lemma NoneBetween(sql: string, p: nat, e: nat, x: Slice)
    requires Piece(sql, p, e)
    ensures forall q: nat | p < q && StatementFrom(sql, x, q) :: q > e && e < |sql|
  {
    forall q: nat | p < q && StatementFrom(sql, x, q) ensures q > e && e < |sql| {
      assert RawCut(sql, q - 1);
    }
  }

  /** Slices that lie one after the other, with something between them, from `p` on. */
  ghost predicate InOrder(xs: seq<Slice>, p: nat) {
    && (forall i :: 0 <= i < |xs| ==> p <= xs[i].from < xs[i].to)
    && forall i, j :: 0 <= i < j < |xs| ==> xs[i].to < xs[j].from
  }

  lemma OrderedBefore(xs: seq<Slice>, ys: seq<Slice>, p: nat, e: nat)
    requires |xs| <= 1 && (xs != [] ==> p <= xs[0].from < xs[0].to == e) && p <= e
    requires ys == [] || InOrder(ys, e + 1)
    ensures InOrder(xs + ys, p)
  {
  }

  lemma KeptInOrder(t: string, p: nat, e: nat)
    requires p <= e <= |t|
    ensures var xs := Kept(t, p, e); |xs| <= 1 && (xs != [] ==> p <= xs[0].from < xs[0].to == e)
  {
  }

  lemma {:induction false} SplitInOrder(t: string, p: nat)
    requires p <= |t|
    ensures InOrder(Split(t, p), p)
    decreases |t| - p
  {
    hide *;
    var e := NextCut(t, p);
    SplitUnfolds(t, p);
    KeptInOrder(t, p, e);
    if e < |t| {
      SplitInOrder(t, e + 1);
      OrderedBefore(Kept(t, p, e), Split(t, e + 1), p, e);
    } else {
      OrderedBefore(Kept(t, p, e), [], p, e);
    }
  }

  /** Between two statement ends of the raw SQL lies exactly one statement, whole and in order,
      unless everything there is white space once comments are blanked; only blank lines before
      a statement are dropped from it. */
  lemma StatementsAreThePieces(sql: string)
    ensures forall x :: x in Split(Strip(sql), 0) <==> exists p: nat :: StatementFrom(sql, x, p)
    ensures InOrder(Split(Strip(sql), 0), 0)
  {
    forall x ensures x in Split(Strip(sql), 0) <==> exists p: nat :: StatementFrom(sql, x, p) {
      SplitFromPiece(sql, 0, x);
    }
    SplitInOrder(Strip(sql), 0);
  }

  // ----- the scanner -----

  /** What is left to emit at `g` when the statement being read began at `f`. */
  function SplitFrom(t: string, f: nat, g: nat): seq<Slice>
    requires f <= g <= |t|
    decreases |t| - g
  {
    if g == |t| then (if Ink(t, f) < g then [Slice(f, g)] else [])
    else if t[g] == ';' then
      (if Ink(t, f) < g then [Slice(f, g)] else []) + SplitFrom(t, g + 1, g + 1)
    else if t[g] == '\n' then SplitFrom(t, if Ink(t, f) > g then g + 1 else f, g + 1)
    else SplitFrom(t, f, UnitEnd(t, g))
  }

  lemma {:induction false} InkSame(t: string, p: nat, f: nat)
    requires p <= |t| && p <= f <= Ink(t, p)
    ensures Ink(t, f) == Ink(t, p)
    decreases f - p
  {
    if p < f {
      InkSame(t, p + 1, f);
    }
  }

  /** Where the statement being read at `g` began. */
  function Began(t: string, p: nat, g: nat): (f: nat)
    requires p <= g <= |t|
    ensures p <= f <= g && f <= Ink(t, p)
  {
    LineStart(t, p, if Ink(t, p) < g then Ink(t, p) else g)
  }

  lemma BeganMoves(t: string, p: nat, g: nat)
    requires p <= g < |t| && t[g] != ';'
    ensures Began(t, p, UnitEnd(t, g))
            == if t[g] == '\n' && Ink(t, Began(t, p, g)) > g then g + 1 else Began(t, p, g)
  {
    InkSame(t, p, Began(t, p, g));
    if Ink(t, p) > g {
      assert IsSpace(t[g]) && UnitEnd(t, g) == g + 1;
    }
  }

  lemma KeptAt(t: string, p: nat, g: nat)
    requires p <= g <= |t|
    ensures Kept(t, p, g) == var f := Began(t, p, g); if Ink(t, f) < g then [Slice(f, g)] else []
  {
    InkSame(t, p, Began(t, p, g));
  }

  lemma SplitFromUnfolds(t: string, f: nat, g: nat)
    requires f <= g < |t| && t[g] != ';'
    ensures SplitFrom(t, f, g)
            == if t[g] == '\n' then SplitFrom(t, if Ink(t, f) > g then g + 1 else f, g + 1)
               else SplitFrom(t, f, UnitEnd(t, g))
  {
    hide UnitEnd, Ink;
  }

  lemma NextCutUnfolds(t: string, g: nat)
    requires g < |t| && t[g] != ';'
    ensures NextCut(t, g) == NextCut(t, UnitEnd(t, g))
  {
    hide UnitEnd;
  }

  lemma NewlineIsUnit(t: string, g: nat)
    requires g < |t| && t[g] == '\n'
    ensures UnitEnd(t, g) == g + 1
  {
  }

  lemma SplitFromMoves(t: string, p: nat, g: nat)
    requires p <= g < |t| && t[g] != ';'
    ensures SplitFrom(t, Began(t, p, g), g)
            == SplitFrom(t, Began(t, p, UnitEnd(t, g)), UnitEnd(t, g))
    ensures NextCut(t, g) == NextCut(t, UnitEnd(t, g))
  {
    hide *;
    BeganMoves(t, p, g);
    SplitFromUnfolds(t, Began(t, p, g), g);
    NextCutUnfolds(t, g);
    if t[g] == '\n' {
      NewlineIsUnit(t, g);
    }
  }

  lemma SplitFromStops(t: string, p: nat, g: nat)
    requires p <= g <= |t| && (g < |t| ==> t[g] == ';')
    ensures SplitFrom(t, Began(t, p, g), g)
            == Kept(t, p, g) + if g == |t| then [] else SplitFrom(t, g + 1, g + 1)
    ensures NextCut(t, g) == g && (g < |t| ==> Began(t, g + 1, g + 1) == g + 1)
  {
    KeptAt(t, p, g);
    hide Kept, UnitEnd;
  }

  lemma {:induction false} SplitFromIsSplit(t: string, p: nat, g: nat)
    requires p <= g <= |t|
    ensures var e := NextCut(t, g);
            SplitFrom(t, Began(t, p, g), g)
            == Kept(t, p, e) + if e == |t| then [] else Split(t, e + 1)
    decreases |t| - g
  {
    hide *;
    if g < |t| && t[g] != ';' {
      SplitFromMoves(t, p, g);
      SplitFromIsSplit(t, p, UnitEnd(t, g));
    } else {
      SplitFromStops(t, p, g);
      if g < |t| {
        SplitFromIsSplit(t, g + 1, g + 1);
        SplitUnfolds(t, g + 1);
      }
    }
  }

  /** The one-pass splitter yields exactly the statements of the reference. */
  lemma SplitFromTheStart(t: string)
    ensures SplitFrom(t, 0, 0) == Split(t, 0)
  {
    hide *;
    SplitFromIsSplit(t, 0, 0);
    SplitUnfolds(t, 0);
  }

  // ----- the method -----

  /** A statement's text and the line it begins on. */
  datatype Statement = Statement(text: string, line: nat)

  /** A statement that runs to the end of the text carries the newline of its last line. */
  function StatementAt(t: string, x: Slice): Statement
    requires x.from <= x.to <= |t|
  {
    Statement(t[x.from..x.to] + if x.to == |t| then "\n" else "", LineOf(t, x.from))
  }

  ghost predicate InText(t: string, xs: seq<Slice>) {
    forall x :: x in xs ==> x.from <= x.to <= |t|
  }

  /** The statements' texts and lines. */
  function Render(t: string, xs: seq<Slice>): (r: seq<Statement>)
    requires InText(t, xs)
    ensures |r| == |xs| && forall i :: 0 <= i < |xs| ==> r[i] == StatementAt(t, xs[i])
  {
    if xs == [] then [] else [StatementAt(t, xs[0])] + Render(t, xs[1..])
  }

  lemma BlankSlice(t: string, f: nat, g: nat)
    requires f <= g <= |t|
    ensures AllSpace(t[f..g]) <==> Ink(t, f) >= g
    ensures AllSpace(t[f..g] + "\n") <==> Ink(t, f) >= g
  {
    var cur := t[f..g];
    assert forall i :: 0 <= i < |cur| ==> (cur + "\n")[i] == cur[i];
    assert Ink(t, f) < g ==> cur[Ink(t, f) - f] == t[Ink(t, f)];
  }

  lemma {:induction false} SplitFromInText(t: string, f: nat, g: nat)
    requires f <= g <= |t|
    ensures InText(t, SplitFrom(t, f, g))
    decreases |t| - g
  {
    if g < |t| {
      SplitFromInText(t, if t[g] == '\n' then (if Ink(t, f) > g then g + 1 else f)
                         else if t[g] == ';' then g + 1 else f,
                      UnitEnd(t, g));
    }
  }

  /** A dollar-quoting tag that is open. */
  predicate Opened(t: string, dollar: Option<Slice>) {
    dollar.Some? ==> TagAt(t, dollar.value.from) && dollar.value.to == TagEnd(t, dollar.value.from)
  }

  /** What is left to emit at `g`, inside a dollar-quoted body or outside. */
  function Left(t: string, f: nat, g: nat, dollar: Option<Slice>): (xs: seq<Slice>)
    requires f <= g <= |t| && Opened(t, dollar)
  {
    SplitFrom(t, f, if dollar.Some? then Close(t, g, dollar.value.from, dollar.value.to) else g)
  }

  /** What the scanner holds: emitted statements, the text of the one being read, the line it
      began on, and the open tag. */
  datatype Scan = Scan(res: seq<Statement>, cur: string, start: nat, dollar: Option<Slice>)

  /** The scan has read the text up to `g`, in a statement that began at `f`. */
  ghost predicate Reads(t: string, s: Scan, f: nat, g: nat) {
    f <= g <= |t| && Opened(t, s.dollar) && s.cur == t[f..g] && s.start == LineOf(t, f)
  }

  ghost predicate OnTrack(t: string, res: seq<Statement>, left: seq<Slice>) {
    InText(t, left) && res + Render(t, left) == Render(t, Whole(t))
  }

  function Whole(t: string): (xs: seq<Slice>)
    ensures InText(t, xs)
  {
    SplitInOrder(t, 0);
    SplitFromTheStart(t);
    SplitFromInText(t, 0, 0);
    Split(t, 0)
  }

  lemma EmitsStatement(t: string, res: seq<Statement>, f: nat, g: nat)
    requires f <= g < |t| && t[g] == ';' && OnTrack(t, res, SplitFrom(t, f, g))
    ensures var now := if Ink(t, f) < g then [StatementAt(t, Slice(f, g))] else [];
            OnTrack(t, res + now, SplitFrom(t, g + 1, g + 1))
  {
    hide UnitEnd, LineOf, Ink;
    var left, rest := SplitFrom(t, f, g), SplitFrom(t, g + 1, g + 1);
    SplitFromInText(t, g + 1, g + 1);
    if Ink(t, f) < g {
      assert left == [Slice(f, g)] + rest;
      assert left[1..] == rest;
      RenderFirst(t, Slice(f, g), rest);
      assert res + [StatementAt(t, Slice(f, g))] + Render(t, rest) == res + Render(t, left);
    } else {
      assert left == rest;
      assert res + [] == res;
    }
  }

  lemma RenderFirst(t: string, x: Slice, xs: seq<Slice>)
    requires InText(t, [x] + xs)
    ensures InText(t, xs) && Render(t, [x] + xs) == [StatementAt(t, x)] + Render(t, xs)
  {
    assert ([x] + xs)[1..] == xs;
    assert forall y :: y in xs ==> y in [x] + xs;
  }

  lemma {:induction false} SkipsPlain(t: string, f: nat, g: nat, h: nat)
    requires f <= g <= h <= |t|
    requires forall j :: g <= j < h ==> !TagAt(t, j) && t[j] != ';' && t[j] != '\n'
    ensures SplitFrom(t, f, g) == SplitFrom(t, f, h)
    decreases h - g
  {
    if g < h {
      SkipsPlain(t, f, g + 1, h);
    }
  }

  lemma OpensTag(t: string, f: nat, g: nat)
    requires f <= g && TagAt(t, g)
    ensures SplitFrom(t, f, g) == Left(t, f, TagEnd(t, g), Some(Slice(g, TagEnd(t, g))))
  {
  }

  lemma {:induction false} FindSkips(t: string, g: nat, h: nat, a: nat, e: nat)
    requires g <= |t| && a < e <= |t| && g <= h <= FindTag(t, g, a, e)
    ensures FindTag(t, g, a, e) == FindTag(t, h, a, e)
    decreases h - g
  {
    if g < h {
      FindSkips(t, g + 1, h, a, e);
    }
  }

  /** A tag repeats within its line. */
  lemma {:induction false} RepeatsOnLine(t: string, i: nat, a: nat, e: nat, to: nat)
    requires a <= e <= |t| && Repeats(t, i, a, e) && i <= to <= |t| && (to < |t| ==> t[to] == '\n')
    requires forall k :: a <= k < e ==> t[k] != '\n'
    ensures i + (e - a) <= to
    decreases e - a
  {
    if a < e {
      RepeatsOnLine(t, i + 1, a + 1, e, to);
    }
  }

  lemma TagOnLine(t: string, a: nat)
    requires TagAt(t, a)
    ensures forall k :: a <= k < TagEnd(t, a) ==> t[k] != '\n'
  {
    TagRunHolds(t, a + 1);
  }

  /** A newline is passed: a blank start of a statement is dropped, a dollar-quoted body goes on. */
  lemma PassesNewline(t: string, f: nat, g: nat, dollar: Option<Slice>)
    requires f <= g < |t| && t[g] == '\n' && Opened(t, dollar)
    ensures var f' := if dollar.None? && Ink(t, f) >= g + 1 then g + 1 else f;
            Left(t, f, g, dollar) == Left(t, f', g + 1, dollar)
  {
    if dollar.Some? {
      TagOnLine(t, dollar.value.from);
      assert !Repeats(t, g, dollar.value.from, dollar.value.to);
    } else {
      assert IsSpace(t[g]);
    }
  }

  /** First tag from `i` on in a line that ends at `to`, or `to`. */
  function NextTag(t: string, i: nat, to: nat): (m: nat)
    requires i <= to <= |t|
    ensures i <= m <= to && (m < to ==> TagAt(t, m)) && forall j :: i <= j < m ==> !TagAt(t, j)
    decreases |t| - i
  {
    if i == to || TagAt(t, i) then i else NextTag(t, i + 1, to)
  }

  lemma Joins(t: string, f: nat, g: nat, h: nat)
    requires f <= g <= h <= |t|
    ensures t[f..g] + t[g..h] == t[f..h]
  {
  }

  lemma JoinsNewline(t: string, f: nat, g: nat)
    requires f <= g < |t| && t[g] == '\n'
    ensures t[f..g] + "\n" == t[f..g + 1]
  {
  }

  /** A line of the text. */
  ghost predicate OnLine(t: string, from: nat, to: nat) {
    from <= to <= |t| && (to < |t| ==> t[to] == '\n') && forall j :: from <= j < to ==> t[j] != '\n'
  }

  /** One turn of the inner loop inside a dollar-quoted body. */
  method InDollar(t: string, pos: nat, to: nat, s: Scan, ghost f: nat) returns (s': Scan, pos': nat)
    requires OnLine(t, pos, to) && Reads(t, s, f, pos) && s.dollar.Some? && pos < to
    ensures pos < pos' <= to && Reads(t, s', f, pos') && s'.res == s.res
    ensures Left(t, f, pos', s'.dollar) == Left(t, f, pos, s.dollar)
  {
    hide LineOf, IsSpace, SplitFrom, TagChar;
    var tag := s.dollar.value;
    var j := FindTag(t, pos, tag.from, tag.to);
    if j >= to {
      FindSkips(t, pos, to, tag.from, tag.to);
      Joins(t, f, pos, to);
      s', pos' := s.(cur := s.cur + t[pos..to]), to;
    } else {
      TagOnLine(t, tag.from);
      RepeatsOnLine(t, j, tag.from, tag.to, to);
      var end := j + (tag.to - tag.from);
      Joins(t, f, pos, end);
      s', pos' := s.(cur := s.cur + t[pos..end], dollar := None), end;
    }
  }

  /** One turn of the inner loop outside dollar-quoted bodies. */
  method OutsideDollar(t: string, pos: nat, to: nat, ln: nat, s: Scan, ghost f: nat)
    returns (s': Scan, pos': nat, ghost f': nat)
    requires OnLine(t, pos, to) && Reads(t, s, f, pos) && s.dollar.None? && pos < to
    requires ln == LineOf(t, pos) && OnTrack(t, s.res, SplitFrom(t, f, pos))
    ensures pos < pos' <= to && Reads(t, s', f', pos')
    ensures OnTrack(t, s'.res, Left(t, f', pos', s'.dollar))
  {
    hide UnitEnd, LineOf, OnTrack, IsSpace, SplitFrom, FindTag;
    f' := f;
    var m, semi := NextTag(t, pos, to), FirstChar(t, pos, ';');
    if m < to && m < semi {
      SkipsPlain(t, f, pos, m);
      OpensTag(t, f, m);
      var end := TagEnd(t, m);
      TagOnLine(t, m);
      assert end <= to;
      Joins(t, f, pos, end);
      s', pos' := s.(cur := s.cur + t[pos..end], dollar := Some(Slice(m, end))), end;
    } else if semi < to {
      SkipsPlain(t, f, pos, semi);
      EmitsStatement(t, s.res, f, semi);
      LineOfSame(t, pos, semi + 1);
      Joins(t, f, pos, semi);
      var cur := s.cur + t[pos..semi];
      BlankSlice(t, f, semi);
      s' := s.(res := s.res + if AllSpace(cur) then [] else [Statement(cur, s.start)],
               cur := "", start := ln);
      pos', f' := semi + 1, semi + 1;
      assert s'.cur == t[f'..pos'];
      assert t[f..semi] + "" == t[f..semi];
    } else {
      SkipsPlain(t, f, pos, to);
      Joins(t, f, pos, to);
      s', pos' := s.(cur := s.cur + t[pos..to]), to;
    }
  }

  method ScanLine(t: string, from: nat, to: nat, ln: nat, s0: Scan, ghost f0: nat)
    returns (s: Scan, ghost f: nat)
    requires OnLine(t, from, to) && ln == LineOf(t, from)
    requires Reads(t, s0, f0, from) && OnTrack(t, s0.res, Left(t, f0, from, s0.dollar))
    ensures Reads(t, s, f, to) && OnTrack(t, s.res, Left(t, f, to, s.dollar))
  {
    hide LineOf, OnTrack, SplitFrom, FindTag;
    s, f := s0, f0;
    var pos := from;
    while pos < to
      invariant from <= pos <= to && LineOf(t, pos) == ln
      invariant Reads(t, s, f, pos) && OnTrack(t, s.res, Left(t, f, pos, s.dollar))
    {
      ghost var was := pos;
      if s.dollar.Some? {
        s, pos := InDollar(t, pos, to, s, f);
      } else {
        s, pos, f := OutsideDollar(t, pos, to, ln, s, f);
      }
      LineOfSame(t, was, pos);
    }
  }

  /** The scan stands at the start of line `ln`. */
  ghost predicate AtLine(t: string, s: Scan, f: nat, from: nat, ln: nat) {
    && Reads(t, s, f, from) && ln == LineOf(t, from)
    && OnTrack(t, s.res, Left(t, Dropped(t, f, from, s.dollar), from, s.dollar))
  }

  /** The scan has read the whole text. */
  ghost predicate AtEnd(t: string, s: Scan, f: nat) {
    && f <= |t| && s.cur == t[f..] + "\n" && s.start == LineOf(t, f)
    && OnTrack(t, s.res, SplitFrom(t, f, |t|))
  }

  /** The body of the outer loop: one line of the text, and the newline that ends it. */
  method WholeLine(t: string, from: nat, ln: nat, s0: Scan, ghost f0: nat)
    returns (s: Scan, to: nat, ghost f: nat)
    requires AtLine(t, s0, f0, from, ln)
    ensures from <= to <= |t| && if to < |t| then AtLine(t, s, f, to + 1, ln + 1) else AtEnd(t, s, f)
  {
    hide LineOf, OnTrack, SplitFrom, FindTag, IsSpace, Ink, TagAt;
    s, f := s0, f0;
    BlankSlice(t, f, from);
    if AllSpace(s.cur) && s.dollar.None? {
      s, f := s.(start := ln, cur := ""), from;
    }
    to := LineEnd(t, from);
    s, f := ScanLine(t, from, to, ln, s, f);
    LineOfSame(t, from, to);
    if to < |t| {
      PassesNewline(t, f, to, s.dollar);
      LineOfNext(t, to);
      JoinsNewline(t, f, to);
    }
    s := s.(cur := s.cur + "\n");
  }

  /** Split stripped SQL on semicolons: the emitted statements are exactly those of the reference,
      each a contiguous slice of the text with the line it begins on. */
  method Statements(sql: string) returns (res: seq<Statement>)
    ensures |res| == |Split(sql, 0)|
    ensures forall i :: 0 <= i < |res| ==>
                     var x := Split(sql, 0)[i];
                     && x.from <= x.to <= |sql|
                     && res[i].text == sql[x.from..x.to] + (if x.to == |sql| then "\n" else "")
                     && res[i].line == 1 + Newlines(sql[..x.from])
  {
    hide LineOf, OnTrack, SplitFrom, FindTag, IsSpace, Ink, TagAt, Render, InText, Newlines;
    StartsOnTrack(sql);
    var s, ln := Scan([], "", 1, None), 1;
    var from: nat := 0;
    ghost var f: nat := 0;
    while from <= |sql|
      invariant from <= |sql| + 1
      invariant if from <= |sql| then AtLine(sql, s, f, from, ln) else AtEnd(sql, s, f)
    {
      hide AtLine, AtEnd;
      var to: nat;
      s, to, f := WholeLine(sql, from, ln, s, f);
      from, ln := to + 1, ln + 1;
    }
    BlankSlice(sql, f, |sql|);
    assert sql[f..|sql|] == sql[f..];
    res := s.res + if AllSpace(s.cur) then [] else [Statement(s.cur, s.start)];
    EndsOnTrack(sql, s.res, f);
    RenderedExactly(sql, Whole(sql));
  }

  lemma RenderedExactly(t: string, xs: seq<Slice>)
    requires InText(t, xs)
    ensures forall i :: 0 <= i < |xs| ==>
              && xs[i].from <= xs[i].to <= |t|
              && Render(t, xs)[i].text == t[xs[i].from..xs[i].to] + (if xs[i].to == |t| then "\n" else "")
              && Render(t, xs)[i].line == 1 + Newlines(t[..xs[i].from])
  {
    hide Newlines;
    assert forall x :: x in xs ==> x.from <= x.to <= |t|;
  }

  /** The new start of the statement being read when a line begins. */
  function Dropped(t: string, f: nat, from: nat, dollar: Option<Slice>): nat
    requires f <= from <= |t|
  {
    if dollar.None? && Ink(t, f) >= from then from else f
  }

  lemma StartsOnTrack(t: string)
    ensures OnTrack(t, [], SplitFrom(t, 0, 0)) && LineOf(t, 0) == 1
  {
    SplitFromTheStart(t);
    SplitFromInText(t, 0, 0);
    assert t[..0] == "";
  }

  lemma EndsOnTrack(t: string, res: seq<Statement>, f: nat)
    requires f <= |t| && OnTrack(t, res, SplitFrom(t, f, |t|))
    ensures InText(t, Whole(t))
    ensures var now := if Ink(t, f) < |t| then [StatementAt(t, Slice(f, |t|))] else [];
            res + now == Render(t, Whole(t))
  {
    if Ink(t, f) < |t| {
      RenderFirst(t, Slice(f, |t|), []);
      assert [Slice(f, |t|)] + [] == [Slice(f, |t|)];
    }
  }
}
