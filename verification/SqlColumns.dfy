// The columns of a CREATE TABLE statement, and the lines they are reported on.
module SqlColumns {
  import opened Common
  import opened Lines
  import opened CreateTable
  import opened SqlLexer
  import opened SqlStatements

  // ----- parentheses -----

  function Level(c: char): int { if c == '(' then 1 else if c == ')' then -1 else 0 }

  /** Parentheses opened less parentheses closed between `i` and `j`. */
  function Depth(s: string, i: nat, j: nat): int
    requires i <= j <= |s|
    decreases j
  {
    if i == j then 0 else Depth(s, i, j - 1) + Level(s[j - 1])
  }

  lemma {:induction false} DepthCounts(s: string, i: nat, j: nat)
    requires i <= j <= |s|
    ensures multiset(s[i..j])['('] == Depth(s, i, j) + multiset(s[i..j])[')']
    decreases j
  {
    if i < j {
      DepthCounts(s, i, j - 1);
      assert s[i..j] == s[i..j - 1] + [s[j - 1]];
    } else {
      assert s[i..j] == "";
    }
  }

  /** Where what opened at `open` closes again, searched from `j` on, or the end. */
  function CloseFrom(s: string, open: nat, j: nat): (c: nat)
    requires open <= j <= |s|
    ensures j <= c <= |s| && (c < |s| ==> s[c] == ')' && Depth(s, open, c + 1) == 0)
    ensures forall k :: j <= k < c ==> !(s[k] == ')' && Depth(s, open, k + 1) == 0)
    decreases |s| - j
  {
    if j == |s| || (s[j] == ')' && Depth(s, open, j + 1) == 0) then j else CloseFrom(s, open, j + 1)
  }

  /** Where what a parenthesis encloses ends. */
  function BodyEnd(s: string, open: nat): (c: nat)
    requires open < |s| && s[open] == '('
    ensures open < c <= |s|
  {
    CloseFrom(s, open, open + 1)
  }

  lemma {:induction false} DepthSlice(s: string, a: nat, b: nat, i: nat, j: nat)
    requires a <= b <= |s| && i <= j <= b - a
    ensures Depth(s[a..b], i, j) == Depth(s, a + i, a + j)
    decreases j
  {
    if i < j {
      DepthSlice(s, a, b, i, j - 1);
    }
  }

  lemma {:induction false} DepthFrom(s: string, i: nat, j: nat)
    requires i < j <= |s|
    ensures Depth(s, i, j) == Level(s[i]) + Depth(s, i + 1, j)
    decreases j
  {
    if i + 1 < j {
      DepthFrom(s, i, j - 1);
    }
  }

  /** What stands between a parenthesis and the one that closes it, or up to the end. */
  method Balanced(stmt: string, open: nat) returns (body: string)
    requires open < |stmt| && stmt[open] == '('
    ensures body == stmt[open + 1..BodyEnd(stmt, open)]
  {
    var depth := 0;
    for j := open to |stmt|
      invariant depth == Depth(stmt, open, j)
      invariant j > open ==> CloseFrom(stmt, open, open + 1) == CloseFrom(stmt, open, j)
    {
      if stmt[j] == '(' {
        depth := depth + 1;
      } else if stmt[j] == ')' {
        depth := depth - 1;
        if depth == 0 {
          return stmt[open + 1..j];
        }
      }
    }
    return stmt[open + 1..];
  }

  /** The table's list of definitions, and where it begins. */
  method TableBodyOff(stmt: string) returns (body: string, off: nat)
    ensures var open := FirstChar(stmt, 0, '(');
            if open == |stmt| then body == "" && off == 0
            else off == open + 1 && body == stmt[off..BodyEnd(stmt, open)]
  {
    var open := FirstChar(stmt, 0, '(');
    if open == |stmt| {
      return "", 0;
    }
    var depth := 0;
    for j := open to |stmt|
      invariant depth == Depth(stmt, open, j)
      invariant j > open ==> CloseFrom(stmt, open, open + 1) == CloseFrom(stmt, open, j)
    {
      if stmt[j] == '(' {
        depth := depth + 1;
      } else if stmt[j] == ')' {
        depth := depth - 1;
        if depth == 0 {
          return stmt[open + 1..j], open + 1;
        }
      }
    }
    return stmt[open + 1..], open + 1;
  }

  // ----- the parts of a body -----

  /** A comma outside all parentheses of the body. */
  predicate TopComma(b: string, c: nat) { c < |b| && b[c] == ',' && Depth(b, 0, c) == 0 }

  function NextComma(b: string, i: nat): (c: nat)
    requires i <= |b|
    ensures i <= c <= |b| && (c < |b| ==> TopComma(b, c))
    ensures forall k :: i <= k < c ==> !TopComma(b, k)
    decreases |b| - i
  {
    if i == |b| || TopComma(b, i) then i else NextComma(b, i + 1)
  }

  /** What lies between top-level commas from `p` on; a blank last part is left out. */
  function Parts(b: string, p: nat): (parts: seq<Slice>)
    requires p <= |b|
    ensures forall k :: 0 <= k < |parts| ==> p <= parts[k].from <= parts[k].to <= |b|
    decreases |b| - p
  {
    var c := NextComma(b, p);
    if c < |b| then [Slice(p, c)] + Parts(b, c + 1)
    else if Ink(b, p) < |b| then [Slice(p, c)]
    else []
  }

  /** A stretch of a body between top-level commas. */
  ghost predicate Part(b: string, x: Slice) {
    && x.from <= x.to <= |b| && (x.from == 0 || TopComma(b, x.from - 1))
    && (if x.to < |b| then TopComma(b, x.to) else Ink(b, x.from) < |b|)
    && forall k :: x.from <= k < x.to ==> !TopComma(b, k)
  }

  lemma PartsUnfold(b: string, p: nat, x: Slice)
    requires p <= |b|
    ensures var c := NextComma(b, p);
            x in Parts(b, p)
            <==> || (x == Slice(p, c) && (c == |b| ==> Ink(b, p) < |b|))
                 || (c < |b| && x in Parts(b, c + 1))
  {
    hide NextComma, Ink;
  }

  lemma FirstPart(b: string, p: nat, x: Slice)
    requires p <= |b| && (p == 0 || TopComma(b, p - 1)) && p <= x.from
    ensures var c := NextComma(b, p);
            && (x.from <= c && Part(b, x) ==> x.from == p && x.to == c)
            && (x == Slice(p, c) ==> (Part(b, x) <==> (c == |b| ==> Ink(b, p) < |b|)))
  {
    hide Ink;
    assert Part(b, x) && x.from > 0 ==> TopComma(b, x.from - 1);
  }

  lemma {:induction false} PartsFrom(b: string, p: nat, x: Slice)
    requires p <= |b| && (p == 0 || TopComma(b, p - 1))
    ensures x in Parts(b, p) <==> p <= x.from && Part(b, x)
    decreases |b| - p
  {
    var c := NextComma(b, p);
    assert Part(b, x) ==> x.from <= |b|;
    hide *;
    PartsUnfold(b, p, x);
    if p <= x.from {
      FirstPart(b, p, x);
    }
    if c < |b| {
      PartsFrom(b, c + 1, x);
    }
  }

  /** The parts are exactly the stretches between commas outside all parentheses. */
  lemma PartsAreTopLevel(b: string)
    ensures forall x :: x in Parts(b, 0) <==> Part(b, x)
  {
    forall x ensures x in Parts(b, 0) <==> Part(b, x) {
      PartsFrom(b, 0, x);
    }
  }

  /** `parts` are the texts of `xs`. */
  ghost predicate Texts(b: string, parts: seq<string>, xs: seq<Slice>) {
    && |parts| == |xs|
    && forall k :: 0 <= k < |xs| ==>
         xs[k].from <= xs[k].to <= |b| && parts[k] == b[xs[k].from..xs[k].to]
  }

  lemma TextsAppend(b: string, parts: seq<string>, xs: seq<Slice>, x: Slice)
    requires Texts(b, parts, xs) && x.from <= x.to <= |b|
    ensures Texts(b, parts + [b[x.from..x.to]], xs + [x])
  {
  }

  lemma LastPart(b: string, p: nat, done: seq<Slice>)
    requires p <= |b| && NextComma(b, p) == |b|
    ensures done + Parts(b, p) == if AllSpace(b[p..|b|]) then done else done + [Slice(p, |b|)]
  {
    BlankSlice(b, p, |b|);
  }

  lemma NextPart(b: string, p: nat, done: seq<Slice>)
    requires p <= |b| && NextComma(b, p) < |b|
    ensures var c := NextComma(b, p);
            done + Parts(b, p) == done + [Slice(p, c)] + Parts(b, c + 1)
  {
  }

  lemma OneCharacter(b: string, j: nat)
    requires j < |b|
    ensures Depth(b, 0, j + 1) == Depth(b, 0, j) + (if b[j] == '(' then 1 else if b[j] == ')' then -1 else 0)
    ensures TopComma(b, j) <==> b[j] == ',' && Depth(b, 0, j) == 0
    ensures NextComma(b, j) == if TopComma(b, j) then j else NextComma(b, j + 1)
  {
  }

  lemma NoText(b: string)
    ensures Texts(b, [], []) && Depth(b, 0, 0) == 0
  {
  }

  method SplitTop(body: string) returns (parts: seq<string>)
    ensures Texts(body, parts, Parts(body, 0))
  {
    hide *;
    parts := [];
    var depth, cur := 0, "";
    ghost var p, done: seq<Slice> := 0, [];
    NoText(body);
    for j := 0 to |body|
      invariant depth == Depth(body, 0, j) && p <= j && cur == body[p..j] && Texts(body, parts, done)
      invariant done + Parts(body, p) == Parts(body, 0) && NextComma(body, p) == NextComma(body, j)
    {
      OneCharacter(body, j);
      if body[j] == '(' {
        depth := depth + 1;
      } else if body[j] == ')' {
        depth := depth - 1;
      }
      if body[j] == ',' && depth == 0 {
        TextsAppend(body, parts, done, Slice(p, j));
        NextPart(body, p, done);
        parts, cur := parts + [cur], "";
        done, p := done + [Slice(p, j)], j + 1;
      } else {
        cur := cur + [body[j]];
      }
    }
    LastPart(body, p, done);
    if !AllSpace(cur) {
      TextsAppend(body, parts, done, Slice(p, |body|));
      parts := parts + [cur];
    }
  }

  // ----- column definitions -----

  function WordRun(s: string, i: nat): (w: nat)
    requires i <= |s|
    ensures i <= w <= |s| && forall k :: i <= k < w ==> IsWordChar(s[k])
    ensures w < |s| ==> !IsWordChar(s[w])
    decreases |s| - i
  {
    if i < |s| && IsWordChar(s[i]) then WordRun(s, i + 1) else i
  }

  const CONSTRAINT_KW: set<string> :=
    {"constraint", "check", "primary", "foreign", "unique", "exclude", "like"}

  /** The column name a part of the table body begins with: its first word, unless that is the
      keyword of a table constraint or no type follows. */
  function NameIn(part: string): (name: Option<Slice>)
    ensures name.Some? ==>
              var n := name.value;
              n.from < n.to < |part| && forall k :: n.from <= k < n.to ==> IsWordChar(part[k])
  {
    var a := Ink(part, 0);
    var w := WordRun(part, a);
    if a == w || Lower(part[a..w]) in CONSTRAINT_KW then None
    else if w + 1 < |part| && IsSpace(part[w]) then Some(Slice(a, w))
    else None
  }

  /** The line of a position in a statement that begins on line `start`. */
  function LineIn(stmt: string, start: nat, offset: nat): nat
    requires offset <= |stmt|
  {
    start + Newlines(stmt[..offset])
  }

  /** The name is the first word of the part, stands before white space and a type, and is no
      keyword of a table constraint. */
  lemma NameInExactly(part: string, n: Slice)
    ensures NameIn(part) == Some(n)
            <==> && n.from < n.to && n.to + 1 < |part| && IsSpace(part[n.to])
                 && (forall k :: 0 <= k < n.from ==> IsSpace(part[k]))
                 && (forall k :: n.from <= k < n.to ==> IsWordChar(part[k]))
                 && Lower(part[n.from..n.to])
                    !in {"constraint", "check", "primary", "foreign", "unique", "exclude", "like"}
  {
    hide Lower;
    if n.from < n.to < |part| && IsWordChar(part[n.from]) && IsSpace(part[n.to]) {
      InkIs(part, 0, n.from);
      WordRunIs(part, n.from, n.to);
    }
  }

  lemma {:induction false} InkIs(s: string, i: nat, w: nat)
    requires i <= w < |s| && IsWordChar(s[w])
    ensures Ink(s, i) == w <==> forall k :: i <= k < w ==> IsSpace(s[k])
    decreases w - i
  {
    if i < w && IsSpace(s[i]) {
      InkIs(s, i + 1, w);
    }
  }

  lemma {:induction false} WordRunIs(s: string, i: nat, w: nat)
    requires i <= w < |s| && !IsWordChar(s[w])
    ensures WordRun(s, i) == w <==> forall k :: i <= k < w ==> IsWordChar(s[k])
    decreases w - i
  {
    if i < w && IsWordChar(s[i]) {
      WordRunIs(s, i + 1, w);
    }
  }

  /** A reported column: its name and the line of the file it is reported on. */
  datatype Column = Column(column: string, line: nat)

  /** The column that the part `text[a..e]` of a statement beginning on line `line` defines. */
  function ColumnAt(text: string, line: nat, a: nat, e: nat): (c: Option<Column>)
    requires a <= e <= |text|
  {
    var n := NameIn(text[a..e]);
    if n.None? then None
    else Some(Column(Lower(text[a + n.value.from..a + n.value.to]),
                     LineIn(text, line, a + n.value.from)))
  }

  /** The parts lie in the text when their offsets count from `off`. */
  ghost predicate Inside(text: string, off: nat, parts: seq<Slice>) {
    forall k :: 0 <= k < |parts| ==> off + parts[k].from <= off + parts[k].to <= |text|
  }

  /** The columns of the parts from the `k`-th on. */
  function ColumnsOf(text: string, line: nat, off: nat, parts: seq<Slice>, k: nat): (cs: seq<Column>)
    requires k <= |parts| && Inside(text, off, parts)
    decreases |parts| - k
  {
    if k == |parts| then []
    else
      AsSeq(ColumnAt(text, line, off + parts[k].from, off + parts[k].to))
      + ColumnsOf(text, line, off, parts, k + 1)
  }

  function AsSeq(c: Option<Column>): seq<Column> { if c.Some? then [c.value] else [] }

  /** What the statement's first parentheses enclose, as a range of its text. */
  function BodyOf(text: string): (body: Slice)
    ensures body.from <= body.to <= |text|
  {
    var open := FirstChar(text, 0, '(');
    if open == |text| then Slice(0, 0) else Slice(open + 1, BodyEnd(text, open))
  }

  /** The columns of a CREATE TABLE statement that begins on line `line`. */
  function TableColumns(text: string, line: nat): (cs: seq<Column>)
  {
    var body := BodyOf(text);
    ColumnsOf(text, line, body.from, Parts(text[body.from..body.to], 0), 0)
  }

  /** The parts lie one after the other with a comma between them. */
  lemma {:induction false} PartsAreConsecutive(b: string, p: nat, k: nat)
    requires p <= |b| && k < |Parts(b, p)|
    ensures Parts(b, p)[k].from == if k == 0 then p else Parts(b, p)[k - 1].to + 1
    decreases k
  {
    if k > 0 {
      PartsAreConsecutive(b, NextComma(b, p) + 1, k - 1);
    }
  }

  /** The body of the loop: the column that one part of the table body defines. */
  method ColumnOf(stmt: string, sline: nat, part: string, partOff: nat) returns (c: Option<Column>)
    requires partOff + |part| <= |stmt| && part == stmt[partOff..partOff + |part|]
    ensures c == ColumnAt(stmt, sline, partOff, partOff + |part|)
  {
    hide LineIn;
    var name := NameIn(part);
    if name.None? {
      return None;
    }
    var n := name.value;
    SlicesNest(stmt, partOff, partOff + |part|, n.from, n.to);
    c := Some(Column(Lower(part[n.from..n.to]), LineIn(stmt, sline, partOff + n.from)));
  }

  /** The columns of a statement that has a CREATE TABLE; other statements are left alone. */
  method Columns(stmt: string, sline: nat) returns (cols: seq<Column>)
    ensures cols == if CreateEnd(stmt).Some? then TableColumns(stmt, sline) else []
  {
    cols := [];
    if CreateEnd(stmt).Some? {
      cols := ColumnsInBody(stmt, sline);
    }
  }

  method ColumnsInBody(stmt: string, sline: nat) returns (cols: seq<Column>)
    ensures cols == TableColumns(stmt, sline)
  {
    hide *;
    var body, bodyOff := TableBodyOff(stmt);
    var parts := SplitTop(body);
    ghost var xs := Parts(body, 0);
    BodyIsRead(stmt, sline, body, bodyOff, parts);
    cols := [];
    var off := bodyOff;
    for k := 0 to |parts|
      invariant k == 0 ==> off == bodyOff
      invariant k > 0 ==> off == bodyOff + xs[k - 1].to + 1
      invariant cols + ColumnsOf(stmt, sline, bodyOff, xs, k) == TableColumns(stmt, sline)
    {
      PartsAreConsecutive(body, 0, k);
      var part, partOff := parts[k], off;
      PartIsRead(stmt, body, bodyOff, parts, k);
      off := off + |part| + 1;
      var c := ColumnOf(stmt, sline, part, partOff);
      OneColumn(stmt, sline, bodyOff, xs, k, cols);
      cols := cols + AsSeq(c);
    }
    NoColumnLeft(stmt, sline, bodyOff, xs, cols);
  }

  lemma BodyIsRead(stmt: string, sline: nat, body: string, off: nat, parts: seq<string>)
    requires var open := FirstChar(stmt, 0, '(');
             if open == |stmt| then body == "" && off == 0
             else off == open + 1 && body == stmt[off..BodyEnd(stmt, open)]
    requires Texts(body, parts, Parts(body, 0))
    ensures |parts| == |Parts(body, 0)| && off + |body| <= |stmt| && body == stmt[off..off + |body|]
    ensures Inside(stmt, off, Parts(body, 0))
    ensures TableColumns(stmt, sline) == ColumnsOf(stmt, sline, off, Parts(body, 0), 0)
  {
    hide ColumnsOf, Parts;
  }

  lemma TextAt(b: string, parts: seq<string>, xs: seq<Slice>, k: nat)
    requires Texts(b, parts, xs) && k < |parts|
    ensures k < |xs| && xs[k].from <= xs[k].to <= |b| && parts[k] == b[xs[k].from..xs[k].to]
  {
  }

  lemma PartIsRead(stmt: string, body: string, off: nat, parts: seq<string>, k: nat)
    requires Texts(body, parts, Parts(body, 0)) && k < |parts|
    requires off + |body| <= |stmt| && body == stmt[off..off + |body|]
    ensures var x := Parts(body, 0)[k];
            |parts[k]| == x.to - x.from && parts[k] == stmt[off + x.from..off + x.to]
  {
    hide *;
    TextAt(body, parts, Parts(body, 0), k);
    var x := Parts(body, 0)[k];
    SlicesNest(stmt, off, off + |body|, x.from, x.to);
  }

  lemma OneColumn(text: string, line: nat, off: nat, xs: seq<Slice>, k: nat, cols: seq<Column>)
    requires k < |xs| && Inside(text, off, xs)
    ensures off + xs[k].from <= off + xs[k].to <= |text|
    ensures var c := ColumnAt(text, line, off + xs[k].from, off + xs[k].to);
            cols + ColumnsOf(text, line, off, xs, k) == cols + AsSeq(c) + ColumnsOf(text, line, off, xs, k + 1)
  {
    hide ColumnAt;
  }

  lemma NoColumnLeft(text: string, line: nat, off: nat, xs: seq<Slice>, cols: seq<Column>)
    requires Inside(text, off, xs)
    ensures cols + ColumnsOf(text, line, off, xs, |xs|) == cols
  {
  }

  lemma SlicesNest(s: string, a: nat, b: nat, i: nat, j: nat)
    requires a <= b <= |s| && i <= j <= b - a
    ensures s[a..b][i..j] == s[a + i..a + j]
  {
    var x, y := s[a..b][i..j], s[a + i..a + j];
    forall k | 0 <= k < |y| ensures x[k] == y[k] {
      assert x[k] == s[a..b][i + k];
    }
  }

  // ----- end to end -----

  /** A comma that separates the definitions in the parentheses that open at `open`. */
  predicate Separator(text: string, open: nat, k: nat) {
    open <= k < |text| && text[k] == ',' && Depth(text, open, k) == 1
  }

  /** What stands in `a..e` is one definition in the first parentheses of the statement: it begins
      after the opening parenthesis or a separating comma, and ends before the next one or where the
      parenthesis closes. */
  ghost predicate Definition(text: string, a: nat, e: nat) {
    var open := FirstChar(text, 0, '(');
    && open < |text| && open < a <= e <= BodyEnd(text, open)
    && (a == open + 1 || Separator(text, open, a - 1))
    && (e == BodyEnd(text, open) || Separator(text, open, e))
    && forall k :: a <= k < e ==> !Separator(text, open, k)
  }

  lemma CommaSeparates(text: string, open: nat, end: nat, k: nat)
    requires open < end <= |text| && text[open] == '(' && k < end - (open + 1)
    ensures TopComma(text[open + 1..end], k) <==> Separator(text, open, open + 1 + k)
  {
    DepthSlice(text, open + 1, end, 0, k);
    DepthFrom(text, open, open + 1 + k);
  }

  lemma PartIsDefinition(text: string, x: Slice)
    requires FirstChar(text, 0, '(') < |text|
    ensures var open := FirstChar(text, 0, '(');
            var body := text[open + 1..BodyEnd(text, open)];
            Part(body, x) <==> && x.from <= x.to && Definition(text, open + 1 + x.from, open + 1 + x.to)
                               && (x.to == |body| ==> Ink(body, x.from) < |body|)
  {
    var open := FirstChar(text, 0, '(');
    var end := BodyEnd(text, open);
    var body := text[open + 1..end];
    hide TopComma, Separator, BodyEnd, FirstChar, Ink;
    forall k: nat | k < |body| ensures TopComma(body, k) <==> Separator(text, open, open + 1 + k) {
      CommaSeparates(text, open, end, k);
    }
    forall k: nat | open < k < end ensures Separator(text, open, k) <==> TopComma(body, k - (open + 1)) {
      CommaSeparates(text, open, end, k - (open + 1));
    }
  }

  lemma InConcat(c: Column, a: seq<Column>, b: seq<Column>)
    ensures c in a + b <==> c in a || c in b
  {
  }

  lemma InAsSeq(c: Column, o: Option<Column>)
    ensures c in AsSeq(o) <==> o == Some(c)
  {
  }

  lemma ColumnsUnfold(text: string, line: nat, off: nat, xs: seq<Slice>, k: nat)
    requires k < |xs| && Inside(text, off, xs)
    ensures off + xs[k].from <= off + xs[k].to <= |text|
    ensures ColumnsOf(text, line, off, xs, k)
            == AsSeq(ColumnAt(text, line, off + xs[k].from, off + xs[k].to)) + ColumnsOf(text, line, off, xs, k + 1)
  {
    hide ColumnAt, AsSeq;
  }

  lemma OneMember(text: string, line: nat, off: nat, xs: seq<Slice>, k: nat, c: Column)
    requires k < |xs| && Inside(text, off, xs)
    ensures c in ColumnsOf(text, line, off, xs, k)
            <==> Yields(text, line, off, xs[k], c) || c in ColumnsOf(text, line, off, xs, k + 1)
  {
    hide *;
    ColumnsUnfold(text, line, off, xs, k);
    YieldsReads(text, line, off, xs[k], c);
    var here := AsSeq(ColumnAt(text, line, off + xs[k].from, off + xs[k].to));
    InConcat(c, here, ColumnsOf(text, line, off, xs, k + 1));
    InAsSeq(c, ColumnAt(text, line, off + xs[k].from, off + xs[k].to));
  }

  lemma NoMember(text: string, line: nat, off: nat, xs: seq<Slice>)
    requires Inside(text, off, xs)
    ensures ColumnsOf(text, line, off, xs, |xs|) == []
  {
  }

  lemma {:induction false} ColumnsOfMembers(text: string, line: nat, off: nat, xs: seq<Slice>, k: nat, c: Column)
    requires k <= |xs| && Inside(text, off, xs)
    ensures c in ColumnsOf(text, line, off, xs, k)
            <==> exists j :: k <= j < |xs| && Yields(text, line, off, xs[j], c)
    decreases |xs| - k
  {
    hide *;
    if k < |xs| {
      OneMember(text, line, off, xs, k, c);
      ColumnsOfMembers(text, line, off, xs, k + 1, c);
    } else {
      NoMember(text, line, off, xs);
    }
  }

  lemma YieldsReads(text: string, line: nat, off: nat, x: Slice, c: Column)
    ensures Yields(text, line, off, x, c)
            <==> off + x.from <= off + x.to <= |text| && ColumnAt(text, line, off + x.from, off + x.to) == Some(c)
  {
    hide ColumnAt;
  }

  /** The part `x` of the text from `off` on defines the column. */
  ghost predicate Yields(text: string, line: nat, off: nat, x: Slice, c: Column) {
    off + x.from <= off + x.to <= |text| && ColumnAt(text, line, off + x.from, off + x.to) == Some(c)
  }

  ghost predicate Defines(text: string, line: nat, a: nat, e: nat, c: Column) {
    Definition(text, a, e) && e <= |text| && ColumnAt(text, line, a, e) == Some(c)
  }

  lemma NamedIsNotBlank(b: string, i: nat, j: nat)
    requires i <= j <= |b|
    ensures NameIn(b[i..j]).Some? ==> Ink(b, i) < j
  {
    var part := b[i..j];
    hide Ink, WordRun, Lower;
    BlankSlice(b, i, j);
    BlankSlice(part, 0, j - i);
    assert part[0..j - i] == part;
  }

  lemma DefinitionInParts(text: string, line: nat, a: nat, e: nat, c: Column)
    requires Defines(text, line, a, e, c)
    ensures var body := BodyOf(text);
            && body.from <= a <= e
            && Slice(a - body.from, e - body.from) in Parts(text[body.from..body.to], 0)
  {
    hide *;
    DefinitionLies(text, line, a, e, c);
    var o := BodyOf(text).from;
    var body := text[o..BodyOf(text).to];
    var x := Slice(a - o, e - o);
    SlicesNest(text, o, o + |body|, x.from, x.to);
    NamedIsNotBlank(body, x.from, x.to);
    PartIsDefinition(text, x);
    PartsAreTopLevel(body);
  }

  lemma DefinitionLies(text: string, line: nat, a: nat, e: nat, c: Column)
    requires Defines(text, line, a, e, c)
    ensures e <= |text| && NameIn(text[a..e]).Some? && Definition(text, a, e)
    ensures var open := FirstChar(text, 0, '(');
            open < |text| && BodyOf(text) == Slice(open + 1, BodyEnd(text, open))
    ensures BodyOf(text).from <= a <= e <= BodyOf(text).to
  {
    hide Separator, NameIn;
  }

  lemma PartsAreDefinitions(text: string, x: Slice)
    requires x in Parts(text[BodyOf(text).from..BodyOf(text).to], 0)
    ensures x.from <= x.to && BodyOf(text).from + x.to <= |text|
    ensures Definition(text, BodyOf(text).from + x.from, BodyOf(text).from + x.to)
  {
    hide Part, Definition, Parts, BodyEnd;
    if FirstChar(text, 0, '(') < |text| {
      PartsAreTopLevel(text[BodyOf(text).from..BodyOf(text).to]);
      PartIsDefinition(text, x);
    } else {
      NoParts();
    }
  }

  lemma NoParts()
    ensures Parts("", 0) == []
  {
  }

  /** The columns found are exactly the first words of the definitions in the statement's first
      parentheses that are not table constraints. */
  lemma ColumnsAreDefinitions(text: string, line: nat, c: Column)
    ensures c in TableColumns(text, line) <==> exists a: nat, e: nat :: Defines(text, line, a, e, c)
  {
    hide *;
    var body := BodyOf(text);
    var xs := Parts(text[body.from..body.to], 0);
    ColumnsInParts(text, line);
    ColumnsOfMembers(text, line, body.from, xs, 0, c);
    if c in TableColumns(text, line) {
      var j :| 0 <= j < |xs| && Yields(text, line, body.from, xs[j], c);
      var x := xs[j];
      YieldsReads(text, line, body.from, x, c);
      PartsAreDefinitions(text, x);
      ItDefines(text, line, body.from + x.from, body.from + x.to, c);
    }
    if a: nat, e: nat :| Defines(text, line, a, e, c) {
      DefinitionInParts(text, line, a, e, c);
      DefinitionLies(text, line, a, e, c);
      ItDefines(text, line, a, e, c);
      var x := Slice(a - body.from, e - body.from);
      YieldsReads(text, line, body.from, x, c);
      var j :| 0 <= j < |xs| && xs[j] == x;
    }
  }

  lemma ColumnsInParts(text: string, line: nat)
    ensures var body := BodyOf(text);
            var xs := Parts(text[body.from..body.to], 0);
            Inside(text, body.from, xs) && TableColumns(text, line) == ColumnsOf(text, line, body.from, xs, 0)
  {
    hide Parts, BodyOf, ColumnsOf;
  }

  lemma ItDefines(text: string, line: nat, a: nat, e: nat, c: Column)
    requires a <= e <= |text| && Definition(text, a, e)
    ensures Defines(text, line, a, e, c) <==> ColumnAt(text, line, a, e) == Some(c)
  {
    hide Definition, ColumnAt;
  }

  /** The column whose name stands at `p..e` of the raw file, reported on the line of `p`. */
  function RawColumn(sql: string, p: nat, e: nat): Column
    requires p <= e <= |sql|
  {
    Column(Lower(sql[p..e]), LineOf(sql, p))
  }

  lemma LineInStatement(t: string, x: Slice, q: nat)
    requires x.from <= x.to <= |t| && q <= x.to - x.from
    ensures LineIn(StatementAt(t, x).text, LineOf(t, x.from), q) == LineOf(t, x.from + q)
  {
    var text := StatementAt(t, x).text;
    assert text[..q] == t[x.from..x.from + q];
    assert t[..x.from + q] == t[..x.from] + t[x.from..x.from + q];
    NewlinesConcat(t[..x.from], t[x.from..x.from + q]);
  }

  lemma LineInRaw(sql: string, p: nat)
    requires p <= |sql|
    ensures LineOf(Strip(sql), p) == LineOf(sql, p)
  {
    StripLayout(sql);
    SameLayoutSameNewlines(Strip(sql)[..p], sql[..p]);
  }

  /** Where a name stands in a statement, the same name stands in the raw file. */
  lemma NameIsRaw(sql: string, x: Slice, q: nat, e: nat)
    requires x.from <= x.to <= |sql| && q < e <= |StatementAt(Strip(sql), x).text|
    requires forall k :: q <= k < e ==> IsWordChar(StatementAt(Strip(sql), x).text[k])
    ensures x.from + e <= x.to
    ensures sql[x.from + q..x.from + e] == StatementAt(Strip(sql), x).text[q..e]
  {
    var t := Strip(sql);
    var text := StatementAt(t, x).text;
    StripLayout(sql);
    assert IsWordChar(text[e - 1]);
    forall k | q <= k < e ensures text[k] == sql[x.from + k] {
      assert IsWordChar(text[k]) && text[k] == t[x.from + k];
    }
  }

  /** The definition in `a..e` of the statement `x` names the column that stands in the raw file. */
  ghost predicate DefinesRaw(sql: string, x: Slice, a: nat, e: nat, c: Column)
    requires x.from <= x.to <= |sql|
  {
    var text := StatementAt(Strip(sql), x).text;
    && Definition(text, a, e) && a <= e <= |text| && NameIn(text[a..e]).Some?
    && var n := NameIn(text[a..e]).value;
       && x.from + a + n.to <= x.to
       && c == RawColumn(sql, x.from + a + n.from, x.from + a + n.to)
  }

  lemma ColumnIsRaw(sql: string, x: Slice, a: nat, e: nat)
    requires x.from <= x.to <= |sql| && a <= e <= |StatementAt(Strip(sql), x).text|
    ensures var s := StatementAt(Strip(sql), x);
            var name := NameIn(s.text[a..e]);
            if name.None? then ColumnAt(s.text, s.line, a, e) == None
            else var p := x.from + a + name.value.from;
                 var q := x.from + a + name.value.to;
                 p <= q <= x.to && ColumnAt(s.text, s.line, a, e) == Some(RawColumn(sql, p, q))
  {
    hide *;
    var t := Strip(sql);
    var s := StatementAt(t, x);
    ColumnAtIs(s.text, s.line, a, e);
    if NameIn(s.text[a..e]).Some? {
      var n := NameIn(s.text[a..e]).value;
      NameIsWord(s.text, a, e, n);
      NameIsRaw(sql, x, a + n.from, a + n.to);
      LineInStatement(t, x, a + n.from);
      LineInRaw(sql, x.from + a + n.from);
      LineGiven(t, x);
      SameColumn(s.text, s.line, a + n.from, a + n.to, sql, x.from + a + n.from, x.from + a + n.to);
    }
  }

  lemma ColumnAtIs(text: string, line: nat, a: nat, e: nat)
    requires a <= e <= |text|
    ensures var name := NameIn(text[a..e]);
            ColumnAt(text, line, a, e)
            == if name.None? then None
               else var (q, r) := (a + name.value.from, a + name.value.to);
                    Some(Column(Lower(text[q..r]), LineIn(text, line, q)))
  {
    hide NameIn, LineIn, Lower;
  }

  lemma SameColumn(text: string, line: nat, q: nat, r: nat, sql: string, p: nat, e: nat)
    requires q <= r <= |text| && p <= e <= |sql|
    requires text[q..r] == sql[p..e] && LineIn(text, line, q) == LineOf(sql, p)
    ensures Column(Lower(text[q..r]), LineIn(text, line, q)) == RawColumn(sql, p, e)
  {
  }

  lemma LineGiven(t: string, x: Slice)
    requires x.from <= x.to <= |t|
    ensures StatementAt(t, x).line == LineOf(t, x.from)
  {
  }

  lemma DefinitionIsRange(text: string, a: nat, e: nat)
    requires Definition(text, a, e)
    ensures a <= e <= |text|
  {
  }

  lemma DefinesRawExactly(sql: string, x: Slice, a: nat, e: nat, c: Column)
    requires x.from <= x.to <= |sql|
    ensures DefinesRaw(sql, x, a, e, c)
            <==> var s := StatementAt(Strip(sql), x); Defines(s.text, s.line, a, e, c)
  {
    hide Definition, NameIn, ColumnAt, RawColumn, Strip, StatementAt;
    if Definition(StatementAt(Strip(sql), x).text, a, e) {
      DefinitionIsRange(StatementAt(Strip(sql), x).text, a, e);
      ColumnIsRaw(sql, x, a, e);
    }
  }

  lemma NameIsWord(text: string, a: nat, e: nat, n: Slice)
    requires a <= e <= |text| && NameIn(text[a..e]) == Some(n)
    ensures n.from < n.to && a + n.to <= |text|
    ensures forall k :: a + n.from <= k < a + n.to ==> IsWordChar(text[k])
  {
    var part := text[a..e];
    forall k | a + n.from <= k < a + n.to ensures IsWordChar(text[k]) {
      assert IsWordChar(part[k - a]);
    }
  }

  /** End to end: the columns reported for a CREATE TABLE statement of a raw file are exactly
      those its definitions name, each under the name that stands in the raw file and on the
      line of the raw file where that name stands. */
  lemma ReportedWhereTheyStand(sql: string, x: Slice, c: Column)
    requires x in Split(Strip(sql), 0)
    ensures x.from <= x.to <= |sql|
    ensures var s := StatementAt(Strip(sql), x);
            c in TableColumns(s.text, s.line) <==> exists a: nat, e: nat :: DefinesRaw(sql, x, a, e, c)
  {
    hide *;
    WholeInText(Strip(sql), x);
    var s := StatementAt(Strip(sql), x);
    ColumnsAreDefinitions(s.text, s.line, c);
    forall a: nat, e: nat
      ensures DefinesRaw(sql, x, a, e, c) <==> Defines(s.text, s.line, a, e, c)
    {
      DefinesRawExactly(sql, x, a, e, c);
    }
  }

  lemma WholeInText(t: string, x: Slice)
    requires x in Split(t, 0)
    ensures x.from <= x.to <= |t|
  {
    hide Split;
    assert x in Whole(t);
  }

  // ----- the table's own parentheses -----

  /** What the first parentheses after `at` enclose. */
  function OwnBody(text: string, at: nat): (body: Slice)
    requires at <= |text|
    ensures body.from <= body.to <= |text|
  {
    var open := FirstChar(text, at, '(');
    if open == |text| then Slice(0, 0) else Slice(open + 1, BodyEnd(text, open))
  }

  /** The columns are looked for in the table's own parentheses exactly when none opens before the
      CREATE TABLE and its name end. */
  lemma BodyIsTheTables(text: string, at: nat)
    requires CreateEnd(text) == Some(at)
    ensures BodyOf(text) == OwnBody(text, at) <==> forall k :: 0 <= k < at ==> text[k] != '('
  {
    hide CreateEnd, BodyEnd;
    var first, own := FirstChar(text, 0, '('), FirstChar(text, at, '(');
    if first >= at {
      assert first == own;
    } else {
      assert text[first] == '(';
    }
  }
}
