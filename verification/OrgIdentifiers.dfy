// Identifiers that start with the legacy scope term, matched over masked text.
module OrgIdentifiers {
  import opened Common
  import opened Lines
  import opened OrgMask

  /** The four anchored case shapes: a fixed head, then a tail of one character class, either in
      one run or in underscore-separated runs. */
  datatype Shape = SnakeCase | LowerCamelCase | UpperCamelCase | ScreamingSnakeCase

  function HeadLength(shape: Shape): nat {
    if shape.SnakeCase? || shape.ScreamingSnakeCase? then 7 else 6
  }

  /** The characters of `tenant_`, `tenant`, `Tenant` and `TENANT_`. */
  function HeadChar(shape: Shape, k: nat): char
    requires k < HeadLength(shape)
  {
    var upper := shape.ScreamingSnakeCase?;
    match k
    case 0 => if upper || shape.UpperCamelCase? then 'T' else 't'
    case 1 => if upper then 'E' else 'e'
    case 2 => if upper then 'N' else 'n'
    case 3 => if upper then 'A' else 'a'
    case 4 => if upper then 'N' else 'n'
    case 5 => if upper then 'T' else 't'
    case _ => '_'
  }

  predicate InTail(shape: Shape, c: char) {
    match shape
    case SnakeCase => 'a' <= c <= 'z' || '0' <= c <= '9'
    case ScreamingSnakeCase => 'A' <= c <= 'Z' || '0' <= c <= '9'
    case _ => 'a' <= c <= 'z' || 'A' <= c <= 'Z' || '0' <= c <= '9'
  }

  /** The character that must follow the head. */
  predicate OpensTail(shape: Shape, c: char) {
    if shape.LowerCamelCase? || shape.UpperCamelCase? then 'A' <= c <= 'Z' else InTail(shape, c)
  }

  /** The end of the greedy tail from `i` on. */
  function TailEnd(s: string, i: nat, shape: Shape): (e: nat)
    requires i <= |s|
    ensures i <= e <= |s|
    decreases |s| - i
  {
    if i < |s| && InTail(shape, s[i]) then TailEnd(s, i + 1, shape)
    else if (shape.SnakeCase? || shape.ScreamingSnakeCase?)
            && i + 1 < |s| && s[i] == '_' && InTail(shape, s[i + 1])
    then TailEnd(s, i + 2, shape)
    else i
  }

  predicate Anchored(s: string, a: nat)
    requires a <= |s|
  {
    a == 0 || !IsWordChar(s[a - 1])
  }

  predicate HeadAt(s: string, a: nat, shape: Shape) {
    a + HeadLength(shape) <= |s| && forall j :: a <= j < a + HeadLength(shape) ==> s[j] == HeadChar(shape, j - a)
  }

  /** The end of the match of a shape at position `a`, if there is one. */
  function MatchAt(s: string, a: nat, shape: Shape): Option<nat>
    requires a <= |s|
  {
    var t := a + HeadLength(shape);
    if Anchored(s, a) && HeadAt(s, a, shape) && t < |s| && OpensTail(shape, s[t])
    then Some(TailEnd(s, t + 1, shape))
    else None
  }

  // The shapes as texts.

  /** `s[t..e]` is runs of digits and of letters from `low` to `high`, with single underscores between
      them. */
  ghost predicate Runs(s: string, t: nat, e: nat, low: char, high: char) {
    && t < e <= |s| && (low <= s[t] <= high || '0' <= s[t] <= '9')
    && forall k :: t < k < e ==> RunsCharOk(s, k, e, low, high)
  }

  predicate RunsCharOk(s: string, k: nat, e: nat, low: char, high: char)
    requires k < e <= |s|
  {
    || low <= s[k] <= high || '0' <= s[k] <= '9'
    || (s[k] == '_' && k + 1 < e && (low <= s[k + 1] <= high || '0' <= s[k + 1] <= '9'))
  }

  /** `s[t..e]` is an upper-case letter, then letters and digits. */
  ghost predicate Hump(s: string, t: nat, e: nat) {
    && t < e <= |s| && 'A' <= s[t] <= 'Z'
    && forall k :: t < k < e ==> 'a' <= s[k] <= 'z' || 'A' <= s[k] <= 'Z' || '0' <= s[k] <= '9'
  }

  /** `s[a..e]` has the shape. */
  ghost predicate Shaped(s: string, a: nat, e: nat, shape: Shape) {
    match shape
    case SnakeCase => Occurs(s, a, "tenant_") && Runs(s, a + 7, e, 'a', 'z')
    case LowerCamelCase => Occurs(s, a, "tenant") && Hump(s, a + 6, e)
    case UpperCamelCase => Occurs(s, a, "Tenant") && Hump(s, a + 6, e)
    case ScreamingSnakeCase => Occurs(s, a, "TENANT_") && Runs(s, a + 7, e, 'A', 'Z')
  }

  predicate TailCharOk(s: string, k: nat, e: nat, shape: Shape)
    requires k < e <= |s|
  {
    || InTail(shape, s[k])
    || ((shape.SnakeCase? || shape.ScreamingSnakeCase?)
        && s[k] == '_' && k + 1 < e && InTail(shape, s[k + 1]))
  }

  ghost predicate TailOf(s: string, i: nat, e: nat, shape: Shape) {
    i <= e <= |s| && forall k :: i <= k < e ==> TailCharOk(s, k, e, shape)
  }

  /** The greedy tail is a tail, and none reaches farther. */
  lemma {:induction false} TailIsLongest(s: string, i: nat, shape: Shape, f: nat)
    requires i <= |s|
    ensures TailOf(s, i, TailEnd(s, i, shape), shape)
    ensures TailOf(s, i, f, shape) ==> f <= TailEnd(s, i, shape)
    decreases |s| - i
  {
    hide InTail;
    var e := TailEnd(s, i, shape);
    if i < |s| && InTail(shape, s[i]) {
      TailIsLongest(s, i + 1, shape, f);
      assert TailCharOk(s, i, e, shape);
    } else if e > i {
      TailIsLongest(s, i + 2, shape, f);
      assert TailCharOk(s, i, e, shape) && TailCharOk(s, i + 1, e, shape);
      assert f == i + 1 ==> !TailCharOk(s, i, f, shape);
    } else {
      assert i < f <= |s| ==> !TailCharOk(s, i, f, shape);
    }
  }

  function HeadText(shape: Shape): string {
    match shape
    case SnakeCase => "tenant_"
    case LowerCamelCase => "tenant"
    case UpperCamelCase => "Tenant"
    case ScreamingSnakeCase => "TENANT_"
  }

  lemma HeadIsText(s: string, a: nat, shape: Shape)
    ensures HeadAt(s, a, shape) <==> Occurs(s, a, HeadText(shape))
  {
    OccursExactly(s, a, HeadText(shape));
    HeadChars(shape);
    hide Occurs, HeadText, HeadChar, HeadLength;
  }

  lemma HeadChars(shape: Shape)
    ensures |HeadText(shape)| == HeadLength(shape)
    ensures forall k :: 0 <= k < HeadLength(shape) ==> HeadText(shape)[k] == HeadChar(shape, k)
  {
  }

  lemma ShapedByTail(s: string, a: nat, e: nat, shape: Shape)
    ensures Shaped(s, a, e, shape)
            <==> && HeadAt(s, a, shape)
                 && var t := a + HeadLength(shape);
                    t < e <= |s| && OpensTail(shape, s[t]) && TailOf(s, t + 1, e, shape)
  {
    HeadIsText(s, a, shape);
    RunsAreTail(s, a + 7, e, shape);
    HumpIsTail(s, a + 6, e, shape);
    hide HeadAt, Runs, Hump, TailOf, OpensTail, Occurs;
  }

  lemma RunsAreTail(s: string, t: nat, e: nat, shape: Shape)
    ensures shape.SnakeCase? || shape.ScreamingSnakeCase? ==>
              (Runs(s, t, e, if shape.SnakeCase? then 'a' else 'A', if shape.SnakeCase? then 'z' else 'Z')
               <==> t < e <= |s| && OpensTail(shape, s[t]) && TailOf(s, t + 1, e, shape))
  {
    var low, high := if shape.SnakeCase? then 'a' else 'A', if shape.SnakeCase? then 'z' else 'Z';
    if e <= |s| && (shape.SnakeCase? || shape.ScreamingSnakeCase?) {
      forall k | t < k < e ensures RunsCharOk(s, k, e, low, high) <==> TailCharOk(s, k, e, shape) {
      }
    }
    hide RunsCharOk, TailCharOk;
  }

  lemma HumpIsTail(s: string, t: nat, e: nat, shape: Shape)
    ensures shape.LowerCamelCase? || shape.UpperCamelCase? ==>
              (Hump(s, t, e) <==> t < e <= |s| && OpensTail(shape, s[t]) && TailOf(s, t + 1, e, shape))
  {
    if e <= |s| && (shape.LowerCamelCase? || shape.UpperCamelCase?) {
      forall k | t < k < e
        ensures 'a' <= s[k] <= 'z' || 'A' <= s[k] <= 'Z' || '0' <= s[k] <= '9' <==> TailCharOk(s, k, e, shape) {
      }
    }
    hide TailCharOk;
  }

  /** A shape matches from a position exactly as far as `e` when it is not inside a word and `e` is the
      farthest place up to which the text has that shape. */
  lemma MatchExactly(s: string, a: nat, e: nat, shape: Shape)
    requires a <= |s|
    ensures MatchAt(s, a, shape) == Some(e)
            <==> && (a > 0 ==> !IsWordChar(s[a - 1])) && Shaped(s, a, e, shape)
                 && forall f :: e < f <= |s| ==> !Shaped(s, a, f, shape)
  {
    hide Shaped, HeadAt, TailOf, OpensTail, TailEnd;
    var t := a + HeadLength(shape);
    forall f: nat
      ensures Shaped(s, a, f, shape)
              <==> HeadAt(s, a, shape) && t < f <= |s| && OpensTail(shape, s[t]) && TailOf(s, t + 1, f, shape)
      ensures t < |s| ==> TailOf(s, t + 1, TailEnd(s, t + 1, shape), shape)
      ensures t < |s| && TailOf(s, t + 1, f, shape) ==> f <= TailEnd(s, t + 1, shape)
    {
      ShapedByTail(s, a, f, shape);
      if t < |s| {
        TailIsLongest(s, t + 1, shape, f);
      }
    }
    if t < |s| && MatchAt(s, a, shape).Some? {
      assert Shaped(s, a, TailEnd(s, t + 1, shape), shape);
    }
  }

  /** The tail of a match reads only characters that both texts share. */
  lemma {:induction false} TailAgrees(m: string, s: string, i: nat, shape: Shape)
    requires WordsAgree(m, s) && 0 < i <= |m| && IsWordChar(m[i - 1])
    ensures TailEnd(m, i, shape) == TailEnd(s, i, shape)
    ensures forall k :: i <= k < TailEnd(m, i, shape) ==> m[k] == s[k] && IsWordChar(m[k])
    decreases |m| - i
  {
    assert AgreeAt(m, s, i - 1);
    if i < |m| {
      assert AgreeAt(m, s, i);
      if InTail(shape, m[i]) {
        TailAgrees(m, s, i + 1, shape);
      } else if m[i] == '_' && i + 1 < |m| {
        assert AgreeAt(m, s, i + 1);
        if InTail(shape, m[i + 1]) {
          TailAgrees(m, s, i + 2, shape);
        }
      }
    }
  }

  lemma {:induction false} HeadAgrees(m: string, s: string, a: nat, shape: Shape, n: nat)
    requires WordsAgree(m, s) && a < |m| && m[a] == s[a] && n <= HeadLength(shape) && a + n <= |m|
    requires forall j :: a <= j < a + n ==> s[j] == HeadChar(shape, j - a)
    ensures forall j :: a <= j < a + n ==> m[j] == s[j] && IsWordChar(m[j])
    decreases n
  {
    if n > 0 {
      var j := a + n - 1;
      HeadAgrees(m, s, a, shape, n - 1);
      assert s[j] == HeadChar(shape, n - 1);
      assert n > 1 ==> AgreeAt(m, s, j - 1);
      assert AgreeAt(m, s, j);
    }
  }

  lemma HeadBoth(m: string, s: string, a: nat, shape: Shape)
    requires WordsAgree(m, s) && a < |m| && m[a] == s[a]
    ensures HeadAt(m, a, shape) <==> HeadAt(s, a, shape)
    ensures HeadAt(m, a, shape) ==>
              forall j :: a <= j < a + HeadLength(shape) ==> m[j] == s[j] && IsWordChar(m[j])
  {
    if HeadAt(m, a, shape) {
      forall j | a <= j < a + HeadLength(shape) ensures s[j] == HeadChar(shape, j - a) {
        assert AgreeAt(m, s, j);
      }
    }
    if HeadAt(s, a, shape) {
      HeadAgrees(m, s, a, shape, HeadLength(shape));
    }
  }

  /** Past a shared word character, both texts open the same tail or none. */
  lemma TailBoth(m: string, s: string, t: nat, shape: Shape)
    requires WordsAgree(m, s) && 0 < t < |m| && IsWordChar(m[t - 1])
    ensures OpensTail(shape, m[t]) <==> OpensTail(shape, s[t])
    ensures OpensTail(shape, m[t]) ==>
              && TailEnd(m, t + 1, shape) == TailEnd(s, t + 1, shape)
              && forall j :: t <= j < TailEnd(m, t + 1, shape) ==> m[j] == s[j]
  {
    assert AgreeAt(m, s, t - 1) && AgreeAt(m, s, t);
    if OpensTail(shape, m[t]) {
      TailAgrees(m, s, t + 1, shape);
    }
  }

  /** Masking neither invents nor moves a match: at a position both texts share, a shape matches
      in one exactly as it does in the other. */
  lemma MatchAgrees(m: string, s: string, a: nat, shape: Shape)
    requires WordsAgree(m, s) && a < |m| && m[a] == s[a]
    ensures MatchAt(m, a, shape) == MatchAt(s, a, shape)
    ensures MatchAt(m, a, shape).Some? ==> m[a..MatchAt(m, a, shape).value] == s[a..MatchAt(m, a, shape).value]
  {
    HeadBoth(m, s, a, shape);
    if HeadAt(m, a, shape) {
      var t := a + HeadLength(shape);
      assert IsWordChar(m[t - 1]) && AgreeAt(m, s, a);
      if t < |m| {
        TailBoth(m, s, t, shape);
      }
    }
  }

  // ----- the scan -----

  datatype Finding = Finding(line: nat, column: nat, shape: Shape, text: string)

  /** A finding stands on a line's text: its shape matches at its column, with its characters.
      Lines and columns count from one. */
  predicate FoundOn(line: string, f: Finding) {
    && 1 <= f.column <= |line|
    && MatchAt(line, f.column - 1, f.shape).Some?
    && f.text == line[f.column - 1..MatchAt(line, f.column - 1, f.shape).value]
  }

  function LineText(text: string, k: nat): string
    requires k < |LinesFrom(text, 0)|
  {
    text[LinesFrom(text, 0)[k].from..LinesFrom(text, 0)[k].to]
  }

  predicate Found(text: string, f: Finding) {
    1 <= f.line <= |LinesFrom(text, 0)| && FoundOn(LineText(text, f.line - 1), f)
  }

  /** The finding begins outside comments and literals. */
  predicate BeginsInCode(text: string, x: Syntax, f: Finding) {
    && 1 <= f.line <= |LinesFrom(text, 0)| && 1 <= f.column
    && var p := LinesFrom(text, 0)[f.line - 1].from + (f.column - 1);
    p < |text| && IsCode(text, x, p)
  }

  /** Two matches of a shape never overlap, so a left-to-right search finds every one. */
  lemma MatchesAreApart(s: string, a: nat, b: nat, shape: Shape)
    requires a <= |s| && MatchAt(s, a, shape).Some? && a < b < MatchAt(s, a, shape).value && b <= |s|
    ensures MatchAt(s, b, shape).None?
  {
    var t := a + HeadLength(shape);
    if b <= t {
      assert IsWordChar(s[b - 1]);
    } else {
      TailIsWord(s, t + 1, shape);
    }
  }

  lemma {:induction false} TailIsWord(s: string, i: nat, shape: Shape)
    requires i <= |s|
    ensures forall k :: i <= k < TailEnd(s, i, shape) ==> IsWordChar(s[k])
    decreases |s| - i
  {
    if i < |s| && InTail(shape, s[i]) {
      TailIsWord(s, i + 1, shape);
    } else if TailEnd(s, i, shape) > i {
      TailIsWord(s, i + 2, shape);
    }
  }

  /** Every match of one shape in a line, left to right. */
  method FindAll(line: string, number: nat, shape: Shape) returns (found: seq<Finding>)
    ensures forall f :: f in found <==> f.line == number && f.shape == shape && FoundOn(line, f)
  {
    found := [];
    var i := 0;
    while i < |line|
      invariant 0 <= i <= |line|
      invariant forall f :: f in found <==>
                              f.line == number && f.shape == shape && FoundOn(line, f) && f.column <= i
    {
      var end := MatchAt(line, i, shape);
      if end.None? {
        i := i + 1;
      } else {
        forall b | i < b < end.value ensures MatchAt(line, b, shape).None? {
          MatchesAreApart(line, i, b, shape);
        }
        found := found + [Finding(number, i + 1, shape, line[i..end.value])];
        i := end.value;
      }
    }
  }

  function Rank(shape: Shape): nat {
    match shape
    case SnakeCase => 0
    case LowerCamelCase => 1
    case UpperCamelCase => 2
    case ScreamingSnakeCase => 3
  }

  method ScanLine(line: string, number: nat) returns (found: seq<Finding>)
    ensures forall f :: f in found <==> f.line == number && FoundOn(line, f)
  {
    var shapes := [SnakeCase, LowerCamelCase, UpperCamelCase, ScreamingSnakeCase];
    found := [];
    for r := 0 to 4
      invariant forall f :: f in found <==> f.line == number && FoundOn(line, f) && Rank(f.shape) < r
    {
      var more := FindAll(line, number, shapes[r]);
      found := found + more;
    }
  }

  /** The scan over the lines of a text, shape by shape. */
  method ScanLines(text: string) returns (findings: seq<Finding>)
    ensures forall f :: f in findings <==> Found(text, f)
  {
    findings := [];
    for k := 0 to |LinesFrom(text, 0)|
      invariant forall f :: f in findings <==> Found(text, f) && f.line <= k
    {
      var found := ScanLine(LineText(text, k), k + 1);
      findings := findings + found;
    }
  }

  lemma LinesAgree(m: string, s: string, from: nat, to: nat)
    requires WordsAgree(m, s) && from <= to <= |m|
    ensures WordsAgree(m[from..to], s[from..to])
  {
    var x, y := m[from..to], s[from..to];
    forall p | 0 <= p < |x| ensures AgreeAt(x, y, p) {
      assert AgreeAt(m, s, from + p);
    }
  }

  lemma MatchInLine(m: string, t: string, a: nat, shape: Shape)
    requires WordsAgree(m, t) && a < |m| && m[a] in {t[a], ' '}
    ensures MatchAt(m, a, shape).Some? <==> MatchAt(t, a, shape).Some? && m[a] == t[a]
    ensures MatchAt(m, a, shape).Some? ==>
              && MatchAt(m, a, shape) == MatchAt(t, a, shape)
              && m[a..MatchAt(m, a, shape).value] == t[a..MatchAt(m, a, shape).value]
  {
    if m[a] == t[a] {
      MatchAgrees(m, t, a, shape);
    } else {
      assert !IsWordChar(m[a]);
    }
  }

  lemma FindingsAgree(m: string, t: string, f: Finding)
    requires WordsAgree(m, t) && forall a :: 0 <= a < |m| ==> m[a] in {t[a], ' '}
    ensures FoundOn(m, f) <==> FoundOn(t, f) && m[f.column - 1] == t[f.column - 1]
  {
    if 1 <= f.column <= |m| {
      MatchInLine(m, t, f.column - 1, f.shape);
    }
  }

  lemma FindingIsWord(line: string, f: Finding)
    requires FoundOn(line, f)
    ensures IsWordChar(line[f.column - 1])
  {
  }

  /** A word character is shown exactly when it is in code. */
  lemma WordShown(s: string, x: Syntax, p: nat)
    requires p < |s| && IsWordChar(s[p])
    ensures IsCode(s, x, p) <==> Mask(s, x)[p] == s[p]
  {
    MaskAt(s, x, 0, p);
  }

  lemma WordShownInCode(s: string, x: Syntax, from: nat, to: nat, f: Finding)
    requires 1 <= f.line <= |LinesFrom(s, 0)| && LinesFrom(s, 0)[f.line - 1] == Line(from, to)
    ensures from <= to <= |s|
    ensures 1 <= f.column <= to - from && IsWordChar(s[from + (f.column - 1)]) ==>
              (BeginsInCode(s, x, f) <==> Mask(s, x)[from + (f.column - 1)] == s[from + (f.column - 1)])
  {
    hide Mask, IsCode, IsWordChar;
    if 1 <= f.column <= to - from && IsWordChar(s[from + (f.column - 1)]) {
      WordShown(s, x, from + (f.column - 1));
    }
  }

  /** `code` tells whether the finding begins in code; the mask shows its first character
      exactly then. */
  lemma FindingsInSlice(m: string, s: string, from: nat, to: nat, f: Finding, code: bool)
    requires |m| == |s| && from <= to <= |s| && WordsAgree(m[from..to], s[from..to])
    requires forall i :: 0 <= i < |s| ==> m[i] in {s[i], ' '}
    requires 1 <= f.column <= to - from && IsWordChar(s[from + (f.column - 1)]) ==>
               (code <==> m[from + (f.column - 1)] == s[from + (f.column - 1)])
    ensures FoundOn(m[from..to], f) <==> FoundOn(s[from..to], f) && code
  {
    forall a | 0 <= a < to - from ensures m[from..to][a] in {s[from..to][a], ' '} {
      assert m[from + a] in {s[from + a], ' '};
    }
    FindingsAgree(m[from..to], s[from..to], f);
    if 1 <= f.column <= to - from {
      if FoundOn(s[from..to], f) {
        FindingIsWord(s[from..to], f);
      }
    }
  }

  lemma FindingsOnMaskedLine(s: string, x: Syntax, from: nat, to: nat, f: Finding)
    requires Delimits(x)
    requires 1 <= f.line <= |LinesFrom(s, 0)| && LinesFrom(s, 0)[f.line - 1] == Line(from, to)
    ensures FoundOn(Mask(s, x)[from..to], f) <==> FoundOn(s[from..to], f) && BeginsInCode(s, x, f)
  {
    MaskLayout(s, x);
    RegionsDelimited(s, x);
    LinesAgree(Mask(s, x), s, from, to);
    WordShownInCode(s, x, from, to, f);
    FindingsInSlice(Mask(s, x), s, from, to, f, BeginsInCode(s, x, f));
  }

  /** The scan over masked text finds exactly the matches of the raw text that begin in code:
      same line, same column, same characters. Masking cannot invent a finding. */
  lemma MaskedFindingsAreRawFindings(s: string, x: Syntax, f: Finding)
    requires Delimits(x)
    ensures Found(Mask(s, x), f) <==> Found(s, f) && BeginsInCode(s, x, f)
  {
    hide BeginsInCode, Mask, FoundOn;
    SameLines(s, x);
    if 1 <= f.line <= |LinesFrom(s, 0)| {
      var line := LinesFrom(s, 0)[f.line - 1];
      FindingsOnMaskedLine(s, x, line.from, line.to, f);
    }
  }

  lemma SameLines(s: string, x: Syntax)
    ensures LinesFrom(Mask(s, x), 0) == LinesFrom(s, 0)
  {
    MaskLayout(s, x);
    AlignedLines(Mask(s, x), s, 0);
  }

  const IDENTIFIER_EXTENSIONS: set<string> :=
    {".go", ".py", ".js", ".ts", ".jsx", ".tsx", ".java", ".scala", ".rb", ".php",
     ".c", ".cpp", ".cc", ".cxx", ".h", ".hpp", ".cs", ".rs", ".kt", ".swift",
     ".sh", ".bash", ".zsh", ".sql", ".yaml", ".yml", ".json", ".tf", ".hcl",
     ".proto", ".tmpl"}

  /** The scanned suffixes are those whose comment tokens are known. */
  lemma ScannedSuffixes(suffix: string)
    ensures suffix in IDENTIFIER_EXTENSIONS
            <==> || suffix in {".py", ".rb", ".sh", ".bash", ".zsh", ".yaml", ".yml", ".tf", ".hcl", ".php", ".sql", ".json"}
                 || suffix in {".go", ".js", ".ts", ".jsx", ".tsx", ".java", ".scala", ".c", ".cpp", ".cc", ".cxx",
                               ".h", ".hpp", ".cs", ".rs", ".kt", ".swift", ".proto", ".tmpl"}
  {
  }

  const LEGACY_TERM := "tenant"

  /** Any shape spells the legacy term, so a text without it has no finding. */
  lemma FoundNamesTerm(text: string, f: Finding)
    requires Found(text, f)
    ensures Contains(Lower(text), LEGACY_TERM)
  {
    var line := LinesFrom(text, 0)[f.line - 1];
    var p := line.from + (f.column - 1);
    hide LinesFrom, TailEnd, Lower, LEGACY_TERM;
    HeadSpellsTerm(text, line, f);
    assert Occurs(Lower(text), p, LEGACY_TERM);
  }

  lemma HeadSpellsTerm(text: string, line: Line, f: Finding)
    requires line.from <= line.to <= |text| && FoundOn(text[line.from..line.to], f)
    ensures Occurs(Lower(text), line.from + (f.column - 1), LEGACY_TERM)
  {
    hide *;
    TermChar(text, line, f, 0);
    TermChar(text, line, f, 1);
    TermChar(text, line, f, 2);
    TermChar(text, line, f, 3);
    TermChar(text, line, f, 4);
    TermChar(text, line, f, 5);
    SixOccur(Lower(text), line.from + (f.column - 1));
  }

  lemma TermChar(text: string, line: Line, f: Finding, k: nat)
    requires line.from <= line.to <= |text| && FoundOn(text[line.from..line.to], f) && k < 6
    ensures f.column >= 1 && line.from + (f.column - 1) + k < |text|
    ensures Lower(text)[line.from + (f.column - 1) + k] == LEGACY_TERM[k]
  {
    hide *;
    var head, a := text[line.from..line.to], f.column - 1;
    FoundHead(head, f, k);
    LowerAt(text, line.from + a + k);
    HeadLower(f.shape, k);
  }

  lemma FoundHead(line: string, f: Finding, k: nat)
    requires FoundOn(line, f) && k < 6
    ensures f.column >= 1 && f.column - 1 + k < |line| && line[f.column - 1 + k] == HeadChar(f.shape, k)
  {
    hide TailEnd, OpensTail, Anchored, HeadChar;
    var a := f.column - 1;
    assert line[a + k] == HeadChar(f.shape, a + k - a);
  }

  lemma SixOccur(s: string, p: nat)
    requires p + 6 <= |s| && s[p] == LEGACY_TERM[0] && s[p + 1] == LEGACY_TERM[1] && s[p + 2] == LEGACY_TERM[2]
    requires s[p + 3] == LEGACY_TERM[3] && s[p + 4] == LEGACY_TERM[4] && s[p + 5] == LEGACY_TERM[5]
    ensures Occurs(s, p, LEGACY_TERM)
  {
    assert s[p..p + 6] == [s[p], s[p + 1], s[p + 2], s[p + 3], s[p + 4], s[p + 5]];
  }

  lemma HeadLower(shape: Shape, k: nat)
    requires k < 6
    ensures LowerChar(HeadChar(shape, k)) == LEGACY_TERM[k]
  {
  }

  /** The scan of one file, by its text and its suffix. `excepted` tells whether an exception covers
      the file. */
  method ScanForIdentifiers(text: string, suffix: string, excepted: bool) returns (findings: seq<Finding>)
    ensures var x := SyntaxOf(Lower(suffix));
            forall f :: f in findings
                        <==> && Lower(suffix) in IDENTIFIER_EXTENSIONS && !excepted
                             && Found(text, f) && BeginsInCode(text, x, f)
  {
    hide IDENTIFIER_EXTENSIONS, Found, BeginsInCode, SyntaxOf;
    findings := [];
    if Lower(suffix) !in IDENTIFIER_EXTENSIONS {
      return;
    }
    if !Contains(Lower(text), LEGACY_TERM) {
      forall f ensures !Found(text, f) {
        if Found(text, f) {
          FoundNamesTerm(text, f);
        }
      }
      return;
    }
    if excepted {
      return;
    }
    var masked := MaskNonCode(text, Lower(suffix));
    findings := ScanLines(masked);
    ScanIsRaw(text, SyntaxOf(Lower(suffix)));
  }

  lemma ScanIsRaw(s: string, x: Syntax)
    requires Delimits(x)
    ensures forall f :: Found(Mask(s, x), f) <==> Found(s, f) && BeginsInCode(s, x, f)
  {
    forall f ensures Found(Mask(s, x), f) <==> Found(s, f) && BeginsInCode(s, x, f) {
      MaskedFindingsAreRawFindings(s, x, f);
    }
  }
}
