// Texts as lines, with a newline as the only separator.
module Lines {
  /** A character of `\w`, ASCII only. */
  predicate IsWordChar(c: char) {
    'a' <= c <= 'z' || 'A' <= c <= 'Z' || '0' <= c <= '9' || c == '_'
  }

  /** White space as `str.strip()` sees it. */
  predicate IsSpace(c: char) {
    var k := c as int;
    9 <= k <= 13 || 28 <= k <= 32 || k == 133 || k == 160 || k == 5760 || 8192 <= k <= 8202
    || k == 8232 || k == 8233 || k == 8239 || k == 8287 || k == 12288
  }

  const LOWER := "abcdefghijklmnopqrstuvwxyz"
  const UPPER := "ABCDEFGHIJKLMNOPQRSTUVWXYZ"

  /** The character classes, character by character. */
  lemma Letters(c: char)
    ensures c in LOWER <==> 'a' <= c <= 'z'
    ensures c in UPPER <==> 'A' <= c <= 'Z'
  {
  }

  lemma WordChars(c: char)
    ensures IsWordChar(c) <==> c in LOWER || c in UPPER || c in "0123456789_"
  {
    Letters(c);
    hide LOWER, UPPER;
  }

  lemma Spaces(c: char)
    ensures IsSpace(c)
            <==> || c in "\t\n\U{B}\U{C}\r\U{1C}\U{1D}\U{1E}\U{1F} \U{85}\U{A0}\U{1680}\U{2028}\U{2029}\U{202F}\U{205F}\U{3000}"
                 || '\U{2000}' <= c <= '\U{200A}'
  {
  }

  lemma LowerChars(c: char)
    ensures c !in UPPER ==> LowerChar(c) == c
  {
  }

  lemma LowerLetters(k: nat)
    requires k < 26
    ensures LowerChar(UPPER[k]) == LOWER[k]
  {
  }

  predicate AllSpace(x: string) { forall i :: 0 <= i < |x| ==> IsSpace(x[i]) }

  /** A space for any character but a newline. */
  function BlankChar(c: char): char { if c == '\n' then c else ' ' }

  /** First position from `i` on that is not white space, or the end. */
  function Ink(t: string, i: nat): (w: nat)
    requires i <= |t|
    ensures i <= w <= |t| && (w < |t| ==> !IsSpace(t[w]))
    ensures forall j :: i <= j < w ==> IsSpace(t[j])
    decreases |t| - i
  {
    if i < |t| && IsSpace(t[i]) then Ink(t, i + 1) else i
  }

  /** Lower case, ASCII only. */
  function Lower(s: string): (l: string)
    ensures |l| == |s|
  {
    if s == "" then "" else [LowerChar(s[0])] + Lower(s[1..])
  }

  lemma {:induction false} LowerAt(s: string, i: nat)
    requires i < |s|
    ensures Lower(s)[i] == LowerChar(s[i])
    decreases |s|
  {
    hide LowerChar;
    if i > 0 {
      LowerAt(s[1..], i - 1);
    }
  }

  function LowerChar(c: char): char { if 'A' <= c <= 'Z' then c + 32 as char else c }

  /** What stands at `i` is the lower-case text `word` from `k` on, in any case. */
  predicate SpelledAt(s: string, i: nat, word: string, k: nat)
    requires k <= |word|
    ensures SpelledAt(s, i, word, k) && k < |word| ==> i + (|word| - k) <= |s|
    decreases |word| - k
  {
    k == |word| || (i < |s| && LowerChar(s[i]) == word[k] && SpelledAt(s, i + 1, word, k + 1))
  }

  /** What stands at `i` is the lower-case text `word`, in any case. */
  lemma SpelledExactly(s: string, i: nat, word: string)
    requires word != ""
    ensures SpelledAt(s, i, word, 0) <==> i + |word| <= |s| && Lower(s[i..i + |word|]) == word
  {
    SpelledFrom(s, i, word, 0);
    if i + |word| <= |s| {
      var here := s[i..i + |word|];
      forall k | 0 <= k < |word| ensures Lower(here)[k] == LowerChar(s[i + k]) {
        LowerAt(here, k);
      }
    }
    hide SpelledAt, LowerChar;
  }

  lemma {:induction false} SpelledFrom(s: string, p: nat, word: string, k: nat)
    requires k <= |word|
    ensures SpelledAt(s, p + k, word, k)
            <==> (k < |word| ==> p + |word| <= |s|)
                 && forall j :: k <= j < |word| ==> p + j < |s| && LowerChar(s[p + j]) == word[j]
    decreases |word| - k
  {
    if k < |word| {
      SpelledFrom(s, p, word, k + 1);
    }
  }

  /** The text holds `word`. */
  predicate Contains(s: string, word: string) {
    exists i :: 0 <= i <= |s| && Occurs(s, i, word)
  }

  /** What stands at `i` is the text `word`. */
  predicate Occurs(s: string, i: nat, word: string) { i + |word| <= |s| && s[i..i + |word|] == word }

  lemma OccursExactly(s: string, i: nat, word: string)
    ensures Occurs(s, i, word) <==> i + |word| <= |s| && forall j :: i <= j < i + |word| ==> s[j] == word[j - i]
  {
    if Occurs(s, i, word) {
      assert forall j :: i <= j < i + |word| ==> s[j] == s[i..i + |word|][j - i];
    }
  }

  /** Two characters stand at position `i`. */
  predicate Two(s: string, i: int, a: char, b: char) {
    0 <= i && i + 1 < |s| && s[i] == a && s[i + 1] == b
  }

  /** Number of newlines in a text. */
  function Newlines(s: string): nat {
    if s == "" then 0 else (if s[0] == '\n' then 1 else 0) + Newlines(s[1..])
  }

  lemma {:induction false} NewlinesConcat(a: string, b: string)
    ensures Newlines(a + b) == Newlines(a) + Newlines(b)
  {
    if a == "" {
      assert a + b == b;
    } else {
      NewlinesConcat(a[1..], b);
      assert (a + b)[1..] == a[1..] + b;
    }
  }

  /** Same length, and newlines in the same places. */
  ghost predicate SameLayout(a: string, b: string) {
    |a| == |b| && forall i :: 0 <= i < |a| ==> (a[i] == '\n' <==> b[i] == '\n')
  }

  lemma {:induction false} SameLayoutSameNewlines(a: string, b: string)
    requires SameLayout(a, b)
    ensures Newlines(a) == Newlines(b)
  {
    if a != "" {
      SameLayoutSameNewlines(a[1..], b[1..]);
    }
  }

  /** Position of the first newline from `i` on, or the end of the text. */
  function LineEnd(s: string, i: nat): (e: nat)
    requires i <= |s|
    ensures i <= e <= |s| && (e < |s| ==> s[e] == '\n')
    ensures forall j :: i <= j < e ==> s[j] != '\n'
    decreases |s| - i
  {
    if i == |s| || s[i] == '\n' then i else LineEnd(s, i + 1)
  }

  /** First position of `c` from `i` on, or the end. */
  function FirstChar(s: string, i: nat, c: char): (e: nat)
    requires i <= |s|
    ensures i <= e <= |s| && (e < |s| ==> s[e] == c)
    ensures forall j :: i <= j < e ==> s[j] != c
    decreases |s| - i
  {
    if i == |s| || s[i] == c then i else FirstChar(s, i + 1, c)
  }

  /** First position from `i` on where a block comment closes, or the end. */
  function FirstClose(s: string, i: nat): (e: nat)
    requires i <= |s|
    ensures i <= e <= |s| && (e < |s| ==> Two(s, e, '*', '/'))
    ensures forall j :: i <= j < e ==> !Two(s, j, '*', '/')
    decreases |s| - i
  {
    if i == |s| || Two(s, i, '*', '/') then i else FirstClose(s, i + 1)
  }

  /** A block comment whose contents begin at `b` ends at `e`: just after the first place that closes
      it, or with the text. */
  predicate EndsBlock(s: string, b: nat, e: nat) {
    && b <= e <= |s| && (forall j :: b <= j < e - 2 ==> !Two(s, j, '*', '/'))
    && (e == |s| || (b + 2 <= e && Two(s, e - 2, '*', '/')))
  }

  lemma BlockEndDetermined(s: string, b: nat, e: nat)
    requires b <= |s|
    ensures var c := FirstClose(s, b); EndsBlock(s, b, e) <==> e == if c < |s| then c + 2 else c
  {
    var c := FirstClose(s, b);
    assert EndsBlock(s, b, e) && c < e - 2 ==> Two(s, c, '*', '/');
    assert b + 2 <= e && Two(s, e - 2, '*', '/') ==> c <= e - 2;
  }

  /** A line of a text, as the range it occupies without its newline. */
  datatype Line = Line(from: nat, to: nat)

  /** The lines of a text from `i` on; a final newline does not open another line. */
  function LinesFrom(s: string, i: nat): (lines: seq<Line>)
    requires i <= |s|
    ensures forall k :: 0 <= k < |lines| ==> i <= lines[k].from <= lines[k].to <= |s|
    decreases |s| - i
  {
    if i == |s| then []
    else
      var e := LineEnd(s, i);
      [Line(i, e)] + if e == |s| then [] else LinesFrom(s, e + 1)
  }

  /** The texts of the lines. */
  function SplitLines(s: string): (texts: seq<string>)
    ensures |texts| == |LinesFrom(s, 0)|
  {
    var lines := LinesFrom(s, 0);
    seq(|lines|, k requires 0 <= k < |lines| => s[lines[k].from..lines[k].to])
  }

  /** The texts with a newline after each. */
  function Unlines(texts: seq<string>): string {
    if texts == [] then "" else texts[0] + "\n" + Unlines(texts[1..])
  }

  predicate OneLine(s: string) { forall i :: 0 <= i < |s| ==> s[i] != '\n' }

  /** The text with a newline at its end, unless it is empty or ends with one. */
  function Ended(s: string): string { if s == "" || s[|s| - 1] == '\n' then s else s + "\n" }

  /** The texts of the lines from `i` on. */
  function TextsFrom(s: string, i: nat): seq<string>
    requires i <= |s|
    decreases |s| - i
  {
    if i == |s| then []
    else
      var e := LineEnd(s, i);
      [s[i..e]] + if e == |s| then [] else TextsFrom(s, e + 1)
  }

  lemma {:induction false} TextsAreLines(s: string, i: nat)
    requires i <= |s|
    ensures |TextsFrom(s, i)| == |LinesFrom(s, i)|
    ensures forall k :: 0 <= k < |TextsFrom(s, i)| ==>
              TextsFrom(s, i)[k] == s[LinesFrom(s, i)[k].from..LinesFrom(s, i)[k].to]
    decreases |s| - i
  {
    hide *;
    LinesStep(s, i);
    TextsUnfold(s, i);
    if i < |s| && LineEnd(s, i) < |s| {
      TextsAreLines(s, LineEnd(s, i) + 1);
    }
  }

  lemma {:induction false} TextsEnded(s: string, i: nat)
    requires i <= |s|
    ensures Unlines(TextsFrom(s, i)) == Ended(s[i..])
    ensures forall t :: t in TextsFrom(s, i) ==> OneLine(t)
    decreases |s| - i
  {
    hide *;
    TextsUnfold(s, i);
    if i == |s| {
      NoText();
      assert s[i..] == "";
    } else {
      var e := LineEnd(s, i);
      var line := s[i..e];
      LineIsOne(s, i);
      if e == |s| {
        UnlinesOne(line);
        assert s[i..] == line;
      } else {
        TextsEnded(s, e + 1);
        SplitAtEnd(s, i);
        EndedPast(s[i..], line, s[e + 1..]);
        UnlinesMore(line, TextsFrom(s, e + 1));
      }
    }
  }

  lemma NoText()
    ensures Unlines([]) == "" && Ended("") == ""
  {
  }

  lemma TextsUnfold(s: string, i: nat)
    requires i <= |s|
    ensures i == |s| ==> TextsFrom(s, i) == []
    ensures i < |s| && LineEnd(s, i) == |s| ==> TextsFrom(s, i) == [s[i..LineEnd(s, i)]]
    ensures i < |s| && LineEnd(s, i) < |s| ==>
              TextsFrom(s, i) == [s[i..LineEnd(s, i)]] + TextsFrom(s, LineEnd(s, i) + 1)
  {
  }

  lemma LineIsOne(s: string, i: nat)
    requires i < |s|
    ensures OneLine(s[i..LineEnd(s, i)])
    ensures LineEnd(s, i) == |s| ==> Ended(s[i..]) == s[i..] + "\n"
  {
  }

  lemma SplitAtEnd(s: string, i: nat)
    requires i < |s| && LineEnd(s, i) < |s|
    ensures s[i..] == s[i..LineEnd(s, i)] + "\n" + s[LineEnd(s, i) + 1..]
  {
  }

  lemma UnlinesOne(line: string)
    ensures Unlines([line]) == line + "\n"
  {
    assert Unlines([line]) == line + "\n" + "";
  }

  lemma UnlinesMore(line: string, rest: seq<string>)
    ensures Unlines([line] + rest) == line + "\n" + Unlines(rest)
  {
    assert ([line] + rest)[1..] == rest;
  }

  lemma EndedPast(s: string, line: string, rest: string)
    requires s == line + "\n" + rest
    ensures Ended(s) == line + "\n" + Ended(rest)
  {
    if rest != "" {
      assert s[|s| - 1] == rest[|rest| - 1];
      assert line + "\n" + rest + "\n" == line + "\n" + (rest + "\n");
    } else {
      assert s[|s| - 1] == '\n';
    }
  }

  /** Texts without newlines are told apart by what they make together. */
  lemma {:induction false} UnlinesInjective(a: seq<string>, b: seq<string>)
    requires Unlines(a) == Unlines(b) && forall t :: t in a || t in b ==> OneLine(t)
    ensures a == b
    decreases |a|
  {
    if a != [] && b != [] {
      FirstLine(a[0], Unlines(a[1..]), b[0], Unlines(b[1..]));
      UnlinesInjective(a[1..], b[1..]);
      assert a == [a[0]] + a[1..] && b == [b[0]] + b[1..];
    }
  }

  lemma FirstLine(x: string, y: string, z: string, w: string)
    requires x + "\n" + y == z + "\n" + w && OneLine(x) && OneLine(z)
    ensures x == z && y == w
  {
    var s := x + "\n" + y;
    assert s[|x|] == '\n' && s[|z|] == '\n';
    assert forall k :: 0 <= k < |x| ==> s[k] == x[k];
    assert forall k :: 0 <= k < |z| ==> s[k] == z[k];
    assert |x| == |z|;
    assert s[..|x|] == x && s[..|z|] == z && s[|x| + 1..] == y && s[|z| + 1..] == w;
  }

  /** The lines of a text are the only texts without newlines that make it up, a newline after each;
      the last may lack its own. */
  lemma SplitLinesExactly(s: string, texts: seq<string>)
    ensures texts == SplitLines(s)
            <==> && (forall t :: t in texts ==> forall i :: 0 <= i < |t| ==> t[i] != '\n')
                 && Unlines(texts) == if s == "" || s[|s| - 1] == '\n' then s else s + "\n"
  {
    TextsAreLines(s, 0);
    TextsEnded(s, 0);
    assert s[0..] == s;
    assert SplitLines(s) == TextsFrom(s, 0);
    hide SplitLines, TextsFrom, Unlines;
    if (forall t :: t in texts ==> OneLine(t)) && Unlines(texts) == Ended(s) {
      UnlinesInjective(texts, SplitLines(s));
    }
  }

  lemma SameLineEnd(a: string, b: string, i: nat)
    requires SameLayout(a, b) && i <= |a|
    ensures |a| == |b| && LineEnd(b, i) == LineEnd(a, i)
  {
    hide LineEnd;
  }

  lemma LinesStep(s: string, i: nat)
    requires i <= |s|
    ensures LinesFrom(s, i)
            == if i == |s| then []
               else [Line(i, LineEnd(s, i))] + if LineEnd(s, i) == |s| then [] else LinesFrom(s, LineEnd(s, i) + 1)
  {
  }

  /** Texts with the same layout have the same line boundaries. */
  lemma {:induction false} AlignedLines(a: string, b: string, i: nat)
    requires SameLayout(a, b) && i <= |a|
    ensures LinesFrom(a, i) == LinesFrom(b, i)
    decreases |a| - i
  {
    hide *;
    SameLineEnd(a, b, i);
    LinesStep(a, i);
    LinesStep(b, i);
    if i < |a| {
      if LineEnd(a, i) < |a| {
        AlignedLines(a, b, LineEnd(a, i) + 1);
      }
    }
  }

  /** The number of newlines before line `k` is `k`: reported line numbers count newlines. */
  lemma {:induction false} LineNumber(s: string, i: nat, k: nat)
    requires i <= |s| && k < |LinesFrom(s, i)|
    ensures Newlines(s[i..LinesFrom(s, i)[k].from]) == k
    decreases k
  {
    hide *;
    LinesUnfold(s, i);
    if k == 0 {
      NoNewlines("");
      assert s[i..i] == "";
    } else {
      var e := LineEnd(s, i);
      LineNumber(s, e + 1, k - 1);
      NewlinesPastLine(s, i, LinesFrom(s, e + 1)[k - 1].from);
    }
  }

  lemma LinesUnfold(s: string, i: nat)
    requires i <= |s|
    ensures var lines, e := LinesFrom(s, i), LineEnd(s, i);
            && (lines != [] ==> lines[0].from == i)
            && forall k :: 0 < k < |lines| ==> e < |s| && lines[k] == LinesFrom(s, e + 1)[k - 1]
    ensures |LinesFrom(s, i)|
            == if i == |s| then 0 else 1 + if LineEnd(s, i) == |s| then 0 else |LinesFrom(s, LineEnd(s, i) + 1)|
  {
  }

  lemma NewlinesPastLine(s: string, i: nat, f: nat)
    requires i <= |s| && LineEnd(s, i) < f <= |s|
    ensures Newlines(s[i..f]) == 1 + Newlines(s[LineEnd(s, i) + 1..f])
  {
    var e := LineEnd(s, i);
    var line, tail := s[i..e], s[e..f];
    hide LineEnd;
    assert s[i..f] == line + tail;
    NewlinesConcat(line, tail);
    NoNewlines(line);
    assert tail[1..] == s[e + 1..f];
  }

  lemma {:induction false} NoNewlines(s: string)
    requires forall i :: 0 <= i < |s| ==> s[i] != '\n'
    ensures Newlines(s) == 0
  {
    if s != "" {
      NoNewlines(s[1..]);
    }
  }

  /** The number, from 1 on, of the line that holds position `i`. */
  function LineOf(s: string, i: nat): nat
    requires i <= |s|
  {
    1 + Newlines(s[..i])
  }

  lemma LineOfSame(s: string, i: nat, j: nat)
    requires i <= j <= |s| && forall k :: i <= k < j ==> s[k] != '\n'
    ensures LineOf(s, j) == LineOf(s, i)
  {
    assert s[..j] == s[..i] + s[i..j];
    NewlinesConcat(s[..i], s[i..j]);
    NoNewlines(s[i..j]);
  }

  lemma LineOfNext(s: string, i: nat)
    requires i < |s| && s[i] == '\n'
    ensures LineOf(s, i + 1) == LineOf(s, i) + 1
  {
    assert s[..i + 1] == s[..i] + [s[i]];
    NewlinesConcat(s[..i], [s[i]]);
  }

  // ----- texts given character by character -----

  /** The text of `n` characters that shows `g(i)`, `g(i + 1)` and so on. */
  function Tabulate(g: nat -> char, i: nat, n: nat): (r: string)
    ensures |r| == n
    decreases n
  {
    if n == 0 then "" else [g(i)] + Tabulate(g, i + 1, n - 1)
  }

  lemma {:induction false} TabulateAt(g: nat -> char, i: nat, n: nat, k: nat)
    requires k < n
    ensures Tabulate(g, i, n)[k] == g(i + k)
    decreases k
  {
    if k > 0 {
      TabulateAt(g, i + 1, n - 1, k - 1);
    }
  }

  lemma {:induction false} TabulateSplit(g: nat -> char, i: nat, n: nat, m: nat)
    ensures Tabulate(g, i, n + m) == Tabulate(g, i, n) + Tabulate(g, i + n, m)
    decreases n
  {
    hide Tabulate;
    TabulateUnfold(g, i, n + m);
    TabulateUnfold(g, i, n);
    if n == 0 {
      assert "" + Tabulate(g, i, m) == Tabulate(g, i, m);
    } else {
      TabulateSplit(g, i + 1, n - 1, m);
      ConcatAssociates([g(i)], Tabulate(g, i + 1, n - 1), Tabulate(g, i + n, m));
    }
  }

  lemma TabulateUnfold(g: nat -> char, i: nat, n: nat)
    ensures Tabulate(g, i, n) == if n == 0 then "" else [g(i)] + Tabulate(g, i + 1, n - 1)
  {
  }

  lemma {:induction false} TabulateSame(g: nat -> char, h: nat -> char, i: nat, n: nat)
    requires forall j :: i <= j < i + n ==> g(j) == h(j)
    ensures Tabulate(g, i, n) == Tabulate(h, i, n)
    decreases n
  {
    if n > 0 {
      TabulateSame(g, h, i + 1, n - 1);
    }
  }

  lemma ConcatAssociates<T>(a: seq<T>, b: seq<T>, c: seq<T>)
    ensures (a + b) + c == a + (b + c)
  {
  }
}
