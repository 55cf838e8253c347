// The enclosing-function approximation, and spans that are computed on one view of a source
// text and applied to another.
module FunctionSpan {
  import opened Lines
  import opened GoLexer

  /** A line that opens a top-level function. */
  predicate OpensFunction(line: string) {
    "func" <= line && (|line| == 4 || !IsWordChar(line[4]))
  }

  /** The line begins with the word `func`. */
  lemma OpensFunctionExactly(line: string)
    ensures OpensFunction(line)
            <==> exists rest: string :: line == "func" + rest && (rest != "" ==> !IsWordChar(rest[0]))
  {
    if OpensFunction(line) {
      assert line == "func" + line[4..];
    }
  }

  /** `start` is the nearest opening line at or above `idx`, or the first line. */
  ghost predicate IsSpanStart(lines: seq<string>, idx: nat, start: nat) {
    && start <= idx < |lines|
    && (start == 0 || OpensFunction(lines[start]))
    && forall i :: start < i <= idx ==> !OpensFunction(lines[i])
  }

  /** `end` is the nearest opening line below `idx`, or the end. */
  ghost predicate IsSpanEnd(lines: seq<string>, idx: nat, end: nat) {
    && idx < end <= |lines|
    && (end == |lines| || OpensFunction(lines[end]))
    && forall i :: idx < i < end ==> !OpensFunction(lines[i])
  }

  method EnclosingFunctionSpan(lines: seq<string>, idx: nat) returns (start: nat, end: nat)
    requires idx < |lines|
    ensures IsSpanStart(lines, idx, start) && IsSpanEnd(lines, idx, end)
  {
    start := 0;
    var i := idx;
    while i >= 0
      invariant -1 <= i <= idx
      invariant forall j :: i < j <= idx ==> !OpensFunction(lines[j])
      invariant start == 0
    {
      if OpensFunction(lines[i]) {
        start := i;
        break;
      }
      i := i - 1;
    }
    end := |lines|;
    i := idx + 1;
    while i < |lines|
      invariant idx < i <= |lines|
      invariant forall j :: idx < j < i ==> !OpensFunction(lines[j])
      invariant end == |lines|
    {
      if OpensFunction(lines[i]) {
        end := i;
        break;
      }
      i := i + 1;
    }
  }

  /** The spans tile the lines: the span of any line of a span is that span, and two spans that
      differ share no line. */
  lemma SpansTile(lines: seq<string>, i: nat, s: nat, e: nat, j: nat, t: nat, f: nat)
    requires IsSpanStart(lines, i, s) && IsSpanEnd(lines, i, e)
    requires IsSpanStart(lines, j, t) && IsSpanEnd(lines, j, f)
    ensures s <= j < e ==> t == s && f == e
    ensures (s == t && e == f) || e <= t || f <= s
  {
  }

  /** The source region a span of lines covers, newline of the last line excluded. */
  function Region(s: string, start: nat, end: nat): (nat, nat)
    requires start < end <= |LinesFrom(s, 0)|
  {
    (LinesFrom(s, 0)[start].from, LinesFrom(s, 0)[end - 1].to)
  }

  /** For Go text whose interpreted literals stay on one line, both views and the text itself
      have the same lines, so a span computed on one view selects the same region in the other. */
  lemma ViewsAligned(text: string, start: nat, end: nat)
    requires LiteralsOnOneLine(text)
    ensures LinesFrom(View(text, true), 0) == LinesFrom(View(text, false), 0) == LinesFrom(text, 0)
    ensures start < end <= |SplitLines(View(text, true))| ==>
              && end <= |LinesFrom(View(text, false), 0)|
              && Region(View(text, true), start, end) == Region(View(text, false), start, end)
  {
    BlankedViewLayout(text);
    StrippedViewLayout(text);
    AlignedLines(View(text, true), text, 0);
    AlignedLines(View(text, false), text, 0);
  }
}
