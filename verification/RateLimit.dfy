// The rate-limit rule over a service's Go sources, from two views of each file.
module RateLimit {
  import opened Common
  import opened Lines
  import opened GoLexer
  import opened FunctionSpan

  // ----- prohibited headers -----

  /** Where the arguments begin of a call of `Header`, `Set` or `Add`, in any case, at `i`. */
  function CallEnd(line: string, i: nat): (e: Option<nat>)
    ensures e.Some? ==> i < e.value <= |line|
  {
    if !(i < |line| && line[i] == '.') then None
    else if SpelledAt(line, i + 1, "header(", 0) then Some(i + 8)
    else if SpelledAt(line, i + 1, "set(", 0) then Some(i + 5)
    else if SpelledAt(line, i + 1, "add(", 0) then Some(i + 5)
    else None
  }

  /** A letter, a digit or a dash. */
  predicate HeaderChar(c: char) { c == '-' || (IsWordChar(c) && c != '_') }

  /** End of the run of letters, digits and dashes from `i` on. */
  function HeaderEnd(line: string, i: nat): (e: nat)
    requires i <= |line|
    ensures i <= e <= |line| && (e < |line| ==> !HeaderChar(line[e]))
    ensures forall k :: i <= k < e ==> HeaderChar(line[k])
    decreases |line| - i
  {
    if i < |line| && HeaderChar(line[i]) then HeaderEnd(line, i + 1) else i
  }

  /** The header, in the spelling of the line, that a call at `i` sets by a literal name. */
  function SiteAt(line: string, i: nat): Option<string> {
    var c := CallEnd(line, i);
    if c.None? then None
    else
      var q := Ink(line, c.value);
      if q < |line| && line[q] == '"' && SpelledAt(line, q + 1, "x-ratelimit-", 0) then
        var e := HeaderEnd(line, q + 13);
        if e < |line| && line[e] == '"' then Some(line[q + 1..e]) else None
      else None
  }

  /** The first prohibited header that a call sets from `i` on. */
  function ProhibitedFrom(line: string, i: nat): Option<string>
    decreases |line| - i
  {
    if i >= |line| then None
    else if SiteAt(line, i).Some? then SiteAt(line, i)
    else ProhibitedFrom(line, i + 1)
  }

  function ProhibitedName(line: string): Option<string> { ProhibitedFrom(line, 0) }

  /** `line[i..c]` opens a call of `Header`, `Set` or `Add`, in any case. */
  ghost predicate Calls(line: string, i: nat, c: nat) {
    i < c <= |line| && line[i] == '.' && Lower(line[i + 1..c]) in {"header(", "set(", "add("}
  }

  /** At `q` stands the name in double quotes: `X-RateLimit-` in any case, then letters, digits and
      dashes. */
  ghost predicate Quotes(line: string, q: nat, name: string) {
    && q + 1 + |name| < |line| && line[q] == '"' && line[q + 1..q + 1 + |name|] == name
    && line[q + 1 + |name|] == '"'
    && |name| >= 12 && Lower(name[..12]) == "x-ratelimit-"
    && forall k :: 12 <= k < |name| ==> name[k] in LOWER || name[k] in UPPER || name[k] in "0123456789-"
  }

  ghost predicate SetsAt(line: string, i: nat, name: string) {
    exists c: nat, q: nat :: Calls(line, i, c) && c <= q <= |line| && AllSpace(line[c..q]) && Quotes(line, q, name)
  }

  lemma CallExactly(line: string, i: nat, c: nat)
    ensures CallEnd(line, i) == Some(c) <==> Calls(line, i, c)
  {
    SpelledExactly(line, i + 1, "header(");
    SpelledExactly(line, i + 1, "set(");
    SpelledExactly(line, i + 1, "add(");
    hide SpelledAt, Lower;
  }

  lemma HeaderChars(c: char)
    ensures HeaderChar(c) <==> c in LOWER || c in UPPER || c in "0123456789-"
  {
    Letters(c);
    hide LOWER, UPPER;
  }

  lemma QuotesExactly(line: string, q: nat, name: string)
    requires q < |line|
    ensures Quotes(line, q, name)
            <==> && line[q] == '"' && SpelledAt(line, q + 1, "x-ratelimit-", 0)
                 && var e := HeaderEnd(line, q + 13);
                    e < |line| && line[e] == '"' && name == line[q + 1..e]
  {
    hide SpelledAt, Lower, LOWER, UPPER, HeaderEnd, HeaderChar;
    SpelledExactly(line, q + 1, "x-ratelimit-");
    NameEndsExactly(line, q, q + 1 + |name|, name);
  }

  /** Where the quoted name at `q` ends. */
  lemma NameEndsExactly(line: string, q: nat, e: nat, name: string)
    ensures q + 13 <= e < |line| && line[e] == '"' && name == line[q + 1..e] ==>
              && name[..12] == line[q + 1..q + 13]
              && (HeaderEnd(line, q + 13) == e
                  <==> forall k :: 12 <= k < |name| ==> name[k] in LOWER || name[k] in UPPER || name[k] in "0123456789-")
  {
    if q + 13 <= e < |line| && line[e] == '"' && name == line[q + 1..e] {
      forall k | 12 <= k < |name|
        ensures name[k] == line[q + 13 + k - 12]
        ensures HeaderChar(name[k]) <==> name[k] in LOWER || name[k] in UPPER || name[k] in "0123456789-" {
        HeaderChars(name[k]);
      }
      hide HeaderChar, HeaderEnd, LOWER, UPPER;
      RunEndsExactly(line, q + 13, e, name);
    }
  }

  lemma RunEndsExactly(line: string, i: nat, e: nat, name: string)
    requires i <= e < |line| && line[e] == '"' && |name| >= 12 && e - i == |name| - 12
    requires forall k :: 12 <= k < |name| ==> name[k] == line[i + k - 12]
    ensures HeaderEnd(line, i) == e <==> forall k :: 12 <= k < |name| ==> HeaderChar(name[k])
  {
    hide HeaderEnd;
    if HeaderEnd(line, i) < e {
      assert name[HeaderEnd(line, i) - i + 12] == line[HeaderEnd(line, i)];
    }
  }

  lemma SiteExactly(line: string, i: nat, name: string)
    ensures SiteAt(line, i) == Some(name) <==> SetsAt(line, i, name)
  {
    hide Calls, CallEnd, SpelledAt, HeaderEnd, Quotes, IsSpace;
    if SiteAt(line, i) == Some(name) {
      var c := CallEnd(line, i).value;
      CallExactly(line, i, c);
      QuotesExactly(line, Ink(line, c), name);
      assert Calls(line, i, c) && AllSpace(line[c..Ink(line, c)]) && Quotes(line, Ink(line, c), name);
    }
    if SetsAt(line, i, name) {
      var c: nat, q: nat :| Calls(line, i, c) && c <= q <= |line| && AllSpace(line[c..q]) && Quotes(line, q, name);
      CallExactly(line, i, c);
      QuotesStart(line, q, name);
      QuotesExactly(line, q, name);
      InkAt(line, c, q);
    }
  }

  lemma QuotesStart(line: string, q: nat, name: string)
    requires Quotes(line, q, name)
    ensures q < |line| && line[q] == '"' && !IsSpace(line[q])
  {
  }

  lemma InkAt(line: string, c: nat, q: nat)
    requires c <= q < |line| && AllSpace(line[c..q]) && !IsSpace(line[q])
    ensures Ink(line, c) == q
  {
    hide IsSpace, Ink;
    forall k | c <= k < q ensures IsSpace(line[k]) {
      assert line[c..q][k - c] == line[k];
    }
  }

  /** A line sets a prohibited header exactly when a call has it as its first argument, and the header
      reported is that of the first such call. */
  lemma ProhibitedExactly(line: string, name: string)
    ensures ProhibitedName(line) == Some(name)
            <==> exists i: nat :: SetsAt(line, i, name) && forall j: nat, other :: j < i ==> !SetsAt(line, j, other)
  {
    FirstSite(line, 0, name);
    forall i: nat, n ensures SiteAt(line, i) == Some(n) <==> SetsAt(line, i, n) {
      SiteExactly(line, i, n);
    }
    hide SetsAt, SiteAt, ProhibitedFrom;
    forall j: nat ensures SiteAt(line, j).None? <==> forall other :: !SetsAt(line, j, other) {
      if SiteAt(line, j).Some? {
        assert SetsAt(line, j, SiteAt(line, j).value);
      }
    }
  }

  lemma {:induction false} FirstSite(line: string, i: nat, name: string)
    ensures ProhibitedFrom(line, i) == Some(name)
            <==> exists k: nat :: i <= k < |line| && SiteAt(line, k) == Some(name)
                                  && forall j: nat :: i <= j < k ==> SiteAt(line, j).None?
    ensures forall k :: k >= |line| ==> SiteAt(line, k).None?
    decreases |line| - i
  {
    hide SiteAt;
    forall k: nat | k >= |line| ensures SiteAt(line, k).None? {
      NoSitePast(line, k);
    }
    if i < |line| && SiteAt(line, i).None? {
      FirstSite(line, i + 1, name);
    }
  }

  lemma NoSitePast(line: string, k: nat)
    requires k >= |line|
    ensures SiteAt(line, k).None?
  {
  }

  // ----- 429 responses -----

  /** The other searches of the rule, as predicates on text. */
  datatype Patterns = Patterns(writes429: string -> bool, hasWriter: seq<string> -> bool,
                               setsRetryAfter: seq<string> -> bool)

  /** Python's slice of a list of lines. */
  function Slice(lines: seq<string>, start: nat, end: nat): seq<string>
    requires start <= end
  {
    if |lines| <= start then [] else lines[start..if end < |lines| then end else |lines|]
  }

  /** The slice holds the lines from `start` to before `end` that there are, in their order. */
  lemma SliceExactly(lines: seq<string>, start: nat, end: nat)
    requires start <= end
    ensures var r := Slice(lines, start, end);
            && (forall k :: 0 <= k < |r| ==> start + k < |lines| && r[k] == lines[start + k])
            && (if start >= |lines| then r == [] else if end < |lines| then start + |r| == end else start + |r| == |lines|)
  {
  }

  /** A 429 written by a function that has a response writer and sets no Retry-After anywhere in
      the lines of its span. The write and the writer are looked for in the blanked view, the
      header in the view that still shows literals. */
  ghost predicate Unguarded(code: seq<string>, plain: seq<string>, p: Patterns, i: nat) {
    && i < |code| && p.writes429(code[i])
    && exists s: nat, e: nat :: IsSpanStart(code, i, s) && IsSpanEnd(code, i, e)
                                && p.hasWriter(code[s..e]) && !p.setsRetryAfter(Slice(plain, s, e))
  }

  lemma SpanIsUnique(lines: seq<string>, i: nat, s: nat, e: nat)
    requires IsSpanStart(lines, i, s) && IsSpanEnd(lines, i, e)
    ensures forall t: nat, f: nat :: IsSpanStart(lines, i, t) && IsSpanEnd(lines, i, f) ==> t == s && f == e
  {
    forall t: nat, f: nat | IsSpanStart(lines, i, t) && IsSpanEnd(lines, i, f) ensures t == s && f == e {
      SpansTile(lines, i, s, e, i, t, f);
    }
  }

  method UnguardedLines(code: seq<string>, plain: seq<string>, p: Patterns) returns (sites: seq<nat>)
    ensures forall i: nat :: i in sites <==> Unguarded(code, plain, p, i)
    ensures forall j, k :: 0 <= j < k < |sites| ==> sites[j] < sites[k]
  {
    sites := [];
    for i := 0 to |code|
      invariant forall j: nat :: j in sites <==> j < i && Unguarded(code, plain, p, j)
      invariant forall j, k :: 0 <= j < k < |sites| ==> sites[j] < sites[k]
      invariant forall j :: 0 <= j < |sites| ==> sites[j] < i
    {
      if !p.writes429(code[i]) {
        continue;
      }
      var start, end := EnclosingFunctionSpan(code, i);
      SpanIsUnique(code, i, start, end);
      if p.hasWriter(code[start..end]) && !p.setsRetryAfter(Slice(plain, start, end)) {
        sites := sites + [i];
      }
    }
  }

  // ----- the reports -----

  datatype SourceFile = SourceFile(path: string, text: string)

  /** A report of the rule: a line of a file, counted from 1, and the header if it sets one. */
  datatype Violation =
    | SetsProhibited(path: string, line: nat, name: string)
    | NoRetryAfter(path: string, line: nat)

  ghost predicate ViolatesIn(file: SourceFile, p: Patterns, v: Violation) {
    && v.path == file.path && v.line >= 1
    && var plain := SplitLines(View(file.text, false));
       match v
       case SetsProhibited(_, line, name) => line <= |plain| && ProhibitedName(plain[line - 1]) == Some(name)
       case NoRetryAfter(_, line) => Unguarded(SplitLines(View(file.text, true)), plain, p, line - 1)
  }

  ghost predicate Violates(files: seq<SourceFile>, p: Patterns, v: Violation) {
    exists file :: file in files && ViolatesIn(file, p, v)
  }

  method Headers(path: string, plain: seq<string>) returns (vs: set<Violation>)
    ensures forall v: Violation ::
              v in vs <==> v.SetsProhibited? && v.path == path && 1 <= v.line <= |plain|
                           && ProhibitedName(plain[v.line - 1]) == Some(v.name)
  {
    hide ProhibitedName;
    vs := {};
    for i := 0 to |plain|
      invariant forall v: Violation ::
                  v in vs <==> v.SetsProhibited? && v.path == path && 1 <= v.line <= i
                               && ProhibitedName(plain[v.line - 1]) == Some(v.name)
    {
      var name := ProhibitedName(plain[i]);
      if name.Some? {
        vs := vs + {SetsProhibited(path, i + 1, name.value)};
      }
    }
  }

  method Writes(path: string, code: seq<string>, plain: seq<string>, p: Patterns) returns (vs: set<Violation>)
    ensures forall v: Violation ::
              v in vs <==> v.NoRetryAfter? && v.path == path && v.line >= 1 && Unguarded(code, plain, p, v.line - 1)
  {
    hide *;
    var sites := UnguardedLines(code, plain, p);
    vs := {};
    UnguardedIsLine(code, plain, p);
    for k := 0 to |sites|
      invariant forall v: Violation ::
                  v in vs <==> v.NoRetryAfter? && v.path == path && v.line >= 1 && v.line - 1 in sites[..k]
    {
      assert sites[..k + 1] == sites[..k] + [sites[k]];
      vs := vs + {NoRetryAfter(path, sites[k] + 1)};
    }
    assert sites[..|sites|] == sites;
  }

  lemma UnguardedIsLine(code: seq<string>, plain: seq<string>, p: Patterns)
    ensures forall i: nat :: Unguarded(code, plain, p, i) ==> i < |code|
  {
  }

  /** The violations in one source file, from its two views. */
  method ViolationsIn(file: SourceFile, p: Patterns) returns (vs: set<Violation>)
    ensures forall v: Violation :: v in vs <==> ViolatesIn(file, p, v)
  {
    hide Unguarded, View, SplitLines, ProhibitedName;
    var blanked := GoLexer.StripGoComments(file.text, true);
    var stripped := GoLexer.StripGoComments(file.text, false);
    var plain := SplitLines(stripped);
    var headers := Headers(file.path, plain);
    var writes := Writes(file.path, SplitLines(blanked), plain, p);
    vs := headers + writes;
  }

  const MARK := "X-RateLimit"

  /** The report's text holds the mark by which reports of headers are counted: in its path, or in
      the spelling of its header. */
  predicate Marked(v: Violation) {
    Contains(v.path, MARK) || (v.SetsProhibited? && Contains(v.name, MARK))
  }

  function MarkedIn(vs: set<Violation>): set<Violation> { set v | v in vs && Marked(v) }

  function HeadersIn(vs: set<Violation>): set<Violation> { set v | v in vs && v.SetsProhibited? }

  /** What the rate-limit rule reports over a service's sources, and how many of the reports it
      counts as prohibited headers. */
  method StandardRatelimitFields(files: seq<SourceFile>, p: Patterns) returns (vs: set<Violation>, xrl: nat)
    ensures forall v: Violation :: v in vs <==> Violates(files, p, v)
    ensures xrl == |MarkedIn(vs)|
  {
    hide ViolatesIn;
    vs := {};
    for k := 0 to |files|
      invariant forall v: Violation :: v in vs <==> Violates(files[..k], p, v)
    {
      assert files[..k + 1] == files[..k] + [files[k]];
      var more := ViolationsIn(files[k], p);
      vs := vs + more;
    }
    assert files[..|files|] == files;
    xrl := CountMarked(vs);
  }

  method CountMarked(vs: set<Violation>) returns (n: nat)
    ensures n == |MarkedIn(vs)|
  {
    hide Marked;
    n := 0;
    var todo := vs;
    ghost var counted: set<Violation> := {};
    while todo != {}
      invariant todo <= vs && n == |counted|
      invariant forall v :: v in counted <==> v in vs && v !in todo && Marked(v)
      decreases |todo|
    {
      var v :| v in todo;
      todo := todo - {v};
      if Marked(v) {
        counted := counted + {v};
        n := n + 1;
      }
    }
    assert counted == MarkedIn(vs);
  }

  // ----- what the count says -----

  /** The counted reports are the reports of headers exactly when every header is spelled with the
      mark, or stands in a file whose path has it, and no 429 is reported in such a file. The
      numbers agree exactly when as many headers are missed as 429 responses are counted. */
  lemma CountsHeadersExactly(vs: set<Violation>)
    ensures MarkedIn(vs) == HeadersIn(vs)
            <==> forall v :: v in vs ==>
                   if v.SetsProhibited? then Contains(v.name, MARK) || Contains(v.path, MARK)
                   else !Contains(v.path, MARK)
    ensures |MarkedIn(vs)| == |HeadersIn(vs)|
            <==> |HeadersIn(vs) - MarkedIn(vs)| == |MarkedIn(vs) - HeadersIn(vs)|
  {
    hide Contains, MARK;
    var m, h := MarkedIn(vs), HeadersIn(vs);
    assert m == (m * h) + (m - h) && h == (m * h) + (h - m);
    assert forall v :: v in vs ==> (v in m <==> Marked(v)) && (v in h <==> v.SetsProhibited?);
  }

  // ----- a header in Go's own spelling -----

  const CANONICAL_NAME := "X-Ratelimit-Limit"
  const CANONICAL_SET := "w.Header().Set(\"" + CANONICAL_NAME + "\", \"5\")"

  lemma CanonicalCalls()
    ensures SpelledAt(CANONICAL_SET, 2, "header(", 0) && SpelledAt(CANONICAL_SET, 11, "set(", 0)
    ensures !SpelledAt(CANONICAL_SET, 11, "header(", 0)
  {
    var s := CANONICAL_SET;
    assert SpelledAt(s, 9, "header(", 7);
    assert SpelledAt(s, 8, "header(", 6);
    assert SpelledAt(s, 7, "header(", 5);
    assert SpelledAt(s, 6, "header(", 4);
    assert SpelledAt(s, 5, "header(", 3);
    assert SpelledAt(s, 4, "header(", 2);
    assert SpelledAt(s, 3, "header(", 1);
    assert SpelledAt(s, 2, "header(", 0);
    assert SpelledAt(s, 15, "set(", 4);
    assert SpelledAt(s, 14, "set(", 3);
    assert SpelledAt(s, 13, "set(", 2);
    assert SpelledAt(s, 12, "set(", 1);
    assert SpelledAt(s, 11, "set(", 0);
  }

  lemma CanonicalMark()
    ensures SpelledAt(CANONICAL_SET, 16, "x-ratelimit-", 0)
  {
    var s := CANONICAL_SET;
    assert SpelledAt(s, 28, "x-ratelimit-", 12);
    assert SpelledAt(s, 27, "x-ratelimit-", 11);
    assert SpelledAt(s, 26, "x-ratelimit-", 10);
    assert SpelledAt(s, 25, "x-ratelimit-", 9);
    assert SpelledAt(s, 24, "x-ratelimit-", 8);
    assert SpelledAt(s, 23, "x-ratelimit-", 7);
    assert SpelledAt(s, 22, "x-ratelimit-", 6);
    assert SpelledAt(s, 21, "x-ratelimit-", 5);
    assert SpelledAt(s, 20, "x-ratelimit-", 4);
    assert SpelledAt(s, 19, "x-ratelimit-", 3);
    assert SpelledAt(s, 18, "x-ratelimit-", 2);
    assert SpelledAt(s, 17, "x-ratelimit-", 1);
    assert SpelledAt(s, 16, "x-ratelimit-", 0);
  }

  lemma CanonicalName()
    ensures HeaderEnd(CANONICAL_SET, 28) == 33 && CANONICAL_SET[16..33] == CANONICAL_NAME
  {
    var s := CANONICAL_SET;
    assert HeaderEnd(s, 33) == 33;
    assert HeaderEnd(s, 32) == 33;
    assert HeaderEnd(s, 31) == 33;
    assert HeaderEnd(s, 30) == 33;
    assert HeaderEnd(s, 29) == 33;
  }

  lemma CanonicalChars()
    ensures |CANONICAL_SET| == 40 && CANONICAL_SET[1] == '.' && CANONICAL_SET[10] == '.'
    ensures forall k :: 2 <= k < 10 || k == 0 ==> CANONICAL_SET[k] != '.'
    ensures CANONICAL_SET[9] == ')' && CANONICAL_SET[15] == '"' && CANONICAL_SET[33] == '"'
  {
  }

  lemma CanonicalSites()
    ensures forall k :: 0 <= k < 10 ==> SiteAt(CANONICAL_SET, k) == None
    ensures SiteAt(CANONICAL_SET, 10) == Some(CANONICAL_NAME) && |CANONICAL_SET| == 40
  {
    CanonicalCalls();
    CanonicalMark();
    CanonicalName();
    CanonicalChars();
    hide CANONICAL_SET, SpelledAt, HeaderEnd, CANONICAL_NAME;
    var s := CANONICAL_SET;
    assert Ink(s, 9) == 9 && Ink(s, 15) == 15;
  }

  lemma {:induction false} SkipsTo(line: string, i: nat, k: nat)
    requires i <= k < |line| && forall j :: i <= j < k ==> SiteAt(line, j).None?
    ensures ProhibitedFrom(line, i) == ProhibitedFrom(line, k)
    decreases k - i
  {
    hide SiteAt;
    if i < k {
      SkipsTo(line, i + 1, k);
    }
  }

  /** Text without a slash has no comment, so stripping comments leaves it as it is. */
  lemma NoCommentToStrip(text: string)
    requires forall k :: 0 <= k < |text| ==> text[k] != '/'
    ensures View(text, false) == text
  {
    hide ShownIn, KindAt, Start;
    forall k | 0 <= k < |text| ensures Shown(text, k, false) == text[k] {
      NoCommentShown(text, Start(text, k), k);
    }
  }

  lemma NoCommentShown(text: string, a: nat, k: nat)
    requires a < |text| && k < |text| && forall j :: 0 <= j < |text| ==> text[j] != '/'
    ensures ShownIn(text, a, k, false) == text[k]
  {
    hide CloseAt;
    assert KindAt(text, a) !in {LineComment, BlockComment};
  }

  lemma OneLineText(text: string)
    requires text != "" && forall k :: 0 <= k < |text| ==> text[k] != '\n'
    ensures SplitLines(text) == [text]
  {
    assert LineEnd(text, 0) == |text|;
    assert LinesFrom(text, 0) == [Line(0, |text|)];
    assert text[0..|text|] == text;
  }

  lemma NotMarked()
    ensures !Contains(CANONICAL_NAME, MARK)
  {
    var n := CANONICAL_NAME;
    forall i: nat ensures !Occurs(n, i, MARK) {
      if i + |MARK| <= |n| {
        assert n[i..i + |MARK|][2] == n[i + 2] && n[i..i + |MARK|][6] == n[i + 6];
        assert n[i + 2] != 'R' || n[i + 6] != 'L';
      }
    }
  }

  /** A service whose one source file sets the header in the spelling Go itself gives it: the rule
      reports the header, and does not count it as one. */
  lemma CanonicalHeaderIsNotCounted(p: Patterns)
    ensures var report := SetsProhibited("main.go", 1, CANONICAL_NAME);
            Violates([SourceFile("main.go", CANONICAL_SET)], p, report) && !Marked(report)
  {
    CanonicalSites();
    CanonicalPlain();
    NotMarked();
    NotInPath();
    hide CANONICAL_SET, CANONICAL_NAME, MARK, SiteAt, View, SplitLines, Contains;
    NoCommentToStrip(CANONICAL_SET);
    OneLineText(CANONICAL_SET);
    SkipsTo(CANONICAL_SET, 0, 10);
    OneLineReported("main.go", CANONICAL_SET, CANONICAL_NAME, p);
  }

  /** In a file of one line, the header of that line is reported. */
  lemma OneLineReported(path: string, line: string, name: string, p: Patterns)
    requires SplitLines(View(line, false)) == [line] && ProhibitedName(line) == Some(name)
    ensures Violates([SourceFile(path, line)], p, SetsProhibited(path, 1, name))
  {
    hide View, SplitLines, ProhibitedName;
    var file := SourceFile(path, line);
    assert ViolatesIn(file, p, SetsProhibited(path, 1, name));
    assert file in [file];
  }

  lemma CanonicalPlain()
    ensures CANONICAL_SET != "" && forall k :: 0 <= k < |CANONICAL_SET| ==> CANONICAL_SET[k] !in {'/', '\n'}
  {
  }

  lemma NotInPath()
    ensures !Contains("main.go", MARK)
  {
  }
}
