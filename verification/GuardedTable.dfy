// A statement whose first parentheses are not those of its CREATE TABLE.
module GuardedTable {
  import opened Common
  import opened Lines
  import opened CreateTable
  import opened SqlStatements
  import opened SqlColumns

  const GUARD := "DO $$ BEGIN IF NOT EXISTS "
  const QUERY := "SELECT 1 FROM t"
  const CREATE := "CREATE TABLE u "
  const FIELDS := "id int"
  const BEFORE := GUARD + "(" + QUERY + ") THEN "
  const GUARDED := BEFORE + CREATE + "(" + FIELDS + "); END IF; END $$"

  lemma GuardChars()
    ensures |BEFORE| == 49 && BEFORE[26] == '(' && BEFORE[42] == ')' && BEFORE[48] == ' ' && BEFORE[27..42] == QUERY
    ensures forall k :: 0 <= k < 26 ==> BEFORE[k] !in {'c', 'C', '(', ')', ',', '\n'}
    ensures forall k :: 27 <= k < 42 ==> BEFORE[k] !in {'(', ')', ',', '\n', 'c'} && (BEFORE[k] == 'C' <==> k == 31)
    ensures forall k :: 43 <= k < 49 ==> BEFORE[k] !in {'c', 'C', '('}
    ensures IsWordChar(BEFORE[30])
  {
    assert forall k :: 0 <= k < 26 ==> BEFORE[k] == GUARD[k];
    assert forall k :: 27 <= k < 42 ==> BEFORE[k] == QUERY[k - 27];
  }

  lemma GuardedChars()
    ensures |GUARDED| == 88 && |BEFORE| == 49 && forall k :: 0 <= k < 49 ==> GUARDED[k] == BEFORE[k]
    ensures GUARDED[27..42] == BEFORE[27..42] && GUARDED[65..71] == FIELDS
    ensures GUARDED[62] == 'u' && GUARDED[63] == ' ' && GUARDED[64] == '(' && GUARDED[71] == ')'
    ensures GUARDED[56] == 'T' && GUARDED[55] == GUARDED[61] == ' '
    ensures forall k :: 65 <= k < 71 ==> GUARDED[k] !in {'(', ')'}
  {
    assert forall k :: 65 <= k < 71 ==> GUARDED[k] == FIELDS[k - 65];
  }

  lemma CreateReads()
    ensures SpelledAt(GUARDED, 49, "create", 0) && SpelledAt(GUARDED, 56, "table", 0)
  {
    var s := GUARDED;
    assert SpelledAt(s, 55, "create", 6);
    assert SpelledAt(s, 54, "create", 5);
    assert SpelledAt(s, 53, "create", 4);
    assert SpelledAt(s, 52, "create", 3);
    assert SpelledAt(s, 51, "create", 2);
    assert SpelledAt(s, 50, "create", 1);
    assert SpelledAt(s, 49, "create", 0);
    assert SpelledAt(s, 61, "table", 5);
    assert SpelledAt(s, 60, "table", 4);
    assert SpelledAt(s, 59, "table", 3);
    assert SpelledAt(s, 58, "table", 2);
    assert SpelledAt(s, 57, "table", 1);
    assert SpelledAt(s, 56, "table", 0);
  }

  lemma CreateStands()
    ensures CreateAt(GUARDED, 49) == Some(63)
  {
    GuardChars();
    GuardedChars();
    CreateReads();
    hide GUARDED, BEFORE, SpelledAt;
    assert Ink(GUARDED, 55) == 56 && Ink(GUARDED, 61) == 62;
    NoIf(GUARDED, 62);
    assert NameRun(GUARDED, 63) == 63;
  }

  lemma NoIf(s: string, i: nat)
    requires i < |s| && s[i] == 'u'
    ensures AfterIfNotExists(s, i).None?
  {
    assert !SpelledAt(s, i, "if", 0);
  }

  lemma NoneBefore(k: nat)
    requires k < 49
    ensures CreateAt(GUARDED, k).None?
  {
    GuardChars();
    GuardedChars();
    hide GUARDED, BEFORE, AfterIfNotExists, NameRun;
    assert GUARDED[k] in {'c', 'C'} ==> k == 31;
    assert GUARDED[k] !in {'c', 'C'} ==> !SpelledAt(GUARDED, k, "create", 0);
  }

  lemma CreateEndsAt63()
    ensures CreateEnd(GUARDED) == Some(63)
  {
    CreateStands();
    hide GUARDED, CreateAt;
    forall k: nat | k < 49 ensures CreateAt(GUARDED, k).None? {
      NoneBefore(k);
    }
    CreateFound(GUARDED, 0, 49);
  }

  /** Parentheses without others inside close at the first closing one. */
  lemma {:induction false} DepthInside(s: string, open: nat, k: nat)
    requires open < k <= |s| && s[open] == '(' && forall j :: open < j < k ==> s[j] !in {'(', ')'}
    ensures Depth(s, open, k) == 1
    decreases k
  {
    if k > open + 1 {
      DepthInside(s, open, k - 1);
    }
  }

  lemma SimpleBody(s: string, open: nat, c: nat)
    requires open < c < |s| && s[open] == '(' && s[c] == ')' && forall j :: open < j < c ==> s[j] !in {'(', ')'}
    ensures BodyEnd(s, open) == c
  {
    DepthInside(s, open, c);
    hide Depth, BodyEnd;
    assert Depth(s, open, c + 1) == 0 by { DepthStep(s, open, c); }
    SearchEnds(s, open, c);
  }

  lemma DepthStep(s: string, open: nat, c: nat)
    requires open <= c < |s|
    ensures Depth(s, open, c + 1) == Depth(s, open, c) + Level(s[c])
    ensures s[c] == ')' ==> Level(s[c]) == -1
  {
  }

  lemma SearchEnds(s: string, open: nat, c: nat)
    requires open < c < |s| && s[open] == '(' && s[c] == ')' && Depth(s, open, c + 1) == 0
    requires forall j :: open < j < c ==> s[j] != ')'
    ensures BodyEnd(s, open) == c
  {
  }

  lemma GuardedBodies()
    ensures BodyOf(GUARDED) == Slice(27, 42) && OwnBody(GUARDED, 63) == Slice(65, 71) && |GUARDED| == 88
    ensures GUARDED[27..42] == QUERY && GUARDED[65..71] == FIELDS
    ensures forall k :: 0 <= k < 27 ==> GUARDED[k] != '\n'
  {
    GuardChars();
    GuardedChars();
    hide GUARDED, BEFORE, BodyEnd;
    assert FirstChar(GUARDED, 0, '(') == 26 && FirstChar(GUARDED, 63, '(') == 64;
    SimpleBody(GUARDED, 26, 42);
    SimpleBody(GUARDED, 64, 71);
  }

  lemma QueryName()
    ensures NameIn(QUERY) == Some(Slice(0, 6)) && Lower(QUERY[0..6]) == "select"
    ensures Parts(QUERY, 0) == [Slice(0, 15)] && |QUERY| == 15
  {
    QueryChars();
    hide QUERY, NameIn, Parts, Lower, CONSTRAINT_KW;
    QueryIsOnePart(QUERY);
    NameInExactly(QUERY, Slice(0, 6));
  }

  lemma QueryChars()
    ensures |QUERY| == 15 && QUERY[6] == ' ' && !IsSpace(QUERY[0])
    ensures forall k :: 0 <= k < 6 ==> IsWordChar(QUERY[k])
    ensures forall k :: 0 <= k < 15 ==> QUERY[k] != ','
    ensures Lower(QUERY[0..6]) == "select" && "select" !in CONSTRAINT_KW
  {
    assert QUERY[0..6] == "SELECT";
    assert Lower("SELECT") == "select";
  }

  lemma QueryIsOnePart(b: string)
    requires b != "" && !IsSpace(b[0]) && forall k :: 0 <= k < |b| ==> b[k] != ','
    ensures Parts(b, 0) == [Slice(0, |b|)]
  {
    assert NextComma(b, 0) == |b|;
  }

  /** From the guarded CREATE TABLE the code reports a column named for the guard's query, and misses
      the table's own. */
  lemma GuardIsReadForTheTable()
    ensures CreateEnd(GUARDED) == Some(63)
    ensures var own := OwnBody(GUARDED, 63);
            GUARDED[own.from..own.to] == FIELDS && BodyOf(GUARDED) != own
    ensures TableColumns(GUARDED, 1) == [Column("select", 1)]
  {
    CreateEndsAt63();
    GuardedBodies();
    QueryName();
    hide GUARDED, BEFORE, QUERY, FIELDS, CreateEnd, BodyOf, OwnBody, Parts, NameIn, Lower;
    var s := GUARDED;
    assert s[27..33] == QUERY[0..6] by { SlicesNest(s, 27, 42, 0, 6); }
    NoNewlines(s[..27]);
    assert ColumnAt(s, 1, 27, 42) == Some(Column("select", 1));
    var parts := [Slice(0, 15)];
    assert ColumnsOf(s, 1, 27, parts, 1) == [];
    assert ColumnsOf(s, 1, 27, parts, 0) == [Column("select", 1)];
  }
}
