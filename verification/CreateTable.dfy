// Finding the CREATE TABLE of a statement.
module CreateTable {
  import opened Common
  import opened Lines

  /** A character of a table name, its schema included. */
  predicate NameChar(c: char) { IsWordChar(c) || c == '.' }

  function NameRun(text: string, i: nat): (e: nat)
    requires i <= |text|
    ensures i <= e <= |text| && forall k :: i <= k < e ==> NameChar(text[k])
    decreases |text| - i
  {
    if i < |text| && NameChar(text[i]) then NameRun(text, i + 1) else i
  }

  /** The word at `i`, in any case, and the white space that must follow it: where they end. */
  function AfterWord(text: string, i: nat, word: string): (e: Option<nat>)
    ensures e.Some? ==> i + |word| < e.value <= |text|
    ensures e.Some? ==> SpelledAt(text, i, word, 0) && forall k :: i + |word| <= k < e.value ==> IsSpace(text[k])
  {
    if SpelledAt(text, i, word, 0) && i + |word| <= |text| && Ink(text, i + |word|) > i + |word|
    then Some(Ink(text, i + |word|))
    else None
  }

  function AfterIfNotExists(text: string, i: nat): (e: Option<nat>)
    ensures e.Some? ==> i < e.value <= |text|
  {
    var a := AfterWord(text, i, "if");
    if a.None? then None
    else
      var b := AfterWord(text, a.value, "not");
      if b.None? then None else AfterWord(text, b.value, "exists")
  }

  /** Where the CREATE TABLE that begins at `i` ends, its name included. */
  function CreateAt(text: string, i: nat): (e: Option<nat>)
    ensures e.Some? ==> i < e.value <= |text|
  {
    if i >= |text| || (i > 0 && IsWordChar(text[i - 1])) then None
    else
      var a := AfterWord(text, i, "create");
      if a.None? then None
      else
        var b := AfterWord(text, a.value, "table");
        if b.None? then None
        else
          var n := AfterIfNotExists(text, b.value);
          var name := if n.Some? && n.value < |text| && NameChar(text[n.value]) then n.value else b.value;
          if name < |text| && NameChar(text[name]) then Some(NameRun(text, name)) else None
  }

  function CreateFrom(text: string, i: nat): (e: Option<nat>)
    ensures e.Some? ==> e.value <= |text|
    decreases |text| - i
  {
    if i >= |text| then None
    else if CreateAt(text, i).Some? then CreateAt(text, i)
    else CreateFrom(text, i + 1)
  }

  /** Where the first CREATE TABLE of the statement ends. */
  function CreateEnd(text: string): (e: Option<nat>)
    ensures e.Some? ==> e.value <= |text|
  {
    CreateFrom(text, 0)
  }

  // The statement, word by word.

  /** From `i` to `e` stands the word, in any case, and all the white space after it, at least one. */
  ghost predicate WordAt(text: string, i: nat, word: string, e: nat) {
    && i + |word| < e <= |text| && Lower(text[i..i + |word|]) == word
    && AllSpace(text[i + |word|..e]) && (e < |text| ==> !IsSpace(text[e]))
  }

  /** From `i` to `e` stands a table name, its schema included, as long as it goes. */
  ghost predicate NameAt(text: string, i: nat, e: nat) {
    && i < e <= |text| && (forall k :: i <= k < e ==> IsWordChar(text[k]) || text[k] == '.')
    && (e < |text| ==> !IsWordChar(text[e]) && text[e] != '.')
  }

  ghost predicate CreateTableAt(text: string, i: nat, t: nat) {
    exists b: nat :: WordAt(text, i, "create", b) && WordAt(text, b, "table", t)
  }

  ghost predicate IfNotExistsAt(text: string, t: nat, n: nat) {
    exists a: nat, b: nat :: WordAt(text, t, "if", a) && WordAt(text, a, "not", b) && WordAt(text, b, "exists", n)
  }

  lemma AfterWordExactly(text: string, i: nat, word: string, e: nat)
    requires word != ""
    ensures AfterWord(text, i, word) == Some(e) <==> WordAt(text, i, word, e)
  {
    SpelledExactly(text, i, word);
    hide SpelledAt, Lower, IsSpace, Ink;
    if WordAt(text, i, word, e) {
      forall k | i + |word| <= k < e ensures IsSpace(text[k]) {
        assert text[i + |word|..e][k - (i + |word|)] == text[k];
      }
    }
  }

  lemma NameRunExactly(text: string, i: nat, e: nat)
    requires i < |text|
    ensures NameAt(text, i, e) <==> NameChar(text[i]) && e == NameRun(text, i)
  {
    NameRunStops(text, i);
  }

  lemma {:induction false} NameRunStops(text: string, i: nat)
    requires i <= |text|
    ensures NameRun(text, i) < |text| ==> !NameChar(text[NameRun(text, i)])
    decreases |text| - i
  {
    if i < |text| && NameChar(text[i]) {
      NameRunStops(text, i + 1);
    }
  }

  lemma IfNotExistsExactly(text: string, t: nat, n: nat)
    ensures AfterIfNotExists(text, t) == Some(n) <==> IfNotExistsAt(text, t, n)
  {
    forall i: nat, e: nat
      ensures AfterWord(text, i, "if") == Some(e) <==> WordAt(text, i, "if", e)
      ensures AfterWord(text, i, "not") == Some(e) <==> WordAt(text, i, "not", e)
      ensures AfterWord(text, i, "exists") == Some(e) <==> WordAt(text, i, "exists", e)
    {
      AfterWordExactly(text, i, "if", e);
      AfterWordExactly(text, i, "not", e);
      AfterWordExactly(text, i, "exists", e);
    }
    hide AfterWord, WordAt;
  }

  /** Where the name of a created table stands, after its CREATE TABLE that ends at `t`. */
  ghost predicate NamedAt(text: string, t: nat, n: nat, e: nat) {
    && NameAt(text, n, e)
    && (IfNotExistsAt(text, t, n)
        || (n == t && forall m: nat, f: nat :: IfNotExistsAt(text, t, m) ==> !NameAt(text, m, f)))
  }

  /** Where a CREATE TABLE at `i` ends: with the name after IF NOT EXISTS if a name stands there, and
      else with the name after TABLE. */
  lemma CreateExactly(text: string, i: nat, e: nat)
    ensures CreateAt(text, i) == Some(e)
            <==> && i < |text| && (i > 0 ==> !IsWordChar(text[i - 1]))
                 && exists t: nat, n: nat :: CreateTableAt(text, i, t) && NamedAt(text, t, n, e)
  {
    hide IsWordChar, AfterWord, AfterIfNotExists, NameRun, NameChar, NamedAt, CreateTableAt;
    forall t: nat
      ensures CreateTableAt(text, i, t)
              <==> AfterWord(text, i, "create").Some?
                   && AfterWord(text, AfterWord(text, i, "create").value, "table") == Some(t)
    {
      CreateTableExactly(text, i, t);
    }
    forall t: nat, n: nat ensures NamedAt(text, t, n, e) <==> Named(text, t, n, e) {
      NamedExactly(text, t, n, e);
    }
    if CreateAt(text, i) == Some(e) {
      var t := AfterWord(text, AfterWord(text, i, "create").value, "table").value;
      var m := AfterIfNotExists(text, t);
      var n := if m.Some? && m.value < |text| && NameChar(text[m.value]) then m.value else t;
      assert CreateTableAt(text, i, t) && NamedAt(text, t, n, e);
    }
  }

  lemma CreateTableExactly(text: string, i: nat, t: nat)
    ensures CreateTableAt(text, i, t)
            <==> AfterWord(text, i, "create").Some?
                 && AfterWord(text, AfterWord(text, i, "create").value, "table") == Some(t)
  {
    forall b: nat
      ensures AfterWord(text, i, "create") == Some(b) <==> WordAt(text, i, "create", b)
      ensures AfterWord(text, b, "table") == Some(t) <==> WordAt(text, b, "table", t)
    {
      AfterWordExactly(text, i, "create", b);
      AfterWordExactly(text, b, "table", t);
    }
    hide AfterWord, WordAt;
  }

  predicate Named(text: string, t: nat, n: nat, e: nat) {
    var m := AfterIfNotExists(text, t);
    && n < |text| && NameChar(text[n]) && e == NameRun(text, n)
    && n == if m.Some? && m.value < |text| && NameChar(text[m.value]) then m.value else t
  }

  lemma NamedExactly(text: string, t: nat, n: nat, e: nat)
    ensures NamedAt(text, t, n, e) <==> Named(text, t, n, e)
  {
    hide IfNotExistsAt, AfterIfNotExists, NameAt, NameChar, NameRun;
    forall m: nat
      ensures AfterIfNotExists(text, t) == Some(m) <==> IfNotExistsAt(text, t, m)
      ensures NameAt(text, m, e) <==> m < |text| && NameChar(text[m]) && e == NameRun(text, m)
      ensures (exists f: nat :: NameAt(text, m, f)) <==> m < |text| && NameChar(text[m])
    {
      IfNotExistsExactly(text, t, m);
      SomeName(text, m);
      NameStands(text, m, e);
    }
  }

  lemma SomeName(text: string, m: nat)
    ensures (exists f: nat :: NameAt(text, m, f)) <==> m < |text| && NameChar(text[m])
  {
    if m < |text| && NameChar(text[m]) {
      NameRunExactly(text, m, NameRun(text, m));
    }
  }

  lemma NameStands(text: string, m: nat, e: nat)
    ensures NameAt(text, m, e) <==> m < |text| && NameChar(text[m]) && e == NameRun(text, m)
  {
    if m < |text| {
      NameRunExactly(text, m, e);
    }
  }

  /** The CREATE TABLE of a statement is the first that stands in it. */
  lemma {:induction false} FirstCreate(text: string, i: nat, e: nat)
    ensures CreateFrom(text, i) == Some(e)
            <==> exists k :: i <= k < |text| && CreateAt(text, k) == Some(e) && forall j :: i <= j < k ==> CreateAt(text, j).None?
    decreases |text| - i
  {
    hide CreateAt;
    if i < |text| && CreateAt(text, i).None? {
      FirstCreate(text, i + 1, e);
    }
  }

  lemma {:induction false} CreateFound(text: string, i: nat, at: nat)
    requires i <= at && CreateAt(text, at).Some? && forall k :: i <= k < at ==> CreateAt(text, k).None?
    ensures CreateFrom(text, i) == CreateAt(text, at)
    decreases at - i
  {
    hide CreateAt;
    if i < at {
      CreateFound(text, i + 1, at);
    }
  }
}
