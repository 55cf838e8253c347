// The commands that edit the reference file: stage, promote and drop.
module Editors {
  import opened Common
  import opened Reference
  import opened Transition

  type Members = map<string, Json>

  // ----- what each command writes -----

  /** The members of a document that make up one set. */
  function SetBody(doc: Members): Members {
    map k | k in doc && k in SET_KEYS :: doc[k]
  }

  function StagedDoc(doc: Members, emitted: Members): Members {
    doc["next" := Obj(SetBody(emitted))]
  }

  function PromotedDoc(doc: Members): Members
    requires "next" in doc && doc["next"].Obj?
  {
    (map k | k in doc && k !in SET_KEYS + {"next"} :: doc[k])
    + doc["next"].members + map["previous" := Obj(SetBody(doc))]
  }

  function DroppedDoc(doc: Members, role: string): Members { doc - {role} }

  // ----- what the written document means -----

  lemma KeysAreDistinct()
    ensures "next" != "previous" && EXTRA_KEYS !! SET_KEYS
  {
    assert "next"[0] == 'n' && "previous"[0] == 'p' && "_comment"[0] == '_'
           && "components"[0] == 'c' && "source"[0] == 's';
  }

  /** Staging is accepted exactly for an emitted vintage that is newer than current, and then
      it is the step of its name. */
  lemma StageIsStage(doc: Members, emitted: Members, a: Projection, b: Projection)
    requires ParseReference(Obj(doc)) == Ok(Alone(a)) && ParseReference(Obj(emitted)) == Ok(Alone(b))
    ensures var staged := ParseReference(Obj(StagedDoc(doc, emitted)));
            && (staged.Ok? <==> Comparable(a, b) && Newer(b, a))
            && (staged.Ok? ==> staged.value == WithNext(a, b))
    ensures TransitionProblems(Some(Alone(a)), WithNext(a, b), None) == Passes(Stage)
  {
    hide Comparable, Newer;
    KeysAreDistinct();
    ParseAcceptsExactly(Obj(doc), Alone(a));
    ParseAcceptsExactly(Obj(emitted), Alone(b));
    var staged := StagedDoc(doc, emitted);
    assert SetBody(emitted) == emitted;
    assert Describes(Obj(staged), WithNext(a, b));
    ParseAcceptsExactly(Obj(staged), WithNext(a, b));
    match ParseReference(Obj(staged)) {
      case Ok(w) => ParseAcceptsExactly(Obj(staged), w);
      case Err(_) =>
    }
  }

  /** Promoting is never refused on a valid document that carries `next`. */
  lemma PromoteIsPromote(doc: Members, a: Projection, b: Projection)
    requires ParseReference(Obj(doc)) == Ok(WithNext(a, b))
    ensures "next" in doc && doc["next"].Obj?
    ensures ParseReference(Obj(PromotedDoc(doc))) == Ok(WithPrevious(b, a))
    ensures TransitionProblems(Some(WithNext(a, b)), WithPrevious(b, a), None) == Passes(Promote)
  {
    hide ParseReference, Comparable, Newer, Window.Valid;
    KeysAreDistinct();
    ParseAcceptsExactly(Obj(doc), WithNext(a, b));
    PromotionKeepsOrder(a, b);
    var promoted := PromotedDoc(doc);
    assert promoted["previous"] == Obj(SetBody(doc));
    assert Describes(Obj(promoted), WithPrevious(b, a));
    ParseAcceptsExactly(Obj(promoted), WithPrevious(b, a));
  }

  /** Dropping the extra set leaves current alone, and is an abandon or a close. */
  lemma DropLeavesCurrent(doc: Members, w: Window)
    requires ParseReference(Obj(doc)) == Ok(w) && !w.Alone?
    ensures ParseReference(Obj(DroppedDoc(doc, if w.WithNext? then "next" else "previous")))
            == Ok(Alone(w.current))
    ensures TransitionProblems(Some(w), Alone(w.current), None)
            == Passes(if w.WithNext? then Abandon else Close)
  {
    hide Comparable, Newer, Projection.Valid;
    KeysAreDistinct();
    ParseAcceptsExactly(Obj(doc), w);
    var dropped := DroppedDoc(doc, if w.WithNext? then "next" else "previous");
    assert Describes(Obj(dropped), Alone(w.current));
    ParseAcceptsExactly(Obj(dropped), Alone(w.current));
  }

  /** Staging adds the emitted document whole, its comment included. */
  lemma StagedExactly(doc: Members, emitted: Members, b: Projection)
    requires ParseReference(Obj(emitted)) == Ok(Alone(b))
    ensures StagedDoc(doc, emitted) == doc["next" := Obj(emitted)]
  {
    hide ParseReference, DescribesSet;
    KeysAreDistinct();
    ParseAcceptsExactly(Obj(emitted), Alone(b));
    assert emitted.Keys <= SET_KEYS;
    assert SetBody(emitted) == emitted;
  }

  /** Promoting puts the staged document on top and all the rest under `previous`, comments included. */
  lemma PromotedExactly(doc: Members, a: Projection, b: Projection)
    requires ParseReference(Obj(doc)) == Ok(WithNext(a, b))
    ensures "next" in doc && doc["next"].Obj?
    ensures PromotedDoc(doc) == doc["next"].members["previous" := Obj(doc - {"next"})]
  {
    hide ParseReference, DescribesSet;
    KeysAreDistinct();
    ParseAcceptsExactly(Obj(doc), WithNext(a, b));
    WithNextKeys(doc, WithNext(a, b));
    hide *;
    PromotedMembers(doc);
  }

  lemma WithNextKeys(doc: Members, w: Window)
    requires Describes(Obj(doc), w) && w.WithNext?
    ensures "next" in doc && doc["next"].Obj? && forall k :: k in doc ==> k in SET_KEYS || k == "next"
  {
    hide SET_KEYS, DescribesSet;
  }

  lemma PromotedMembers(doc: Members)
    requires "next" in doc && doc["next"].Obj? && "next" !in SET_KEYS
    requires forall k :: k in doc ==> k in SET_KEYS || k == "next"
    ensures PromotedDoc(doc) == doc["next"].members["previous" := Obj(doc - {"next"})]
  {
    hide SET_KEYS;
    assert SetBody(doc) == doc - {"next"};
    hide SetBody;
    var promoted := doc["next"].members["previous" := Obj(doc - {"next"})];
    assert PromotedDoc(doc).Keys == promoted.Keys;
  }

  /** Abandoning a window restores the document it was opened on. */
  lemma StageThenDropIsIdentity(doc: Members, emitted: Members)
    requires "next" !in doc
    ensures DroppedDoc(StagedDoc(doc, emitted), "next") == doc
  {
  }

  /** Stage, promote and drop: the document that remains is the emitted one, member for member. */
  lemma WholeWindowYieldsEmitted(doc: Members, emitted: Members, a: Projection, b: Projection)
    requires ParseReference(Obj(doc)) == Ok(Alone(a)) && ParseReference(Obj(emitted)) == Ok(Alone(b))
    ensures var staged := StagedDoc(doc, emitted);
            DroppedDoc(PromotedDoc(staged), "previous") == emitted
  {
    KeysAreDistinct();
    ParseAcceptsExactly(Obj(doc), Alone(a));
    ParseAcceptsExactly(Obj(emitted), Alone(b));
    var staged := StagedDoc(doc, emitted);
    assert SetBody(emitted) == emitted;
    assert "previous" !in emitted;
  }

  // ----- the file -----

  /** The reference file with the process's cached verdict on it. A file that is missing or is
      not JSON has no content. */
  class ReferenceFile {
    var content: Option<Json>
    var cache: Option<Result<Window, LoadFailure>>

    /** The cache never holds a verdict on bytes that are no longer in the file. */
    ghost predicate Valid()
      reads this
    {
      cache.Some? ==> cache.value == Loaded(content)
    }

    constructor (content: Option<Json>)
      ensures Valid() && this.content == content
    {
      this.content := content;
      cache := None;
    }

    method Load() returns (r: Result<Window, LoadFailure>)
      requires Valid()
      modifies this`cache
      ensures Valid() && r == Loaded(content)
    {
      if cache.None? {
        if content.None? {
          cache := Some(Err(Unreadable));
        } else {
          var parsed := ParseReference(content.value);
          cache := Some(if parsed.Ok? then Ok(parsed.value) else Err(Refused(parsed.error)));
        }
      }
      r := cache.value;
    }

    /** Validate a result, then write it; a refused result leaves the file as it was. */
    method Write(doc: Json) returns (rc: int)
      requires Valid()
      modifies this
      ensures Valid()
      ensures rc == if ParseReference(doc).Ok? then 0 else 1
      ensures content == if rc == 0 then Some(doc) else old(content)
    {
      if ParseReference(doc).Err? {
        return 1;
      }
      content := Some(doc);
      cache := None;
      return 0;
    }

    /** Open a window. Exit 2 when either document is unusable, 1 when a window is open already,
        when the emitted document is a reference file, or when it is not a newer vintage. */
    method StageNext(emitted: Option<Json>) returns (rc: int)
      requires Valid()
      modifies this
      ensures Valid() && rc in {0, 1, 2}
      ensures rc == 2 <==> Loaded(old(content)).Err? || Loaded(emitted).Err?
      ensures rc == 0 <==> Stageable(old(content), emitted)
      ensures rc != 0 ==> content == old(content)
      ensures rc == 0 ==>
                && Loaded(content) == Ok(WithNext(Loaded(old(content)).value.current, Loaded(emitted).value.current))
                && content == Some(Obj(old(content).value.members["next" := emitted.value]))
    {
      if content.None? || emitted.None? {
        return 2;
      }
      var doc, printed := content.value, emitted.value;
      var w, e := ParseReference(doc), ParseReference(printed);
      if w.Err? || e.Err? {
        return 2;
      }
      ParseAcceptsExactly(doc, w.value);
      ParseAcceptsExactly(printed, e.value);
      if "next" in doc.members || "previous" in doc.members {
        return 1;
      }
      if "next" in printed.members || "previous" in printed.members {
        return 1;
      }
      StageIsStage(doc.members, printed.members, w.value.current, e.value.current);
      StagedExactly(doc.members, printed.members, e.value.current);
      rc := Write(Obj(StagedDoc(doc.members, printed.members)));
    }

    /** Promote the staged set. The exit code is 2 for an unusable file and 1 when nothing is staged. */
    method PromoteNext() returns (rc: int)
      requires Valid()
      modifies this
      ensures Valid()
      ensures rc == if Loaded(old(content)).Err? then 2 else if Loaded(old(content)).value.WithNext? then 0 else 1
      ensures rc != 0 ==> content == old(content)
      ensures rc == 0 ==>
                && var w := Loaded(old(content)).value;
                   Loaded(content) == Ok(WithPrevious(w.next, w.current))
      ensures rc == 0 ==>
                && Promotable(old(content))
                && var doc := old(content).value.members;
                   content == Some(Obj(doc["next"].members["previous" := Obj(doc - {"next"})]))
    {
      if content.None? {
        return 2;
      }
      var doc := content.value;
      var w := ParseReference(doc);
      if w.Err? {
        return 2;
      }
      ParseAcceptsExactly(doc, w.value);
      if "next" !in doc.members {
        return 1;
      }
      PromoteIsPromote(doc.members, w.value.current, w.value.next);
      PromotedExactly(doc.members, w.value.current, w.value.next);
      rc := Write(Obj(PromotedDoc(doc.members)));
    }

    /** Remove the second set. The exit code is 2 for an unusable file and 1 when the role is not there. */
    method DropSet(role: string) returns (rc: int)
      requires role in EXTRA_KEYS && Valid()
      modifies this
      ensures Valid()
      ensures rc == if Loaded(old(content)).Err? then 2 else if Carries(Loaded(old(content)).value, role) then 0 else 1
      ensures rc != 0 ==> content == old(content)
      ensures rc == 0 ==> Loaded(content) == Ok(Alone(Loaded(old(content)).value.current))
      ensures rc == 0 ==>
                && old(content).Some? && old(content).value.Obj?
                && content == Some(Obj(old(content).value.members - {role}))
    {
      KeysAreDistinct();
      if content.None? {
        return 2;
      }
      var doc := content.value;
      var w := ParseReference(doc);
      if w.Err? {
        return 2;
      }
      ParseAcceptsExactly(doc, w.value);
      if role !in doc.members {
        return 1;
      }
      DropLeavesCurrent(doc.members, w.value);
      rc := Write(Obj(DroppedDoc(doc.members, role)));
    }
  }

  datatype LoadFailure = Unreadable | Refused(refusal: Refusal)

  function Loaded(content: Option<Json>): Result<Window, LoadFailure> {
    if content.None? then Err(Unreadable)
    else
      match ParseReference(content.value)
      case Ok(w) => Ok(w)
      case Err(e) => Err(Refused(e))
  }

  /** The document has a second set under `next`. */
  predicate Promotable(content: Option<Json>) {
    && content.Some? && content.value.Obj? && "next" in content.value.members
    && content.value.members["next"].Obj?
  }

  predicate Carries(w: Window, role: string) {
    (w.WithNext? && role == "next") || (w.WithPrevious? && role == "previous")
  }

  predicate Stageable(content: Option<Json>, emitted: Option<Json>) {
    && Loaded(content).Ok? && Loaded(content).value.Alone?
    && Loaded(emitted).Ok? && Loaded(emitted).value.Alone?
    && var a, b := Loaded(content).value.current, Loaded(emitted).value.current;
    Comparable(a, b) && Newer(b, a)
  }
}
