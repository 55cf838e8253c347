// The pinned floor every repository must meet, and its agreement with the accepted sets.
module Floor {
  import opened Common
  import opened Reference
  import opened Transition
  import opened Releases

  datatype FloorVerdict = Agrees | NoFloor | NamesNext | Unordered | AboveHeld | BelowHeld | BetweenHeld

  /** The versions a floor may name: current, and previous during the grace after a promote. */
  function HeldVersions(w: Window): seq<string> {
    if w.WithPrevious? then [w.current.Version(), w.previous.Version()] else [w.current.Version()]
  }

  /** Agreement is equality of the version text; ordering only explains a disagreement. */
  function FloorProblems(floor: Option<string>, w: Window): FloorVerdict {
    if floor.None? then NoFloor
    else if floor.value in HeldVersions(w) then Agrees
    else if w.WithNext? && w.next.Version() == floor.value then NamesNext
    else
      OrderProblem(StableVersion(floor.value), StableVersion(w.current.Version()),
                   StableVersion(OtherHeld(w)))
  }

  /** The held version that is not current's, when there is one. */
  function OtherHeld(w: Window): string {
    if w.WithPrevious? then w.previous.Version() else w.current.Version()
  }

  function OrderProblem(floor: Option<Version>, a: Option<Version>, b: Option<Version>): (v: FloorVerdict)
    ensures v !in {Agrees, NoFloor, NamesNext}
  {
    if floor.None? || a.None? || b.None? then Unordered
    else
      var max := if Before(a.value, b.value) then b.value else a.value;
      var min := if Before(b.value, a.value) then b.value else a.value;
      if Before(max, floor.value) then AboveHeld
      else if Before(floor.value, min) then BelowHeld
      else BetweenHeld
  }

  /** Some held set has version `v`: current or previous, not next. */
  predicate Holds(w: Window, v: string) {
    v == w.current.Version() || (w.WithPrevious? && v == w.previous.Version())
  }

  /** The floor names a set that is accepted and is not next. */
  predicate Names(floor: Option<string>, w: Window) {
    floor.Some? && Holds(w, floor.value)
  }

  lemma AgreesExactly(floor: Option<string>, w: Window)
    ensures FloorProblems(floor, w) == Agrees <==> Names(floor, w)
    ensures FloorProblems(floor, w) == NamesNext
            <==> floor.Some? && !Names(floor, w) && w.WithNext? && w.next.Version() == floor.value
  {
  }

  /** A floor that is no held version: what is reported of it. */
  lemma ProblemsExactly(floor: string, w: Window)
    requires !Holds(w, floor) && !(w.WithNext? && floor == w.next.Version())
    ensures var v := FloorProblems(Some(floor), w);
            && (v == Unordered <==> StableVersion(floor).None?
                                    || exists h :: Holds(w, h) && StableVersion(h).None?)
            && (v != Unordered ==>
                  && (v == AboveHeld
                      <==> forall h :: Holds(w, h) ==> Before(StableVersion(h).value, StableVersion(floor).value))
                  && (v == BelowHeld
                      <==> forall h :: Holds(w, h) ==> Before(StableVersion(floor).value, StableVersion(h).value))
                  && v in {AboveHeld, BelowHeld, BetweenHeld})
    ensures FloorProblems(None, w) == NoFloor
  {
    hide StableVersion, Projection.Version;
    assert Holds(w, w.current.Version()) && Holds(w, OtherHeld(w));
    assert forall h :: Holds(w, h) ==> h == w.current.Version() || h == OtherHeld(w);
  }

  lemma NamesAcrossStep(floor: Option<string>, base: Window, head: Window, closed: Option<Projection>, step: Step)
    requires Names(floor, base) && Takes(step, Some(base), head, closed)
    ensures step in {Unchanged, Stage, Abandon, Promote, Reopen} ==> Names(floor, head)
    ensures step in {Close, Demote} ==> (Names(floor, head) <==> floor == Some(head.current.Version()))
    ensures step == Demote && !Names(floor, head) ==> floor.value == head.next.Version()
  {
    RolesRead(base);
    RolesRead(head);
  }

  /** The floor through one accepted step: it survives every step that keeps its set held, and
      survives a close or a demote exactly when it already names the head's current version. */
  lemma FloorAcrossStep(floor: Option<string>, base: Window, head: Window, closed: Option<Projection>, step: Step)
    requires FloorProblems(floor, base) == Agrees
    requires Takes(step, Some(base), head, closed)
    ensures step in {Unchanged, Stage, Abandon, Promote, Reopen} ==> FloorProblems(floor, head) == Agrees
    ensures step in {Close, Demote} ==>
              (FloorProblems(floor, head) == Agrees <==> floor == Some(head.current.Version()))
    ensures step == Demote && FloorProblems(floor, head) != Agrees ==> FloorProblems(floor, head) == NamesNext
  {
    AgreesExactly(floor, base);
    AgreesExactly(floor, head);
    NamesAcrossStep(floor, base, head, closed, step);
  }

  /** A floor that names only the staged set is refused, and an agreeing floor names a set that
      is not next. */
  lemma FloorNeverNamesNext(floor: string, w: Window)
    requires w.WithNext? && floor == w.next.Version()
    ensures FloorProblems(Some(floor), w) == Agrees <==> floor == w.current.Version()
    ensures FloorProblems(Some(floor), w) in {Agrees, NamesNext}
  {
  }

  /** "Between the accepted sets" is reported exactly when the floor is a stable version that
      neither follows current nor precedes the oldest held set - which includes a floor that
      spells a held version with other leading zeros. */
  lemma BetweenIsNotStrict(floor: string, w: Window)
    requires w.Valid()
    ensures FloorProblems(Some(floor), w) == BetweenHeld <==>
              var f, c, o := StableVersion(floor), StableVersion(w.current.Version()), StableVersion(OtherHeld(w));
              && floor !in HeldVersions(w) && !(w.WithNext? && floor == w.next.Version())
              && f.Some? && c.Some? && o.Some?
              && !Before(c.value, f.value) && !Before(f.value, o.value)
  {
    hide StableVersion;
    if w.WithPrevious? {
      var c, p := VintageOf(w.current), VintageOf(w.previous);
      assert NewerVintage(c, p);
      assert !Before(c.contracts, p.contracts);
    }
  }

  /** A floor that names no accepted version but has the triple of a held one is reported as lying
      between the accepted sets, in every window. */
  lemma SameTripleDisagrees(floor: string, w: Window, r: Role)
    requires w.Valid() && r in Roles(w) && r != Next && floor !in HeldVersions(w)
    requires !(w.WithNext? && floor == w.next.Version())
    requires StableVersion(floor).Some? && StableVersion(floor) == StableVersion(SetOf(w, r).Version())
    ensures FloorProblems(Some(floor), w) == BetweenHeld
  {
    hide StableVersion, FloorProblems;
    RolesRead(w);
    BetweenIsNotStrict(floor, w);
    if w.WithPrevious? {
      var c, p := VintageOf(w.current), VintageOf(w.previous);
      assert NewerVintage(c, p);
      assert !Before(c.contracts, p.contracts);
    }
  }

  /** For instance: current v1.0.0 beside next v2.0.0, or alone, and a floor that spells v1.0.0 with a
      zero more. */
  lemma ZeroMoreDisagrees(w: Window)
    requires w.Alone? || (w.WithNext? && w.next.Version() == "v2.0.0")
    requires w.current.Version() == "v1.0.0"
    ensures FloorProblems(Some("v01.0.0"), w) == BetweenHeld
  {
    Readings();
    hide StableVersion, Number, Digits, Projection.Version;
    OneTriple("v1.0.0", "1", 1);
    OneTriple("v01.0.0", "01", 1);
    assert "v01.0.0"[1] == '0' && "v1.0.0"[1] == '1' && "v2.0.0"[1] == '2';
  }

  lemma Readings()
    ensures Digits("1") && Number("1") == 1 && "v1.0.0" == "v" + "1" + ".0.0"
    ensures Digits("01") && Number("01") == 1 && "v01.0.0" == "v" + "01" + ".0.0"
  {
    assert Number("0") == 0;
  }

  lemma OneTriple(s: string, major: string, n: nat)
    requires s == "v" + major + ".0.0" && Digits(major) && major != "" && Number(major) == n
    ensures StableVersion(s) == Some(Version(n, 0, 0))
  {
    assert Digits("0") && Number("0") == 0;
    assert s == Tag(major, "0", "0");
    StableVersionReadsTag(s, major, "0", "0");
  }

  /** Agreement at one release says something about the releases before it: over any run, the set that
      an agreeing floor names has a projection that was current there or earlier. */
  lemma FloorNamesMeasuredProjection(h: History, k: nat, i: nat, floor: string)
    requires Run(h, k) && k <= i < |h| && FloorProblems(Some(floor), h[i].window) == Agrees
    ensures exists r, j: nat :: r in Roles(h[i].window) && r != Next && j <= i
                                && SetOf(h[i].window, r).Version() == floor
                                && CurrentAt(h, j, SetOf(h[i].window, r).components)
  {
    var w := h[i].window;
    AgreesExactly(Some(floor), w);
    if floor == w.current.Version() {
      assert Current in Roles(w) && CurrentAt(h, i, SetOf(w, Current).components);
    } else {
      assert w.WithPrevious?;
      PreviousWasCurrent(h, k, i);
      var j: nat :| j < i && CurrentAt(h, j, w.previous.components);
      assert Previous in Roles(w) && CurrentAt(h, j, SetOf(w, Previous).components);
    }
  }
}
