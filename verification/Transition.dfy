// The steps one release may make between two reference documents.
module Transition {
  import opened Common
  import opened Reference

  datatype Step = New | Unchanged | Stage | Abandon | Promote | Close | Relabel | Demote | Reopen

  datatype Role = Current | Next | Previous

  datatype Problem =
    | ChangesModule
    | LosesVersion(projector: bool)
    | MovesBackwards(projector: bool)
    | NotOneStep

  datatype Outcome = Passes(step: Step) | Fails(problems: seq<Problem>)

  // ----- the checker's decision -----

  /** The recorded text of one version may be corrected forwards, never lost or moved back. */
  function VersionProblems(was: Option<string>, now: Option<string>, projector: bool): seq<Problem> {
    if was.None? || StableVersion(was.value).None? then []
    else if now.None? || StableVersion(now.value).None? then [LosesVersion(projector)]
    else if Before(StableVersion(now.value).value, StableVersion(was.value).value)
    then [MovesBackwards(projector)]
    else []
  }

  function ProjectorVersion(p: Projection): Option<string> {
    if p.Recorded().Some? then Some(p.Recorded().value.version) else None
  }

  function RelabelProblems(old_: Projection, new_: Projection): seq<Problem> {
    if old_ == new_ then []
    else
      (if old_.Module() != new_.Module() then [ChangesModule] else [])
      + VersionProblems(Some(old_.Version()), Some(new_.Version()), false)
      + VersionProblems(ProjectorVersion(old_), ProjectorVersion(new_), true)
  }

  function RelabelOutcome(problems: seq<Problem>): Outcome {
    if problems == [] then Passes(Relabel) else Fails(problems)
  }

  /** The verdict on the change from the last release's window to the head's. `closed` is the
      previous set that release history shows a close to have dropped, if any. */
  function TransitionProblems(base: Option<Window>, head: Window, closed: Option<Projection>): Outcome {
    if base.None? then Passes(New)
    else
      var b, h := base.value, head;
      if b == h then Passes(Unchanged)
      else if b.Alone? && h.WithNext? && b.current == h.current then Passes(Stage)
      else if b.WithNext? && h.Alone? && b.current == h.current then Passes(Abandon)
      else if b.WithNext? && h.WithPrevious? && b.next == h.current && b.current == h.previous
      then Passes(Promote)
      else if b.WithPrevious? && h.Alone? && b.current == h.current then Passes(Close)
      else if b.WithPrevious? && h.WithNext? && b.previous == h.current && b.current == h.next
      then Passes(Demote)
      else if b.Alone? && h.WithPrevious? && b.current == h.current && closed == Some(h.previous)
      then Passes(Reopen)
      else if b.current.components != h.current.components then Fails([NotOneStep])
      else if b.Alone? && h.Alone? then RelabelOutcome(RelabelProblems(b.current, h.current))
      else if b.WithNext? && h.WithNext? && b.next.components == h.next.components then
        RelabelOutcome(RelabelProblems(b.current, h.current) + RelabelProblems(b.next, h.next))
      else if b.WithPrevious? && h.WithPrevious? && b.previous.components == h.previous.components then
        RelabelOutcome(RelabelProblems(b.current, h.current)
                       + RelabelProblems(b.previous, h.previous))
      else Fails([NotOneStep])
  }

  // ----- the declared relation -----

  function Roles(w: Window): set<Role> {
    match w
    case Alone(_) => {Current}
    case WithNext(_, _) => {Current, Next}
    case WithPrevious(_, _) => {Current, Previous}
  }

  function SetOf(w: Window, r: Role): Projection
    requires r in Roles(w)
  {
    match r
    case Current => w.current
    case Next => w.next
    case Previous => w.previous
  }

  /** A recorded stable version stays recorded and does not go back. */
  predicate Keeps(was: Option<string>, now: Option<string>) {
    was.Some? && StableVersion(was.value).Some? ==>
      && now.Some? && StableVersion(now.value).Some?
      && !Before(StableVersion(now.value).value, StableVersion(was.value).value)
  }

  /** Provenance may be corrected without touching what is projected. */
  predicate Corrects(was: Projection, now: Projection) {
    && was.components == now.components
    && (was != now ==>
          && was.Module() == now.Module()
          && Keeps(Some(was.Version()), Some(now.Version()))
          && Keeps(ProjectorVersion(was), ProjectorVersion(now)))
  }

  /** The step table: what the last release held, and what the head must hold. */
  predicate Takes(s: Step, base: Option<Window>, head: Window, closed: Option<Projection>) {
    match s
    case New => base.None?
    case Unchanged => base == Some(head)
    case Stage => base == Some(Alone(head.current)) && Roles(head) == {Current, Next}
    case Abandon => base.Some? && Roles(base.value) == {Current, Next} && head == Alone(base.value.current)
    case Promote => base.Some? && base.value.WithNext?
                    && head == WithPrevious(base.value.next, base.value.current)
    case Close => base.Some? && Roles(base.value) == {Current, Previous} && head == Alone(base.value.current)
    case Demote => base.Some? && base.value.WithPrevious?
                   && head == WithNext(base.value.previous, base.value.current)
    case Reopen => closed.Some? && base == Some(Alone(head.current))
                   && head == WithPrevious(head.current, closed.value)
    case Relabel => && base.Some? && base.value != head && Roles(base.value) == Roles(head)
                    && forall r :: r in Roles(head) ==> Corrects(SetOf(base.value, r), SetOf(head, r))
  }

  lemma VersionProblemsAreExact(was: Option<string>, now: Option<string>, projector: bool)
    ensures VersionProblems(was, now, projector) == [] <==> Keeps(was, now)
  {
    hide StableVersion;
  }

  lemma RelabelProblemsAreExact(was: Projection, now: Projection)
    ensures was.components == now.components && RelabelProblems(was, now) == [] <==> Corrects(was, now)
  {
    VersionProblemsAreExact(Some(was.Version()), Some(now.Version()), false);
    VersionProblemsAreExact(ProjectorVersion(was), ProjectorVersion(now), true);
    hide VersionProblems, Keeps, ProjectorVersion, Projection.Module, Projection.Version;
  }

  /** The checker is a decision procedure for the step table: it passes with step `s` exactly
      when the table lets the head follow the base by `s`, so no two steps overlap. */
  lemma StepClassification(base: Option<Window>, head: Window, closed: Option<Projection>)
    ensures forall s: Step :: Takes(s, base, head, closed)
                              <==> TransitionProblems(base, head, closed) == Passes(s)
  {
    forall s: Step
      ensures Takes(s, base, head, closed) <==> TransitionProblems(base, head, closed) == Passes(s)
    {
      if base.Some? {
        RolesRead(base.value);
        RolesRead(head);
        if Roles(base.value) == Roles(head) {
          RelabelReads(base.value, head, closed);
        }
      }
    }
  }

  lemma RolesRead(w: Window)
    ensures w.Alone? <==> Roles(w) == {Current}
    ensures w.WithNext? <==> Roles(w) == {Current, Next}
    ensures w.WithPrevious? <==> Roles(w) == {Current, Previous}
  {
    assert Next !in {Current} && Previous !in {Current} && Previous !in {Current, Next};
    assert Current in Roles(w);
  }

  lemma RelabelReads(b: Window, h: Window, closed: Option<Projection>)
    requires b.Alone? == h.Alone? && b.WithNext? == h.WithNext?
    ensures Takes(Relabel, Some(b), h, closed)
            <==> TransitionProblems(Some(b), h, closed) == Passes(Relabel)
    ensures TransitionProblems(Some(b), h, closed).Passes? ==>
              TransitionProblems(Some(b), h, closed).step in {Unchanged, Relabel}
  {
    hide RelabelProblems, Corrects;
    assert Current in Roles(h) && Current in Roles(b);
    RelabelProblemsAreExact(b.current, h.current);
    match h
    case Alone(_) =>
    case WithNext(_, n) =>
      assert Next in Roles(h) && Next in Roles(b);
      assert SetOf(b, Next) == b.next && SetOf(h, Next) == n;
      RelabelProblemsAreExact(b.next, n);
    case WithPrevious(_, p) =>
      assert Previous in Roles(h) && Previous in Roles(b);
      assert SetOf(b, Previous) == b.previous && SetOf(h, Previous) == p;
      RelabelProblemsAreExact(b.previous, p);
  }

  /** Which steps a pair of role sets leaves open: one for each of the six pairs that differ,
      and unchanged or relabel for the three that do not. */
  lemma RolesDetermineStep(base: Window, head: Window, closed: Option<Projection>)
    ensures var o := TransitionProblems(Some(base), head, closed);
            o.Passes? ==>
              && (o.step == Stage <==> base.Alone? && head.WithNext?)
              && (o.step == Reopen <==> base.Alone? && head.WithPrevious?)
              && (o.step == Abandon <==> base.WithNext? && head.Alone?)
              && (o.step == Promote <==> base.WithNext? && head.WithPrevious?)
              && (o.step == Close <==> base.WithPrevious? && head.Alone?)
              && (o.step == Demote <==> base.WithPrevious? && head.WithNext?)
              && (o.step == Unchanged <==> base == head)
              && (o.step != New)
              && (o.step == Relabel ==> Roles(base) == Roles(head))
  {
    hide RelabelProblems;
  }

  // ----- what a failure reports -----

  predicate SameProjections(b: Window, h: Window) {
    Roles(b) == Roles(h) && forall r :: r in Roles(h) ==> SetOf(b, r).components == SetOf(h, r).components
  }

  /** A stable version is recorded in `was` and none in `now`. */
  predicate Loses(was: Option<string>, now: Option<string>) {
    && was.Some? && StableVersion(was.value).Some?
    && (now.None? || StableVersion(now.value).None?)
  }

  predicate MovesBack(was: Option<string>, now: Option<string>) {
    && was.Some? && StableVersion(was.value).Some? && now.Some? && StableVersion(now.value).Some?
    && Before(StableVersion(now.value).value, StableVersion(was.value).value)
  }

  /** The problems of one set between two releases. */
  ghost predicate HasProblem(was: Projection, now: Projection, p: Problem) {
    match p
    case ChangesModule => was.Module() != now.Module()
    case LosesVersion(projector) =>
      if projector then Loses(ProjectorVersion(was), ProjectorVersion(now))
      else Loses(Some(was.Version()), Some(now.Version()))
    case MovesBackwards(projector) =>
      if projector then MovesBack(ProjectorVersion(was), ProjectorVersion(now))
      else MovesBack(Some(was.Version()), Some(now.Version()))
    case NotOneStep => false
  }

  lemma VersionProblemsListed(was: Option<string>, now: Option<string>, projector: bool, p: Problem)
    ensures p in VersionProblems(was, now, projector)
            <==> (p == LosesVersion(projector) && Loses(was, now))
                 || (p == MovesBackwards(projector) && MovesBack(was, now))
  {
    hide StableVersion;
  }

  lemma RelabelProblemsListed(was: Projection, now: Projection, p: Problem)
    ensures p in RelabelProblems(was, now) <==> HasProblem(was, now, p)
  {
    VersionProblemsListed(Some(was.Version()), Some(now.Version()), false, p);
    VersionProblemsListed(ProjectorVersion(was), ProjectorVersion(now), true, p);
    hide VersionProblems, ProjectorVersion, Projection.Module, Projection.Version, StableVersion;
  }

  /** A failure reports that the change is not one step exactly when the two windows do not hold the
      same projections in the same roles; otherwise it reports the problems that some role has. */
  lemma FailureReports(b: Window, h: Window, closed: Option<Projection>, p: Problem)
    requires TransitionProblems(Some(b), h, closed).Fails?
    ensures p in TransitionProblems(Some(b), h, closed).problems
            <==> if SameProjections(b, h) then exists r :: r in Roles(h) && HasProblem(SetOf(b, r), SetOf(h, r), p)
                 else p == NotOneStep
  {
    hide RelabelProblems, HasProblem;
    assert Current in Roles(b) && Current in Roles(h);
    RolesRead(b);
    RolesRead(h);
    RelabelProblemsListed(b.current, h.current, p);
    if Roles(b) == Roles(h) {
      if h.WithNext? {
        assert Next in Roles(h);
        RelabelProblemsListed(b.next, h.next, p);
      }
      if h.WithPrevious? {
        assert Previous in Roles(h);
        RelabelProblemsListed(b.previous, h.previous, p);
      }
    }
  }

  // ----- what a step keeps accepted -----

  /** The projections, without provenance, that a window accepts. */
  function Projected(w: Window): set<map<string, Json>> {
    match w
    case Alone(c) => {c.components}
    case WithNext(c, n) => {c.components, n.components}
    case WithPrevious(c, p) => {c.components, p.components}
  }

  /** No flag day: whatever the step, the base's current projection is still accepted at the
      head, and the head's current projection was already accepted at the base. */
  lemma NoFlagDay(base: Window, head: Window, closed: Option<Projection>)
    requires TransitionProblems(Some(base), head, closed).Passes?
    ensures base.current.components in Projected(head)
    ensures head.current.components in Projected(base)
  {
  }

  /** The other steps keep every projection. */
  lemma OtherStepsKeep(base: Window, head: Window, closed: Option<Projection>)
    requires TransitionProblems(Some(base), head, closed).Passes?
    requires TransitionProblems(Some(base), head, closed).step !in {Abandon, Close}
    ensures Projected(base) <= Projected(head)
  {
    hide RelabelProblems;
  }

  /** Only abandoning or closing a window withdraws a projection. */
  lemma OnlyAbandonAndCloseWithdraw(base: Window, head: Window, closed: Option<Projection>)
    requires TransitionProblems(Some(base), head, closed).Passes?
    requires base.Valid()
    ensures Projected(base) <= Projected(head)
            <==> TransitionProblems(Some(base), head, closed).step !in {Abandon, Close}
  {
    ExtraDiffers(base);
    StepClassification(base := Some(base), head := head, closed := closed);
    hide *;
    if TransitionProblems(Some(base), head, closed).step in {Abandon, Close} {
      AbandonAndCloseDrop(base, head, closed, TransitionProblems(Some(base), head, closed).step);
    } else {
      OtherStepsKeep(base, head, closed);
    }
  }

  lemma AbandonAndCloseDrop(base: Window, head: Window, closed: Option<Projection>, s: Step)
    requires s in {Abandon, Close} && Takes(s, Some(base), head, closed)
    requires base.WithNext? ==> base.next.components != base.current.components
    requires base.WithPrevious? ==> base.previous.components != base.current.components
    ensures !(Projected(base) <= Projected(head))
  {
    RolesRead(base);
    if s == Abandon {
      assert base.next.components in Projected(base) && base.next.components !in Projected(head);
    } else {
      assert base.previous.components in Projected(base) && base.previous.components !in Projected(head);
    }
  }

  lemma ExtraDiffers(w: Window)
    requires w.Valid()
    ensures w.WithNext? ==> w.next.components != w.current.components
    ensures w.WithPrevious? ==> w.previous.components != w.current.components
  {
  }
}
