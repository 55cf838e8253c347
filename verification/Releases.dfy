// Release histories: what a close dropped, and what holds over every run of accepted steps.
module Releases {
  import opened Common
  import opened Reference
  import opened Transition

  /** The reference document as one release carries it, oldest release first in a history. */
  datatype Release = Missing | Unusable | Held(window: Window)

  type History = seq<Release>

  // ----- the grace set a close dropped -----

  /** A release that says nothing about the close being looked for: unusable, or the same
      current projection without a previous. */
  predicate Skipped(r: Release, components: map<string, Json>) {
    r.Unusable? || (r.Held? && r.window.current.components == components && !r.window.WithPrevious?)
  }

  /** Release `j` is the last one before the close that left `components` alone. */
  predicate ClosedAfter(h: History, components: map<string, Json>, j: nat) {
    && j < |h| && h[j].Held? && h[j].window.WithPrevious?
    && h[j].window.current.components == components
    && forall i :: j < i < |h| ==> Skipped(h[i], components)
  }

  function ClosedPrevious(h: History, components: map<string, Json>): Option<Projection> {
    if h == [] then None
    else
      var last := h[|h| - 1];
      if Skipped(last, components) then ClosedPrevious(h[..|h| - 1], components)
      else if last.Held? && last.window.current.components == components then Some(last.window.previous)
      else None
  }

  /** The walk over the releases, newest first, that authorises a reopen. */
  method PreviousBeforeClose(h: History, current: Projection) returns (closed: Option<Projection>)
    ensures closed == ClosedPrevious(h, current.components)
    ensures closed.Some? <==> exists j: nat :: ClosedAfter(h, current.components, j)
    ensures forall j: nat :: ClosedAfter(h, current.components, j) ==> closed == Some(h[j].window.previous)
  {
    ClosedPreviousIsDroppedSet(h, current.components);
    var n := |h|;
    assert h[..n] == h;
    while n > 0
      invariant 0 <= n <= |h|
      invariant ClosedPrevious(h, current.components) == ClosedPrevious(h[..n], current.components)
    {
      var r := h[n - 1];
      assert h[..n][..n - 1] == h[..n - 1];
      if r.Missing? {
        return None;
      }
      if r.Unusable? {
        n := n - 1;
        continue;
      }
      var sameCurrent := r.window.current.components == current.components;
      if sameCurrent && !r.window.WithPrevious? {
        n := n - 1;
        continue;
      }
      if sameCurrent {
        return Some(r.window.previous);
      }
      return None;
    }
    return None;
  }

  /** The walk finds exactly the grace set of the last release before the close. */
  lemma {:induction false} ClosedPreviousIsDroppedSet(h: History, components: map<string, Json>)
    ensures ClosedPrevious(h, components).Some? <==> exists j: nat :: ClosedAfter(h, components, j)
    ensures forall j: nat :: ClosedAfter(h, components, j) ==>
                          ClosedPrevious(h, components) == Some(h[j].window.previous)
  {
    if h != [] {
      var front := h[..|h| - 1];
      ClosedPreviousIsDroppedSet(front, components);
      if Skipped(h[|h| - 1], components) {
        forall j: nat ensures ClosedAfter(front, components, j) <==> ClosedAfter(h, components, j) {
          if ClosedAfter(front, components, j) {
            forall i | j < i < |h| ensures Skipped(h[i], components) {
              if i < |h| - 1 { assert front[i] == h[i]; }
            }
          }
        }
      } else if ClosedPrevious(h, components).Some? {
        assert ClosedAfter(h, components, |h| - 1);
      }
    }
  }

  /** So history authorises a set exactly when some release carried it as previous beside these current
      components, and every later release is unusable or holds the same components without a
      previous set. */
  lemma ClosedPreviousExactly(h: History, components: map<string, Json>, p: Projection)
    ensures ClosedPrevious(h, components) == Some(p)
            <==> exists j: nat ::
                   && j < |h| && h[j].Held? && h[j].window == WithPrevious(h[j].window.current, p)
                   && h[j].window.current.components == components
                   && forall i :: j < i < |h| && !h[i].Unusable? ==>
                        && h[i].Held? && h[i].window.current.components == components
                        && (h[i].window.Alone? || h[i].window.WithNext?)
  {
    ClosedPreviousIsDroppedSet(h, components);
    hide ClosedPrevious;
    forall j: nat | j < |h| && h[j].Held? && h[j].window.WithPrevious?
      ensures h[j].window == WithPrevious(h[j].window.current, h[j].window.previous)
    {
    }
  }

  // ----- runs -----

  /** What history authorises a reopen to bring back; consulted only when it is needed. */
  function ClosedFor(h: History, base: Window, head: Window): Option<Projection> {
    if base.Alone? && head.WithPrevious? then ClosedPrevious(h, base.current.components) else None
  }

  /** The verdict on releasing `head` after the nonempty history `h`. */
  function NextStep(h: History, head: Window): Outcome
    requires h != [] && h[|h| - 1].Held?
  {
    var base := h[|h| - 1].window;
    TransitionProblems(Some(base), head, ClosedFor(h, base, head))
  }

  function StepAt(h: History, i: nat): Outcome
    requires 0 < i < |h| && h[i - 1].Held? && h[i].Held?
  {
    NextStep(h[..i], h[i].window)
  }

  /** The first `k` releases are from before windows existed, each replaced in place at will and
      none with an extra set. */
  ghost predicate SinglesFirst(h: History, k: nat)
    requires k <= |h|
  {
    forall i :: 0 <= i < k && h[i].Held? ==> h[i].window.Alone?
  }

  /** Release `k - 1` is the first to carry the artifact: a new one, which the check passes
      whatever it holds. */
  ghost predicate NewArtifact(h: History, k: nat)
    requires 1 <= k <= |h|
  {
    (forall i :: 0 <= i < k - 1 ==> !h[i].Held?)
    && h[k - 1].Held? && TransitionProblems(None, h[k - 1].window, None) == Passes(New)
  }

  /** A run: `k` releases of one of these two kinds, then releases that each pass the transition
      check. */
  ghost predicate AnyRun(h: History, k: nat) {
    && 1 <= k <= |h| && (SinglesFirst(h, k) || NewArtifact(h, k))
    && (forall i :: k - 1 <= i < |h| ==> h[i].Held?)
    && (forall i :: k <= i < |h| ==> StepAt(h, i).Passes?)
  }

  /** A run that does not begin with a `previous` set: see `SafetyNeedsNoEarlyPrevious`. */
  ghost predicate Run(h: History, k: nat) { AnyRun(h, k) && !h[k - 1].window.WithPrevious? }

  lemma RunExtends(h: History, k: nat, head: Window)
    requires Run(h, k) && NextStep(h, head).Passes?
    ensures Run(h + [Held(head)], k)
  {
    var g := h + [Held(head)];
    forall i | k <= i < |g| ensures StepAt(g, i).Passes? {
      if i < |h| {
        assert g[..i] == h[..i];
        assert StepAt(h, i).Passes?;
      } else {
        assert g[..i] == h;
      }
    }
  }

  /** `components` were the current projection of release `j`. */
  predicate CurrentAt(h: History, j: nat, components: map<string, Json>) {
    j < |h| && h[j].Held? && h[j].window.current.components == components
  }

  predicate NextAt(h: History, j: nat, components: map<string, Json>) {
    j < |h| && h[j].Held? && h[j].window.WithNext? && h[j].window.next.components == components
  }

  /** Whole-run safety, first half: whatever a release keeps accepted as `previous` was the
      current projection of an earlier release. */
  lemma {:induction false} PreviousWasCurrent(h: History, k: nat, i: nat)
    requires Run(h, k) && k <= i < |h| && h[i].window.WithPrevious?
    ensures exists j: nat :: j < i && CurrentAt(h, j, h[i].window.previous.components)
    decreases i
  {
    var b, w := h[i - 1].window, h[i].window;
    assert StepAt(h, i).Passes? && h[..i][|h[..i]| - 1] == h[i - 1];
    match b
    case Alone(c) =>
      // A reopen: the set comes from an earlier release that carried it as previous.
      ClosedPreviousIsDroppedSet(h[..i], c.components);
      var j: nat :| ClosedAfter(h[..i], c.components, j);
      assert h[j].window.previous == w.previous;
      PreviousWasCurrent(h, k, j);
    case WithNext(_, _) =>
      assert CurrentAt(h, i - 1, w.previous.components);
    case WithPrevious(_, _) =>
      PreviousWasCurrent(h, k, i - 1);
  }

  /** Where a current projection may come from: the releases before windows, or an earlier
      release that already accepted it as `next`. */
  ghost predicate Sighted(h: History, k: nat, i: nat, components: map<string, Json>) {
    || (exists j: nat :: j < k && CurrentAt(h, j, components))
    || (exists j: nat :: j < i && NextAt(h, j, components))
  }

  /** Whole-run safety, second half: no projection becomes current unseen. */
  lemma {:induction false} CurrentWasSighted(h: History, k: nat, i: nat)
    requires Run(h, k) && k - 1 <= i < |h|
    ensures Sighted(h, k, i, h[i].window.current.components)
    decreases i
  {
    hide RelabelProblems, Window.Valid, ClosedPrevious;
    if i == k - 1 {
      assert CurrentAt(h, i, h[i].window.current.components);
    } else {
      var b, w := h[i - 1].window, h[i].window;
      assert StepAt(h, i).Passes? && h[..i][|h[..i]| - 1] == h[i - 1];
      if b.WithNext? && w.WithPrevious? {
        assert NextAt(h, i - 1, w.current.components);
      } else if b.WithPrevious? && w.WithNext? {
        PreviousWasCurrent(h, k, i - 1);
        var j: nat :| j < i - 1 && CurrentAt(h, j, w.current.components);
        if j >= k {
          CurrentWasSighted(h, k, j);
        }
      } else {
        CurrentWasSighted(h, k, i - 1);
      }
    }
  }

  /** Over any run, a projection a release accepts as current or previous was current before
      windows existed or was staged as next in an earlier release: nothing is readmitted or
      promoted that the fleet could not have adopted first. */
  lemma NothingReadmittedUnseen(h: History, k: nat, i: nat)
    requires Run(h, k) && k <= i < |h|
    ensures Sighted(h, k, i, h[i].window.current.components)
    ensures h[i].window.WithPrevious? ==> Sighted(h, k, i, h[i].window.previous.components)
  {
    CurrentWasSighted(h, k, i);
    if h[i].window.WithPrevious? {
      PreviousWasCurrent(h, k, i);
      var j: nat :| j < i && CurrentAt(h, j, h[i].window.previous.components);
      if j >= k {
        CurrentWasSighted(h, k, j);
      }
    }
  }

  /** Every `previous` of release `i` was current in an earlier release, and its current was current
      in the first `k` releases or `next` in an earlier one. */
  ghost predicate SafeAt(h: History, k: nat, i: nat)
    requires i < |h| && h[i].Held?
  {
    && Sighted(h, k, i, h[i].window.current.components)
    && (h[i].window.WithPrevious? ==>
          exists j: nat :: j < i && CurrentAt(h, j, h[i].window.previous.components))
  }

  /** Exactly when a run is safe from its first window on: when that window has no `previous` set.
      Single sets never have one; a new artifact that is released with one passes the check and
      accepts a projection that no release had as current. */
  lemma SafetyNeedsNoEarlyPrevious(h: History, k: nat)
    requires AnyRun(h, k)
    ensures (forall i :: k - 1 <= i < |h| ==> SafeAt(h, k, i)) <==> !h[k - 1].window.WithPrevious?
  {
    hide RelabelProblems, Sighted;
    if h[k - 1].window.WithPrevious? {
      assert !SafeAt(h, k, k - 1);
    } else {
      forall i | k - 1 <= i < |h| ensures SafeAt(h, k, i) {
        CurrentWasSighted(h, k, i);
        if i >= k && h[i].window.WithPrevious? {
          PreviousWasCurrent(h, k, i);
        }
      }
    }
  }

  // ----- undo -----

  /** Every accepted step but a relabel can be taken back by the very next release. */
  lemma EveryStepUndone(h: History, k: nat, head: Window)
    requires Run(h, k) && NextStep(h, head).Passes? && NextStep(h, head) != Passes(Relabel)
    ensures Run(h + [Held(head)], k)
    ensures Run(h + [Held(head), h[|h| - 1]], k)
  {
    RunExtends(h, k, head);
    var g := h + [Held(head)];
    var b := h[|h| - 1].window;
    if b.WithPrevious? && head.Alone? {
      assert g[..|g| - 1] == h;
      assert ClosedPrevious(g, b.current.components) == ClosedPrevious(h, b.current.components);
    }
    RunExtends(g, k, b);
    assert g + [Held(b)] == h + [Held(head), h[|h| - 1]];
  }

  /** Two recorded versions that a relabel may exchange freely. */
  predicate SameRecorded(x: Option<string>, y: Option<string>) {
    var sx := if x.None? then None else StableVersion(x.value);
    var sy := if y.None? then None else StableVersion(y.value);
    sx == sy
  }

  predicate SameProvenance(was: Projection, now: Projection) {
    was != now ==>
      && SameRecorded(Some(was.Version()), Some(now.Version()))
      && SameRecorded(ProjectorVersion(was), ProjectorVersion(now))
  }

  lemma RelabelInverse(b: Window, head: Window)
    requires Takes(Relabel, Some(b), head, None)
    ensures TransitionProblems(Some(head), b, None).Passes?
            <==> forall r :: r in Roles(head) ==> SameProvenance(SetOf(b, r), SetOf(head, r))
  {
    hide TransitionProblems, RelabelProblems, Corrects, SameProvenance;
    StepClassification(Some(head), b, None);
    RolesRead(b);
    RolesRead(head);
    RolesDetermineStep(head, b, None);
    forall r | r in Roles(head)
      ensures Corrects(SetOf(head, r), SetOf(b, r)) <==> SameProvenance(SetOf(b, r), SetOf(head, r))
    {
      CorrectsBack(SetOf(b, r), SetOf(head, r));
    }
    var back := TransitionProblems(Some(head), b, None);
    assert Takes(Relabel, Some(head), b, None) <==> back == Passes(Relabel);
    assert !Takes(Unchanged, Some(head), b, None) && back != Passes(Unchanged);
  }

  lemma CorrectsBack(was: Projection, now: Projection)
    requires Corrects(was, now)
    ensures Corrects(now, was) <==> SameProvenance(was, now)
  {
    KeepsBack(Some(was.Version()), Some(now.Version()));
    KeepsBack(ProjectorVersion(was), ProjectorVersion(now));
  }

  lemma KeepsBack(was: Option<string>, now: Option<string>)
    requires Keeps(was, now)
    ensures Keeps(now, was) <==> SameRecorded(was, now)
  {
  }

  /** A relabel can be taken back exactly when it moved no recorded version. */
  lemma RelabelUndoneExactly(h: History, k: nat, head: Window)
    requires Run(h, k) && NextStep(h, head) == Passes(Relabel)
    ensures Run(h + [Held(head), h[|h| - 1]], k)
            <==> forall r :: r in Roles(head) ==>
                               SameProvenance(SetOf(h[|h| - 1].window, r), SetOf(head, r))
  {
    var b, g := h[|h| - 1].window, h + [Held(head)];
    RunExtends(h, k, head);
    RolesDetermineStep(b, head, None);
    StepClassification(Some(b), head, None);
    assert Takes(Relabel, Some(b), head, None);
    RelabelInverse(b, head);
    assert NextStep(g, b) == TransitionProblems(Some(head), b, None);
    var f := h + [Held(head), h[|h| - 1]];
    assert f == g + [Held(b)];
    if NextStep(g, b).Passes? {
      RunExtends(g, k, b);
    } else {
      assert f[..|g|] == g;
      assert !StepAt(f, |g|).Passes?;
    }
  }

  /** A release that may follow a close without changing what reopening it brings back. */
  predicate Quiet(o: Outcome) {
    o.Passes? && o.step in {Unchanged, Relabel, Stage, Abandon}
  }

  lemma {:induction false} QuietKeepsClosed(h: History, k: nat, a: nat, n: nat)
    requires Run(h, k) && k <= a && a + 1 < n <= |h|
    requires h[a].window.WithPrevious? && StepAt(h, a + 1) == Passes(Close)
    requires forall i :: a + 1 < i < n ==> Quiet(StepAt(h, i))
    ensures forall i :: a < i < n ==> Skipped(h[i], h[a].window.current.components)
    decreases n
  {
    var components := h[a].window.current.components;
    assert h[..a + 1][a] == h[a];
    assert Skipped(h[a + 1], components);
    if n > a + 2 {
      QuietKeepsClosed(h, k, a, n - 1);
      var i := n - 1;
      assert Quiet(StepAt(h, i)) && h[..i][i - 1] == h[i - 1] && Skipped(h[i - 1], components);
      assert Skipped(h[i], components);
    }
  }

  lemma QuietEndsClosed(h: History, k: nat, a: nat)
    requires Run(h, k) && k <= a && a + 1 < |h|
    requires h[a].window.WithPrevious? && StepAt(h, a + 1) == Passes(Close)
    requires forall i :: a + 1 < i < |h| ==> Quiet(StepAt(h, i))
    ensures h[|h| - 1].window.current.components == h[a].window.current.components
    ensures ClosedPrevious(h, h[a].window.current.components) == Some(h[a].window.previous)
  {
    var components := h[a].window.current.components;
    QuietKeepsClosed(h, k, a, |h|);
    assert Skipped(h[|h| - 1], components);
    ClosedPreviousIsDroppedSet(h, components);
    assert ClosedAfter(h, components, a);
  }

  /** Undo at a distance: after a close and any number of quiet releases that end with a single
      set, history yields exactly the dropped set, and reopening with it is accepted. */
  lemma ReopenAfterClose(h: History, k: nat, a: nat)
    requires Run(h, k) && k <= a && a + 1 < |h|
    requires h[a].window.WithPrevious? && StepAt(h, a + 1) == Passes(Close)
    requires forall i :: a + 1 < i < |h| ==> Quiet(StepAt(h, i))
    requires h[|h| - 1].window.Alone?
    ensures ClosedPrevious(h, h[|h| - 1].window.current.components) == Some(h[a].window.previous)
    ensures var head := WithPrevious(h[|h| - 1].window.current, h[a].window.previous);
            NextStep(h, head) == Passes(Reopen) && Run(h + [Held(head)], k)
  {
    QuietEndsClosed(h, k, a);
    var head := WithPrevious(h[|h| - 1].window.current, h[a].window.previous);
    ReopenPasses(h, head);
    hide *;
    RunExtends(h, k, head);
  }

  lemma ReopenPasses(h: History, head: Window)
    requires h != [] && h[|h| - 1].Held? && h[|h| - 1].window == Alone(head.current)
    requires head.WithPrevious? && ClosedPrevious(h, head.current.components) == Some(head.previous)
    ensures NextStep(h, head) == Passes(Reopen)
  {
  }
}
