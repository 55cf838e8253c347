// API-0007: how far a service's published components are from the accepted sets, and the
// ratchet that turns the distance into a verdict.
module Verdict {
  import opened Common
  import opened Reference
  import opened Transition

  type Components = map<string, Json>

  // ----- reproducing one set -----

  /** The spec publishes this component exactly as the set projects it; a null is not there. */
  predicate Matches(published: Components, want: Components, name: string)
    requires name in want
  {
    name in published && published[name] != Null && published[name] == want[name]
  }

  function Mismatches(published: Components, want: Components): set<string> {
    set name | name in want && !Matches(published, want, name)
  }

  /** The spec reproduces the accepted set whole. */
  predicate Reproduces(published: Components, want: Components) {
    forall name :: name in want ==> Matches(published, want, name)
  }

  datatype Evidence =
    | MatchesSet(index: nat)
    | Stale
    | NoMatch(nearest: nat)
    | MixedVintages(nearest: nat)
    | Other

  datatype Finding = Finding(passed: bool, evidence: Evidence, count: nat)

  function Names(sets: seq<Components>): set<string> {
    set s, name | s in sets && name in s :: name
  }

  /** Every component some set defines is reproduced as one of the sets defining it projects it. */
  predicate EachMatchesSome(published: Components, sets: seq<Components>) {
    forall name :: name in Names(sets) ==>
      exists s :: s in sets && name in s && Matches(published, s, name)
  }

  /** The sets together cover the spec: it publishes each component that any of them has as one of
      them projects it. */
  lemma EachMatchesSomeExactly(published: Components, sets: seq<Components>)
    ensures EachMatchesSome(published, sets)
            <==> forall s, name :: s in sets && name in s ==>
                   && name in published && published[name] != Null
                   && exists t :: t in sets && name in t && published[name] == t[name]
  {
    if EachMatchesSome(published, sets) {
      forall s, name | s in sets && name in s
        ensures && name in published && published[name] != Null
                && exists t :: t in sets && name in t && published[name] == t[name] {
        assert name in Names(sets);
      }
    }
  }

  /** Distance to the nearest accepted set. */
  ghost predicate IsDistance(published: Components, sets: seq<Components>, d: nat) {
    && (exists s :: s in sets && |Mismatches(published, s)| == d)
    && (forall s :: s in sets ==> d <= |Mismatches(published, s)|)
  }

  ghost predicate IsNearest(published: Components, sets: seq<Components>, i: nat) {
    && i < |sets|
    && (forall j :: 0 <= j < |sets| ==> |Mismatches(published, sets[i])| <= |Mismatches(published, sets[j])|)
    && (forall j :: 0 <= j < i ==> |Mismatches(published, sets[i])| < |Mismatches(published, sets[j])|)
  }

  lemma NoMismatchIsReproduction(published: Components, want: Components)
    ensures |Mismatches(published, want)| == 0 <==> Reproduces(published, want)
  {
    if Reproduces(published, want) {
      assert Mismatches(published, want) == {};
    } else {
      var name :| name in want && !Matches(published, want, name);
      assert name in Mismatches(published, want);
    }
  }

  /** One set's problems, component by component. */
  method Problems(published: Components, want: Components) returns (problems: set<string>)
    ensures problems == Mismatches(published, want)
  {
    problems := {};
    var todo := want.Keys;
    while todo != {}
      invariant todo <= want.Keys
      invariant forall n :: n in problems <==> n in want && n !in todo && !Matches(published, want, n)
      decreases |todo|
    {
      var name :| name in todo;
      todo := todo - {name};
      if name !in published || published[name] == Null {
        problems := problems + {name};
      } else if published[name] != want[name] {
        problems := problems + {name};
      }
    }
  }

  /** The finding on a spec: which accepted set it matches, or how far the nearest one is and whether
      the sets together cover the spec. */
  method CompareToAcceptedSets(published: Components, sets: seq<Components>) returns (f: Finding)
    requires sets != []
    ensures f.passed <==> exists s :: s in sets && Reproduces(published, s)
    ensures f.passed <==> f.count == 0
    ensures IsDistance(published, sets, f.count)
    ensures f.passed ==>
              && f.evidence.MatchesSet? && f.evidence.index < |sets|
              && Reproduces(published, sets[f.evidence.index])
              && forall j :: 0 <= j < f.evidence.index ==> !Reproduces(published, sets[j])
    ensures !f.passed && |sets| == 1 ==> f.evidence == Stale
    ensures !f.passed && |sets| > 1 ==>
              && (f.evidence.MixedVintages? <==> EachMatchesSome(published, sets))
              && (f.evidence.NoMatch? <==> !EachMatchesSome(published, sets))
              && IsNearest(published, sets, f.evidence.nearest)
  {
    var perSet: seq<set<string>> := [];
    for i := 0 to |sets|
      invariant |perSet| == i
      invariant forall j :: 0 <= j < i ==> perSet[j] == Mismatches(published, sets[j])
    {
      var problems := Problems(published, sets[i]);
      perSet := perSet + [problems];
    }
    forall j | 0 <= j < |sets| ensures perSet[j] == {} <==> Reproduces(published, sets[j]) {
      NoMismatchIsReproduction(published, sets[j]);
    }
    for i := 0 to |sets|
      invariant forall j :: 0 <= j < i ==> !Reproduces(published, sets[j])
    {
      if perSet[i] == {} {
        assert |Mismatches(published, sets[i])| == 0;
        return Finding(true, MatchesSet(i), 0);
      }
    }
    var unmatched := AnyUnmatched(published, sets);
    var nearest := 0;
    for i := 1 to |sets|
      invariant nearest < i
      invariant forall j :: 0 <= j < i ==> |perSet[nearest]| <= |perSet[j]|
      invariant forall j :: 0 <= j < nearest ==> |perSet[nearest]| < |perSet[j]|
    {
      if |perSet[i]| < |perSet[nearest]| {
        nearest := i;
      }
    }
    assert sets[nearest] in sets && |Mismatches(published, sets[nearest])| > 0;
    f := Finding(false, if |sets| == 1 then Stale
                        else if unmatched then NoMatch(nearest) else MixedVintages(nearest),
                 |perSet[nearest]|);
  }

  /** The scan of every component name that decides between "no match" and "mix". */
  method AnyUnmatched(published: Components, sets: seq<Components>) returns (unmatched: bool)
    ensures unmatched <==> !EachMatchesSome(published, sets)
  {
    unmatched := false;
    var todo := Names(sets);
    while todo != {}
      invariant todo <= Names(sets)
      invariant unmatched <==>
                  exists name :: name in Names(sets) && name !in todo && !MatchedSomewhere(published, sets, name)
      decreases |todo|
    {
      var name :| name in todo;
      todo := todo - {name};
      if !MatchedSomewhere(published, sets, name) {
        unmatched := true;
      }
    }
  }

  predicate MatchedSomewhere(published: Components, sets: seq<Components>, name: string) {
    exists s :: s in sets && name in s && Matches(published, s, name)
  }

  // ----- the distance as a function of the window -----

  /** Distance to the nearest of a nonempty list of sets, as the verdict counts it. */
  function Distance(published: Components, sets: seq<Components>): (d: nat)
    requires sets != []
    ensures IsDistance(published, sets, d)
  {
    var here := |Mismatches(published, sets[0])|;
    if |sets| == 1 then assert sets[0] in sets; here
    else
      var rest := Distance(published, sets[1..]);
      assert forall s :: s in sets <==> s == sets[0] || s in sets[1..];
      if rest < here then rest else here
  }

  function AcceptedComponents(w: Window): (sets: seq<Components>)
    ensures sets != [] && (forall s :: s in sets <==> s in Projected(w))
  {
    match w
    case Alone(c) => [c.components]
    case WithNext(c, n) => [n.components, c.components]
    case WithPrevious(c, p) => [c.components, p.components]
  }

  /** Accepting more projections never increases the distance. */
  lemma MoreSetsNeverFurther(published: Components, fewer: seq<Components>, more: seq<Components>)
    requires fewer != [] && more != [] && forall s :: s in fewer ==> s in more
    ensures Distance(published, more) <= Distance(published, fewer)
  {
  }

  // ----- the catalog loop -----

  datatype Repo = Repo(specError: bool, httpApi: bool, schemas: Components, baseline: map<string, nat>)

  datatype Detector = ComponentsCurrent | OtherDetector(finding: Finding)

  datatype Control = Control(id: string, active: bool, httpOnly: bool, detector: Detector)

  datatype Verdict = Pass | Fail | Frozen | Improved | SkippedControl

  datatype Record = Record(control: string, result: Verdict, count: nat, baseline: nat)

  const PREFIX := "common.v1."

  function Published(schemas: Components): Components {
    map k | k in schemas && PREFIX <= k :: schemas[k]
  }

  /** The verdict on a count, given the count that the baseline admits. */
  function Ratchet(count: nat, baseline: nat): Verdict {
    if count > baseline then Fail
    else if count < baseline then Improved
    else if count > 0 then Frozen
    else Pass
  }

  /** What API-0007 counts on a repository, in terms of the distance to the window. */
  function Api0007Count(repo: Repo, reference: Option<Window>): nat {
    if repo.specError then 1
    else if reference.None? || Published(repo.schemas) == map[] then 0
    else Distance(Published(repo.schemas), AcceptedComponents(reference.value))
  }

  function CountOf(repo: Repo, c: Control, reference: Option<Window>): nat {
    match c.detector
    case ComponentsCurrent => Api0007Count(repo, reference)
    case OtherDetector(f) => f.count
  }

  function RecordOf(repo: Repo, c: Control, reference: Option<Window>): Record {
    var baseline := if c.id in repo.baseline then repo.baseline[c.id] else 0;
    if !c.active || (c.httpOnly && !repo.httpApi) then Record(c.id, SkippedControl, 0, baseline)
    else
      var count := CountOf(repo, c, reference);
      Record(c.id, Ratchet(count, baseline), count, baseline)
  }

  /** The components of a set that the schemas of a spec do not publish as the set projects them. */
  ghost function Unpublished(schemas: Components, want: Components): set<string> {
    set name | name in want
               && !(StartsWith(name, "common.v1.") && name in schemas && schemas[name] != Null
                    && schemas[name] == want[name])
  }

  predicate StartsWith(s: string, prefix: string) { |prefix| <= |s| && s[..|prefix|] == prefix }

  ghost predicate Accepts(w: Window, components: Components) {
    || w.current.components == components
    || (w.WithNext? && w.next.components == components)
    || (w.WithPrevious? && w.previous.components == components)
  }

  lemma MismatchesAreUnpublished(schemas: Components, want: Components)
    ensures Mismatches(Published(schemas), want) == Unpublished(schemas, want)
  {
    forall name ensures StartsWith(name, "common.v1.") <==> PREFIX <= name {
    }
    hide PREFIX, StartsWith;
  }

  lemma NonePublished(schemas: Components)
    ensures Published(schemas) == map[] <==> forall name :: name in schemas ==> !StartsWith(name, "common.v1.")
  {
    forall name ensures StartsWith(name, "common.v1.") <==> PREFIX <= name {
    }
    hide StartsWith, PREFIX;
    assert forall name :: name in Published(schemas) <==> name in schemas && PREFIX <= name;
  }

  /** API-0007 counts one for a broken spec; otherwise nothing without a reference or a published
      component, and else as many components as the nearest accepted set has unpublished. */
  lemma Api0007CountExactly(repo: Repo, reference: Option<Window>)
    ensures var n := Api0007Count(repo, reference);
            if repo.specError then n == 1
            else if reference.None? || forall name :: name in repo.schemas ==> !StartsWith(name, "common.v1.") then n == 0
            else
              && (exists s :: Accepts(reference.value, s) && |Unpublished(repo.schemas, s)| == n)
              && (forall s :: Accepts(reference.value, s) ==> n <= |Unpublished(repo.schemas, s)|)
  {
    NonePublished(repo.schemas);
    if reference.Some? {
      forall s ensures Accepts(reference.value, s) <==> s in AcceptedComponents(reference.value) {
      }
      forall s ensures Mismatches(Published(repo.schemas), s) == Unpublished(repo.schemas, s) {
        MismatchesAreUnpublished(repo.schemas, s);
      }
    }
    hide Accepts, Mismatches, Unpublished, Published, AcceptedComponents;
  }

  /** Nothing is counted exactly when the spec is sound and there is no reference, it publishes no
      component, or it publishes every component of some accepted set as the set projects it. */
  lemma CountIsZeroExactly(repo: Repo, reference: Option<Window>)
    ensures Api0007Count(repo, reference) == 0
            <==> && !repo.specError
                 && (|| reference.None?
                     || (forall name :: name in repo.schemas ==> !StartsWith(name, "common.v1."))
                     || exists s :: && Accepts(reference.value, s)
                                    && forall name :: name in s ==>
                                         && StartsWith(name, "common.v1.") && name in repo.schemas
                                         && repo.schemas[name] != Null && repo.schemas[name] == s[name])
  {
    forall s
      ensures |Unpublished(repo.schemas, s)| == 0
              <==> forall name :: name in s ==>
                     && StartsWith(name, "common.v1.") && name in repo.schemas
                     && repo.schemas[name] != Null && repo.schemas[name] == s[name]
    {
      assert |Unpublished(repo.schemas, s)| == 0 <==> Unpublished(repo.schemas, s) == {};
      assert forall name :: name in Unpublished(repo.schemas, s) <==>
          name in s && !(StartsWith(name, "common.v1.") && name in repo.schemas
                         && repo.schemas[name] != Null && repo.schemas[name] == s[name]);
    }
    Api0007CountExactly(repo, reference);
    hide Unpublished, StartsWith, Accepts, Api0007Count;
  }

  method ComponentsCurrentFinding(repo: Repo, reference: Option<Window>) returns (f: Finding)
    ensures f.count == Api0007Count(repo, reference)
    ensures !repo.specError && reference.Some? && Published(repo.schemas) != map[] ==>
              (f.passed <==> exists s :: s in Projected(reference.value)
                                         && Reproduces(Published(repo.schemas), s))
  {
    if repo.specError {
      return Finding(false, Other, 1);
    }
    if reference.None? {
      return Finding(true, Other, 0);
    }
    var published := Published(repo.schemas);
    if published == map[] {
      return Finding(true, Other, 0);
    }
    var sets := AcceptedComponents(reference.value);
    f := CompareToAcceptedSets(published, sets);
  }

  /** One record per control. A control is skipped exactly when it is not active, or is for HTTP APIs
      only and the repository has none. Any other fails exactly when its detector counts more than
      is frozen for it, or than 0 when nothing is. */
  method Evaluate(repo: Repo, controls: seq<Control>, reference: Option<Window>)
    returns (results: seq<Record>)
    ensures |results| == |controls|
    ensures forall i :: 0 <= i < |controls| ==>
              results[i].control == controls[i].id && results[i] == RecordOf(repo, controls[i], reference)
    ensures forall i :: 0 <= i < |controls| ==>
              && (controls[i].id in repo.baseline ==> results[i].baseline == repo.baseline[controls[i].id])
              && (controls[i].id !in repo.baseline ==> results[i].baseline == 0)
    ensures forall i :: 0 <= i < |controls| ==>
              && (results[i].result == SkippedControl
                  <==> !controls[i].active || (controls[i].httpOnly && !repo.httpApi))
              && (results[i].result == SkippedControl ==> results[i].count == 0)
    ensures forall i :: 0 <= i < |controls| && results[i].result != SkippedControl ==>
              && (controls[i].detector.ComponentsCurrent? ==> results[i].count == Api0007Count(repo, reference))
              && (controls[i].detector.OtherDetector? ==> results[i].count == controls[i].detector.finding.count)
    ensures forall i :: 0 <= i < |controls| && results[i].result != SkippedControl ==>
              && (results[i].result == Fail <==> results[i].count > results[i].baseline)
              && (results[i].result == Improved <==> results[i].count < results[i].baseline)
              && (results[i].result == Frozen <==> results[i].count == results[i].baseline > 0)
              && (results[i].result == Pass <==> results[i].count == results[i].baseline == 0)
  {
    hide Api0007Count;
    results := [];
    for i := 0 to |controls|
      invariant |results| == i
      invariant forall j :: 0 <= j < i ==> results[j] == RecordOf(repo, controls[j], reference)
    {
      var c := controls[i];
      var rec := Record(c.id, SkippedControl, 0, if c.id in repo.baseline then repo.baseline[c.id] else 0);
      if c.active && !(c.httpOnly && !repo.httpApi) {
        var f: Finding;
        match c.detector {
          case ComponentsCurrent => f := ComponentsCurrentFinding(repo, reference);
          case OtherDetector(found) => f := found;
        }
        rec := rec.(count := f.count);
        if f.count > rec.baseline {
          rec := rec.(result := Fail);
        } else if f.count < rec.baseline {
          rec := rec.(result := Improved);
        } else if f.count > 0 {
          rec := rec.(result := Frozen);
        } else {
          rec := rec.(result := Pass);
        }
      }
      results := results + [rec];
    }
  }

  // ----- what a step does to the fleet -----

  /** No accepted step but abandon and close raises any repository's count, so none of them
      turns a verdict into a failure, whatever debt the repository has frozen. */
  lemma StepRaisesNoCount(repo: Repo, c: Control, base: Window, head: Window, closed: Option<Projection>)
    requires TransitionProblems(Some(base), head, closed).Passes?
    requires TransitionProblems(Some(base), head, closed).step !in {Abandon, Close}
    ensures Api0007Count(repo, Some(head)) <= Api0007Count(repo, Some(base))
    ensures RecordOf(repo, c, Some(head)).result == Fail ==> RecordOf(repo, c, Some(base)).result == Fail
  {
    hide RelabelProblems, TransitionProblems, Published, Mismatches;
    OtherStepsKeep(base, head, closed);
    MoreSetsNeverFurther(Published(repo.schemas), AcceptedComponents(base), AcceptedComponents(head));
  }

  /** A spec that reproduces the last release's current set passes at the head, whatever step
      was taken. */
  lemma CurrentSpecStillPasses(repo: Repo, base: Window, head: Window, closed: Option<Projection>)
    requires TransitionProblems(Some(base), head, closed).Passes?
    requires !repo.specError && Reproduces(Published(repo.schemas), base.current.components)
    ensures Api0007Count(repo, Some(head)) == 0
  {
    var published := Published(repo.schemas);
    NoFlagDay(base, head, closed);
    NoMismatchIsReproduction(published, base.current.components);
    assert base.current.components in AcceptedComponents(head);
  }

  /** The set an abandon or a close withdraws. */
  function Dropped(base: Window): Projection
    requires !base.Alone?
  {
    if base.WithNext? then base.next else base.previous
  }

  /** A spec can publish this component of the set: a null is never there, and a name without the
      prefix is not looked at. */
  predicate Publishable(want: Components, name: string) {
    name in want && want[name] != Null && PREFIX <= name
  }

  /** What only the kept set asks for: components the dropped set lacks, or projects otherwise and
      a spec can publish. */
  function AskedAnew(kept: Components, dropped: Components): set<string> {
    set name | name in kept && (name !in dropped || (Publishable(dropped, name) && dropped[name] != kept[name]))
  }

  /** What no spec could give the dropped set and the kept set does not ask for. */
  function NoLongerAsked(kept: Components, dropped: Components): set<string> {
    set name | name in dropped && name !in kept && !Publishable(dropped, name)
  }

  /** Exactly when withdrawing a set can raise some repository's count: when the set that remains
      asks for more components anew than unpublishable ones of the withdrawn set are no longer
      asked for. In sets of prefixed names without nulls that is any component the two do not
      project the same way. */
  lemma WithdrawalRaisesExactly(base: Window)
    requires !base.Alone?
    ensures var kept, dropped := base.current.components, Dropped(base).components;
            (exists repo: Repo ::
               Api0007Count(repo, Some(Alone(base.current))) > Api0007Count(repo, Some(base)))
            <==> |AskedAnew(kept, dropped)| > |NoLongerAsked(kept, dropped)|
  {
    var kept, dropped := base.current.components, Dropped(base).components;
    forall repo: Repo
      ensures Api0007Count(repo, Some(Alone(base.current))) > Api0007Count(repo, Some(base)) ==>
                |AskedAnew(kept, dropped)| > |NoLongerAsked(kept, dropped)|
    {
      CountRises(repo, base);
      AtMostAskedAnew(Published(repo.schemas), kept, dropped);
    }
    var repo := Repo(false, true, AsPublished(dropped), map[]);
    PublishesAll(dropped);
    CountRises(repo, base);
    AllAskedAnew(Published(repo.schemas), kept, dropped);
  }

  /** A repository's count rises with the withdrawal exactly when its spec is farther from the set
      that remains than from the one withdrawn. */
  lemma CountRises(repo: Repo, base: Window)
    requires !base.Alone?
    ensures var kept, dropped := base.current.components, Dropped(base).components;
            var published := Published(repo.schemas);
            Api0007Count(repo, Some(Alone(base.current))) > Api0007Count(repo, Some(base))
            <==> && !repo.specError && published != map[]
                 && |Mismatches(published, kept)| > |Mismatches(published, dropped)|
  {
    hide Mismatches, Published;
    var kept, dropped := base.current.components, Dropped(base).components;
    assert forall s :: s in AcceptedComponents(base) <==> s == kept || s == dropped;
    assert AcceptedComponents(Alone(base.current)) == [kept];
  }

  /** The schemas of a spec that publishes what can be published of the set, or else a null. */
  function AsPublished(dropped: Components): Components {
    if Published(dropped) == map[] then map[PREFIX := Null] else dropped
  }

  lemma PublishesAll(dropped: Components)
    ensures var published := Published(AsPublished(dropped));
            && published != map[]
            && forall name :: (name in published && published[name] != Null <==> Publishable(dropped, name))
                              && (Publishable(dropped, name) ==> published[name] == dropped[name])
  {
    var published := Published(AsPublished(dropped));
    if Published(dropped) == map[] {
      assert PREFIX in published;
      forall name | Publishable(dropped, name) ensures name in Published(dropped) {
      }
    }
  }

  lemma AtMostAskedAnew(published: Components, kept: Components, dropped: Components)
    requires forall name :: name in published ==> PREFIX <= name
    ensures |Mismatches(published, kept)| + |NoLongerAsked(kept, dropped)|
            <= |Mismatches(published, dropped)| + |AskedAnew(kept, dropped)|
  {
    hide PREFIX;
    var m, d := Mismatches(published, kept), Mismatches(published, dropped);
    var anew, gone := AskedAnew(kept, dropped), NoLongerAsked(kept, dropped);
    SubsetIsSmaller(m, (d - gone) + anew);
    assert gone <= d;
    hide *;
    assert d == (d - gone) + gone;
  }

  /** The spec that publishes what it can of the dropped set misses everything asked anew. */
  lemma AllAskedAnew(published: Components, kept: Components, dropped: Components)
    requires forall name :: (name in published && published[name] != Null <==> Publishable(dropped, name))
                            && (Publishable(dropped, name) ==> published[name] == dropped[name])
    ensures |Mismatches(published, kept)| + |NoLongerAsked(kept, dropped)|
            == |Mismatches(published, dropped)| + |AskedAnew(kept, dropped)|
  {
    hide *;
    var both := set name | name in kept && name in dropped && !Publishable(dropped, name);
    var m, d := Mismatches(published, kept), Mismatches(published, dropped);
    var anew, gone := AskedAnew(kept, dropped), NoLongerAsked(kept, dropped);
    forall name
      ensures name in m <==> name in both || name in anew
      ensures name in d <==> name in both || name in gone
      ensures !(name in both && (name in anew || name in gone))
    {
      assert name in both <==> name in kept && name in dropped && !Publishable(dropped, name);
      Missed(published, kept, dropped, name);
    }
    SharedPart(m, d, both, anew, gone);
  }

  lemma SharedPart(m: set<string>, d: set<string>, both: set<string>, anew: set<string>, gone: set<string>)
    requires forall name :: name in m <==> name in both || name in anew
    requires forall name :: name in d <==> name in both || name in gone
    requires forall name :: !(name in both && (name in anew || name in gone))
    ensures |m| + |gone| == |d| + |anew|
  {
    assert m == both + anew && both !! anew;
    assert d == both + gone && both !! gone;
  }

  lemma Missed(published: Components, kept: Components, dropped: Components, name: string)
    requires name in published && published[name] != Null <==> Publishable(dropped, name)
    requires Publishable(dropped, name) ==> published[name] == dropped[name]
    ensures name in Mismatches(published, kept)
            <==> name in kept && (name in dropped ==> !Publishable(dropped, name) || name in AskedAnew(kept, dropped))
    ensures name in Mismatches(published, dropped) <==> name in dropped && !Publishable(dropped, name)
    ensures name in AskedAnew(kept, dropped)
            <==> name in kept && (name !in dropped || (Publishable(dropped, name) && dropped[name] != kept[name]))
    ensures name in NoLongerAsked(kept, dropped) <==> name in dropped && name !in kept && !Publishable(dropped, name)
  {
    hide PREFIX;
  }

  lemma SubsetIsSmaller(a: set<string>, b: set<string>)
    requires a <= b
    ensures |a| <= |b|
  {
    assert b == a + (b - a);
  }
}
