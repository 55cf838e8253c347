// The coverage ratchet and its floor file.
module CoverageRatchet {
  import opened Common
  import opened Reference
  import opened Lines

  // The band around the floor in which a run passes and the floor stays.
  const SLACK := 0.5
  const RAISE := 2.0

  /** What stands at the floor file's path. A file that is no JSON object with a numeric floor is
      corrupt. */
  datatype File = Absent | Corrupt | Recorded(floor: real, reason: Option<Json>)

  /** `r` is a value that rounding `p` to one decimal may give, however ties are broken. */
  predicate RoundsTo(p: real, r: real) {
    Tenth(r) && -0.05 <= r - p <= 0.05
  }

  predicate Tenth(r: real) { (r * 10.0).Floor as real == r * 10.0 }

  predicate Blank(reason: Option<Json>) {
    AllSpace(if reason.Some? then PyText(reason.value) else "")
  }

  /** A recorded floor that is trusted: a percentage, and a floor of 0 only with a reason that is not
      all white space. */
  ghost predicate Trusted(file: File) {
    && file.Recorded? && 0.0 <= file.floor <= 100.0
    && (file.floor == 0.0 ==>
          && file.reason.Some?
          && exists i :: 0 <= i < |PyText(file.reason.value)| && !IsSpace(PyText(file.reason.value)[i]))
  }

  const DEFAULT_REASON := Str("recorded by the coverage ratchet")

  /** The reason that a new floor carries. */
  function KeptReason(file: File): Json {
    if file.Recorded? && file.reason.Some? && Truthy(file.reason.value) then file.reason.value
    else DEFAULT_REASON
  }

  /** A reason is kept unless it is missing, null, an empty text, list or object, a zero or `false`. */
  lemma KeptReasonExactly(file: File)
    ensures KeptReason(file)
            == if && file.Recorded? && file.reason.Some? && file.reason.value !in {Null, Str(""), Arr([]), Obj(map[])}
                  && (file.reason.value.Scalar? ==> file.reason.value.truthy)
               then file.reason.value else Str("recorded by the coverage ratchet")
  {
  }

  predicate Percentage(x: real) { 0.0 <= x <= 100.0 }

  /** The floor the file records, none, or a refusal to trust the file. */
  function Loaded(file: File): Result<Option<real>, ()> {
    match file
    case Absent => Ok(None)
    case Corrupt => Err(())
    case Recorded(floor, reason) =>
      if !Percentage(floor) || (floor == 0.0 && Blank(reason)) then Err(()) else Ok(Some(floor))
  }

  /** One call: the measured coverage, its rounded value, and whether it may write. */
  datatype Call = Call(pct: real, rounded: real, write: bool)

  datatype Verdict = Verdict(exit: int, file: File)

  /** The exit code of one call, and the floor file it leaves. */
  function Judged(file: File, call: Call, threshold: real): Verdict {
    var loaded := Loaded(file);
    var raised := Recorded(call.rounded, Some(KeptReason(file)));
    if loaded.Err? then Verdict(1, file)
    else if call.pct >= threshold then
      (if loaded.value.None? then Verdict(0, file)
       else if call.write then Verdict(0, Absent)
       else Verdict(1, file))
    else if loaded.value.None? then (if call.write then Verdict(0, raised) else Verdict(1, file))
    else if call.pct < loaded.value.value - SLACK then Verdict(1, file)
    else if call.pct > loaded.value.value + RAISE then
      (if call.write then Verdict(0, raised) else Verdict(1, file))
    else Verdict(0, file)
  }

  /** The floor file of a repository. */
  class FloorFile {
    var content: File

    constructor (content: File)
      ensures this.content == content
    {
      this.content := content;
    }

    method LoadFloor() returns (floor: Result<Option<real>, ()>, existing: File)
      ensures floor == Loaded(content) && (floor.Ok? ==> existing == content)
      ensures floor == Ok(None) <==> content.Absent?
      ensures floor.Err? <==> !content.Absent? && !Trusted(content)
      ensures Trusted(content) ==> floor == Ok(Some(content.floor))
    {
      existing := content;
      match content
      case Absent => floor := Ok(None);
      case Corrupt => floor := Err(());
      case Recorded(recorded, reason) =>
        if !Percentage(recorded) || (recorded == 0.0 && Blank(reason)) {
          floor := Err(());
        } else {
          floor := Ok(Some(recorded));
        }
    }

    /** Record a floor. It is read back by the next load if it is a percentage, and a floor of 0
        only with a reason that says something; a reason once given stays. */
    method WriteFloor(rounded: real, existing: File)
      modifies this
      ensures content == Recorded(rounded, Some(KeptReason(existing)))
      ensures KeptReason(content) == KeptReason(existing)
      ensures Loaded(content)
              == if Percentage(rounded) && (rounded == 0.0 ==> !Blank(Some(KeptReason(existing))))
                 then Ok(Some(rounded)) else Err(())
    {
      content := Recorded(rounded, Some(KeptReason(existing)));
    }

    /** One call. Coverage that reaches the threshold goes with no floor, and coverage below it with a
        trusted floor that it neither falls under by more than 0.5 nor exceeds by more than 2.0. A
        plain call fails in any other case and never changes the file; with `--write` a call makes
        the file agree, and fails only for a file that is not trusted or coverage that fell. */
    method Evaluate(call: Call, threshold: real) returns (exit: int)
      modifies this
      ensures Verdict(exit, content) == Judged(old(content), call, threshold)
      ensures exit in {0, 1} && (exit == 1 || !call.write ==> content == old(content))
      ensures !call.write ==>
                (exit == 0 <==>
                 if call.pct >= threshold then old(content).Absent?
                 else Trusted(old(content)) && old(content).floor - 0.5 <= call.pct <= old(content).floor + 2.0)
      ensures call.write ==>
                (exit == 0 <==>
                 || old(content).Absent?
                 || (Trusted(old(content)) && (call.pct >= threshold || call.pct >= old(content).floor - 0.5)))
      ensures call.write && exit == 0 ==>
                && (content.Absent? <==> call.pct >= threshold)
                && (call.pct < threshold ==>
                      content == if old(content).Recorded? && call.pct <= old(content).floor + 2.0 then old(content)
                                 else Recorded(call.rounded, Some(KeptReason(old(content)))))
    {
      var floor, existing := LoadFloor();
      if floor.Err? {
        return 1;
      }
      if call.pct >= threshold {
        if floor.value.None? {
          return 0;
        }
        if call.write {
          content := Absent;
          return 0;
        }
        return 1;
      }
      if floor.value.None? {
        if call.write {
          WriteFloor(call.rounded, existing);
          return 0;
        }
        return 1;
      }
      if call.pct < floor.value.value - SLACK {
        return 1;
      }
      if call.pct > floor.value.value + RAISE {
        if call.write {
          WriteFloor(call.rounded, existing);
          return 0;
        }
        return 1;
      }
      return 0;
    }
  }

  // ----- one call after another -----

  lemma DefaultReasonSpeaks()
    ensures !Blank(Some(DEFAULT_REASON))
  {
    assert !IsSpace("recorded by the coverage ratchet"[0]);
  }

  /** A floor of 0 is only ever written with the default reason. */
  lemma NewReasonSpeaks(file: File, call: Call, threshold: real)
    requires RoundsTo(call.pct, call.rounded) && Writes(file, call, threshold)
    ensures call.rounded == 0.0 ==> KeptReason(file) == DEFAULT_REASON
  {
    hide Tenth;
  }

  /** A call changes the file only by writing. */
  predicate Writes(file: File, call: Call, threshold: real) {
    Judged(file, call, threshold).exit == 0 && Judged(file, call, threshold).file != file
    && Judged(file, call, threshold).file.Recorded?
  }

  /** A rounded percentage is a percentage. */
  lemma RoundedPercentage(p: real, r: real)
    requires RoundsTo(p, r) && Percentage(p)
    ensures Percentage(r)
  {
    var k := (r * 10.0).Floor;
    assert k as real == r * 10.0 && -0.5 <= k as real <= 1000.5;
  }

  /** In particular for every measured percentage: writing converges at once. */
  lemma WriteConverges(file: File, call: Call, threshold: real)
    requires RoundsTo(call.pct, call.rounded) && Percentage(call.pct)
    requires Judged(file, call.(write := true), threshold).exit == 0
    ensures var after := Judged(file, call.(write := true), threshold).file;
            Judged(after, call.(write := false), threshold) == Verdict(0, after)
  {
    RoundedPercentage(call.pct, call.rounded);
    ConvergesExactly(file, call.(write := true), threshold);
  }

  /** After a call that exits 0, the same call without `--write` exits 0 and changes nothing:
      always when no floor was written, and otherwise exactly when the rounded coverage is a
      percentage. */
  lemma ConvergesExactly(file: File, call: Call, threshold: real)
    requires RoundsTo(call.pct, call.rounded) && Judged(file, call, threshold).exit == 0
    ensures var after := Judged(file, call, threshold).file;
            Judged(after, call.(write := false), threshold) == Verdict(0, after)
            <==> !Writes(file, call, threshold) || Percentage(call.rounded)
  {
    DefaultReasonSpeaks();
    hide Blank, KeptReason, Tenth;
    if Writes(file, call, threshold) {
      NewReasonSpeaks(file, call, threshold);
    }
  }

  // ----- runs -----

  /** A run of calls that each exit 0 and leave a floor recorded; `files[i]` is what call `i`
      finds. What the first call finds is free. */
  ghost predicate Run(files: seq<File>, calls: seq<Call>, threshold: real) {
    && |files| == |calls| + 1
    && (forall i :: 0 <= i < |calls| ==> Judged(files[i], calls[i], threshold) == Verdict(0, files[i + 1]))
    && (forall i :: 0 <= i < |calls| ==> RoundsTo(calls[i].pct, calls[i].rounded))
    && (forall i :: 0 < i < |files| ==> files[i].Recorded?)
  }

  ghost predicate RaisesAt(files: seq<File>, i: nat)
    requires i + 1 < |files|
  {
    files[i].Recorded? && files[i + 1].Recorded? && files[i + 1].floor != files[i].floor
  }

  /** What one call of a run says about its neighbours. */
  lemma OneCall(files: seq<File>, calls: seq<Call>, threshold: real, i: nat)
    requires Run(files, calls, threshold) && i < |calls|
    ensures calls[i].pct < threshold && calls[i].pct <= files[i + 1].floor + RAISE
    ensures files[i].Recorded? ==> Percentage(files[i].floor) && calls[i].pct >= files[i].floor - SLACK
    ensures files[i].Recorded? ==> files[i + 1].floor >= files[i].floor
    ensures RaisesAt(files, i) ==>
              && files[i + 1].floor == calls[i].rounded && calls[i].pct > files[i].floor + RAISE
              && files[i + 1].floor > files[i].floor + 1.95
  {
    hide Tenth, Blank, KeptReason;
    assert Judged(files[i], calls[i], threshold) == Verdict(0, files[i + 1]);
    assert RoundsTo(calls[i].pct, calls[i].rounded);
  }

  /** The floor never decreases. */
  lemma {:induction false} FloorNeverDecreases(files: seq<File>, calls: seq<Call>, threshold: real, i: nat, j: nat)
    requires Run(files, calls, threshold) && i <= j < |files| && files[i].Recorded?
    ensures files[i].floor <= files[j].floor
    decreases j
  {
    if i < j {
      FloorNeverDecreases(files, calls, threshold, i, j - 1);
      OneCall(files, calls, threshold, j - 1);
    }
  }

  /** No compounding decay: however long the run, a later measured coverage is at most 2.5 points
      below any earlier one. */
  lemma NoCompoundingDecay(files: seq<File>, calls: seq<Call>, threshold: real, i: nat, j: nat)
    requires Run(files, calls, threshold) && i < j < |calls|
    ensures calls[j].pct >= calls[i].pct - (SLACK + RAISE)
  {
    OneCall(files, calls, threshold, i);
    OneCall(files, calls, threshold, j);
    FloorNeverDecreases(files, calls, threshold, i + 1, j);
  }

  /** How many of the first `n` calls raise the floor. */
  ghost function Raises(files: seq<File>, n: nat): nat
    requires n < |files|
  {
    if n == 0 then 0 else Raises(files, n - 1) + (if RaisesAt(files, n - 1) then 1 else 0)
  }

  /** Rounding keeps raises at least two whole points apart. */
  lemma TwoPoints(floor: real, rounded: real, r: nat)
    requires Tenth(rounded) && floor >= 2.0 * r as real && rounded > floor + 1.95
    ensures rounded >= 2.0 * (r + 1) as real
  {
    var k := (rounded * 10.0).Floor;
    assert k as real > 20.0 * r as real + 19.5;
    assert k > 20 * r + 19;
  }

  lemma {:induction false} RaisesLift(files: seq<File>, calls: seq<Call>, threshold: real, n: nat)
    requires Run(files, calls, threshold) && n < |files|
    ensures Raises(files, n) > 0 ==> files[n].Recorded? && files[n].floor >= 2.0 * Raises(files, n) as real
    decreases n
  {
    if n > 0 {
      RaisesLift(files, calls, threshold, n - 1);
      OneCall(files, calls, threshold, n - 1);
      if RaisesAt(files, n - 1) {
        assert RoundsTo(calls[n - 1].pct, calls[n - 1].rounded);
        TwoPoints(files[n - 1].floor, calls[n - 1].rounded, Raises(files, n - 1));
      }
    }
  }

  /** However long a run is, it raises the floor at most 51 times; at most 49 times when no call
      measures more than 100, as below a threshold of at most 100. */
  lemma {:induction false} FewRaises(files: seq<File>, calls: seq<Call>, threshold: real, n: nat)
    requires Run(files, calls, threshold) && n < |files|
    ensures Raises(files, n) <= 51
    ensures threshold <= 100.0 || (forall i :: 0 <= i < n ==> calls[i].pct <= 100.0) ==> Raises(files, n) <= 49
    decreases n
  {
    if n > 0 {
      FewRaises(files, calls, threshold, n - 1);
      RaisesLift(files, calls, threshold, n - 1);
      OneCall(files, calls, threshold, n - 1);
    }
  }

  /** A floor that moves keeps the reason it was first given. */
  lemma {:induction false} ReasonKept(files: seq<File>, calls: seq<Call>, threshold: real, i: nat, j: nat)
    requires Run(files, calls, threshold) && i <= j < |files| && files[i].Recorded?
    ensures files[j].Recorded? && KeptReason(files[j]) == KeptReason(files[i])
    decreases j
  {
    if i < j {
      ReasonKept(files, calls, threshold, i, j - 1);
      assert Judged(files[j - 1], calls[j - 1], threshold) == Verdict(0, files[j]);
    }
  }

  // The bounds are reached.

  function Climb(k: nat): File { Recorded(2.0 * k as real, Some(DEFAULT_REASON)) }

  function ClimbCall(k: nat): Call { Call(2.0 * k as real + 2.01, 2.0 * k as real + 2.0, true) }

  lemma ClimbStep(k: nat, threshold: real)
    requires k < 51 && ClimbCall(k).pct < threshold
    ensures RoundsTo(ClimbCall(k).pct, ClimbCall(k).rounded)
    ensures Judged(Climb(k), ClimbCall(k), threshold) == Verdict(0, Climb(k + 1))
  {
    DefaultReasonSpeaks();
    hide Blank;
    assert ClimbCall(k).rounded * 10.0 == (20 * k + 20) as real;
  }

  lemma {:induction false} ClimbRaises(files: seq<File>, n: nat)
    requires n < |files| && forall k :: 0 <= k < |files| ==> files[k] == Climb(k)
    ensures Raises(files, n) == n
  {
    if n > 0 {
      ClimbRaises(files, n - 1);
      assert files[n - 1] == Climb(n - 1) && files[n] == Climb(n);
    }
  }

  /** A run that climbs from a floor of 0 in `n` raises. */
  ghost predicate Climbs(files: seq<File>, calls: seq<Call>, threshold: real, n: nat) {
    && Run(files, calls, threshold) && |calls| == n && Raises(files, n) == n
    && forall i :: 0 <= i < n ==> calls[i] == ClimbCall(i)
  }

  lemma ClimbRun(n: nat, threshold: real)
    requires n <= 51 && 2.0 * n as real + 0.01 < threshold
    ensures exists files: seq<File>, calls: seq<Call> :: Climbs(files, calls, threshold, n)
  {
    hide Judged, RoundsTo, Raises;
    var files, calls := seq(n + 1, k requires 0 <= k => Climb(k)), seq(n, k requires 0 <= k => ClimbCall(k));
    ClimbRaises(files, n);
    forall i | 0 <= i < n
      ensures RoundsTo(calls[i].pct, calls[i].rounded)
      ensures Judged(files[i], calls[i], threshold) == Verdict(0, files[i + 1]) {
      ClimbStep(i, threshold);
    }
    assert Climbs(files, calls, threshold, n);
  }

  /** Both bounds on raises are reached. */
  lemma RaisesAreReached()
    ensures exists files: seq<File>, calls: seq<Call> :: Run(files, calls, 103.0) && |calls| == 51 == Raises(files, 51)
    ensures exists files: seq<File>, calls: seq<Call> ::
              && Run(files, calls, 100.0) && |calls| == 49 == Raises(files, 49)
              && forall i :: 0 <= i < |calls| ==> Percentage(calls[i].pct)
  {
    hide Raises, Run;
    ClimbRun(51, 103.0);
    var files: seq<File>, calls: seq<Call> :| Climbs(files, calls, 103.0, 51);
    ClimbRun(49, 100.0);
    var fewer: seq<File>, percentages: seq<Call> :| Climbs(fewer, percentages, 100.0, 49);
    assert forall i :: 0 <= i < 49 ==> Percentage(percentages[i].pct);
  }

  /** So is the bound on decay. */
  lemma WholeDecay()
    ensures exists files: seq<File>, calls: seq<Call> ::
              Run(files, calls, 100.0) && |calls| == 2 && calls[1].pct == calls[0].pct - (SLACK + RAISE)
  {
    DefaultReasonSpeaks();
    hide Blank;
    var held := Recorded(50.0, Some(DEFAULT_REASON));
    var up, down := Call(52.0, 52.0, false), Call(49.5, 49.5, false);
    assert (52.0 * 10.0).Floor == 520 && (49.5 * 10.0).Floor == 495;
    assert Run([held, held, held], [up, down], 100.0);
  }
}
