/**
 Assembling a sandbox run's result: which error carries the capture metadata, what the
 usage counters say, and how cleanup and measurement failures are kept apart from the workload.
 */
module SandboxRun {
  import opened Wrappers
  import opened Errors
  import opened OutputCapture

  /** How the removal of an owned container ended; the error values come from arbitrary command runners. */
  datatype RemovalOutcome =
    | Removed
    | Unresolved(text: string)
    | InspectionFailed(error: Error)
    | RemovalFailed(error: Error)

  function RemovalError(r: RemovalOutcome): Error {
    match r
    case Removed => NoError
    case Unresolved(text) => Message(text)
    case InspectionFailed(e) =>
      Join([Message("sandbox cleanup inspection unresolved"),
            ControlProcessError(e, "sandbox cleanup inspection output unavailable")])
    case RemovalFailed(e) =>
      Join([Message("owned sandbox removal failed"),
            ControlProcessError(e, "sandbox cleanup removal output unavailable")])
  }

  /** Whatever the control processes reported, a removal error never looks like a workload capture. */
  lemma RemovalCarriesNoCapture(r: RemovalOutcome)
    ensures Capture(RemovalError(r)) == None
  {
    match r
    case InspectionFailed(e) =>
      var inner := ControlProcessError(e, "sandbox cleanup inspection output unavailable");
      ControlErrorsCarryNoCapture(e, "sandbox cleanup inspection output unavailable");
      FindInPair(Message("sandbox cleanup inspection unresolved"), inner, CAPTURE);
    case RemovalFailed(e) =>
      var inner := ControlProcessError(e, "sandbox cleanup removal output unavailable");
      ControlErrorsCarryNoCapture(e, "sandbox cleanup removal output unavailable");
      FindInPair(Message("owned sandbox removal failed"), inner, CAPTURE);
    case _ =>
  }

  /**
   Its exit code can be a control process's: that of a failed inspection or removal whose error carries no
   capture.
   */
  lemma RemovalExitCode(r: RemovalOutcome)
    ensures Find(RemovalError(r), EXIT_CODE) ==
            match r
            case InspectionFailed(e) => if Capture(e).None? then Find(e, EXIT_CODE) else None
            case RemovalFailed(e) => if Capture(e).None? then Find(e, EXIT_CODE) else None
            case _ => None
  {
    match r
    case InspectionFailed(e) =>
      ControlErrorExitCode(e, "sandbox cleanup inspection output unavailable");
      FindInPair(Message("sandbox cleanup inspection unresolved"),
                 ControlProcessError(e, "sandbox cleanup inspection output unavailable"), EXIT_CODE);
    case RemovalFailed(e) =>
      ControlErrorExitCode(e, "sandbox cleanup removal output unavailable");
      FindInPair(Message("owned sandbox removal failed"),
                 ControlProcessError(e, "sandbox cleanup removal output unavailable"), EXIT_CODE);
    case _ =>
  }

  /** The error of the control process that failed, if one did. */
  function ControlError(r: RemovalOutcome): Error {
    match r
    case InspectionFailed(e) => e
    case RemovalFailed(e) => e
    case _ => NoError
  }

  /** A cancellation or deadline that stopped a control process is found in the removal's error, and no other is. */
  lemma RemovalKeepsCancellation(r: RemovalOutcome)
    ensures Find(RemovalError(r), IS_CANCELED).Some? <==> Find(ControlError(r), IS_CANCELED).Some?
    ensures Find(RemovalError(r), IS_DEADLINE).Some? <==> Find(ControlError(r), IS_DEADLINE).Some?
    ensures RemovalError(r).NoError? <==> r.Removed?
  {
    match r
    case InspectionFailed(e) =>
      FilteredPair("sandbox cleanup inspection unresolved", e, "sandbox cleanup inspection output unavailable");
    case RemovalFailed(e) =>
      FilteredPair("owned sandbox removal failed", e, "sandbox cleanup removal output unavailable");
    case _ =>
  }

  lemma FilteredPair(text: string, e: Error, message: string)
    ensures var joined := Join([Message(text), ControlProcessError(e, message)]);
            && (Find(joined, IS_CANCELED).Some? <==> Find(e, IS_CANCELED).Some?)
            && (Find(joined, IS_DEADLINE).Some? <==> Find(e, IS_DEADLINE).Some?)
            && !joined.NoError?
  {
    ControlErrorsCarryNoCapture(e, message);
    FindInPair(Message(text), ControlProcessError(e, message), IS_CANCELED);
    FindInPair(Message(text), ControlProcessError(e, message), IS_DEADLINE);
  }

  datatype RunResult = RunResult(
    exitCode: int,
    out: Bytes,
    stderr: Bytes,
    outputBytes: int,
    workspaceBytes: int,
    limitHit: string,
    capture: CaptureMetadata)

  /** The context as two successive looks at it find it: nil or its error, and once expired it stays so. */
  datatype Context = Context(first: Error, second: Error)
  {
    ghost predicate Valid() {
      && (first.NoError? || first.Canceled? || first.DeadlineExceeded?)
      && (second.NoError? || second.Canceled? || second.DeadlineExceeded?)
      && (!first.NoError? ==> second == first)
    }
  }

  /**
   The workload's own outcome: the bounded runner result, or an incomplete capture when the context is already
   gone.
   */
  function WorkloadOutcome(runner: Bounded, limit: int, ctx: Context): Bounded {
    var b := Bound(runner, limit);
    if !ctx.first.NoError? && Capture(b.err).None? then
      Bounded([], [], CaptureIncomplete(CaptureMetadata(false, 0, 0, false, false), Join([b.err, ctx.first])))
    else b
  }

  function ExitCode(err: Error): int {
    if err.NoError? then 0
    else match Find(err, EXIT_CODE)
         case Some(code) => code
         case None => -1
  }

  function Or<T>(a: Option<T>, b: Option<T>): Option<T> {
    if a.Some? then a else b
  }

  lemma FindInTriple<T>(a: Error, b: Error, c: Error, probe: Error -> Option<T>)
    requires forall es :: probe(Joined(es)).None?
    ensures Find(Join([a, b, c]), probe) ==
            if Find(a, probe).Some? then Find(a, probe)
            else if Find(b, probe).Some? then Find(b, probe) else Find(c, probe)
  {
    FindInJoin([a, b, c], probe);
    assert [a, b, c][1..] == [b, c] && [b, c][1..] == [c] && [c][1..] == [];
    assert FindAny([c], probe) == Find(c, probe);
  }

  lemma TripleIsNil(a: Error, b: Error, c: Error)
    ensures Join([a, b, c]).NoError? <==> a.NoError? && b.NoError? && c.NoError?
  {
    var parts := [a, b, c];
    JoinIsNil(parts);
    assert parts[0] == a && parts[1] == b && parts[2] == c;
  }

  lemma PairIsNil(a: Error, b: Error)
    ensures Join([a, b]).NoError? <==> a.NoError? && b.NoError?
  {
    var parts := [a, b];
    JoinIsNil(parts);
    assert parts[0] == a && parts[1] == b;
  }

  // ----- what a caller can find in an error

  /** Everything the run asks of an error. */
  datatype Findings = Findings(
    isNil: bool,
    capture: Option<CaptureMetadata>,
    code: Option<int>,
    canceled: bool,
    deadline: bool)

  const NOTHING := Findings(true, None, None, false, false)

  function Sees(e: Error): Findings {
    Findings(e.NoError?, Capture(e), Find(e, EXIT_CODE), Find(e, IS_CANCELED).Some?, Find(e, IS_DEADLINE).Some?)
  }

  /** Two errors in order: the first capture and exit code, and a cancellation or deadline of either. */
  function First(a: Findings, b: Findings): Findings {
    Findings(a.isNil && b.isNil, Or(a.capture, b.capture), Or(a.code, b.code),
             a.canceled || b.canceled, a.deadline || b.deadline)
  }

  lemma SeesPair(a: Error, b: Error)
    ensures Sees(Join([a, b])) == First(Sees(a), Sees(b))
  {
    PairIsNil(a, b);
    FindInPair(a, b, CAPTURE);
    FindInPair(a, b, EXIT_CODE);
    FindInPair(a, b, IS_CANCELED);
    FindInPair(a, b, IS_DEADLINE);
  }

  lemma SeesTriple(a: Error, b: Error, c: Error)
    ensures Sees(Join([a, b, c])) == First(Sees(a), First(Sees(b), Sees(c)))
  {
    TripleIsNil(a, b, c);
    FindInTriple(a, b, c, CAPTURE);
    FindInTriple(a, b, c, EXIT_CODE);
    FindInTriple(a, b, c, IS_CANCELED);
    FindInTriple(a, b, c, IS_DEADLINE);
  }

  lemma SeesWrapped(text: string, e: Error)
    ensures Sees(Wrapped(text, e)) == Sees(e).(isNil := false)
  {
  }

  lemma SeesContext(e: Error)
    requires e.NoError? || e.Canceled? || e.DeadlineExceeded?
    ensures Sees(e) == Findings(e.NoError?, None, None, e.Canceled?, e.DeadlineExceeded?)
  {
  }

  /**
   What a removal's error shows: its control process's cancellation and deadline, its exit code if it has no
   capture.
   */
  lemma SeesRemoval(r: RemovalOutcome)
    ensures Sees(RemovalError(r)) ==
            var e := ControlError(r);
            Findings(r.Removed?, None, if Capture(e).None? then Find(e, EXIT_CODE) else None,
                     Find(e, IS_CANCELED).Some?, Find(e, IS_DEADLINE).Some?)
  {
    RemovalCarriesNoCapture(r);
    RemovalExitCode(r);
    RemovalKeepsCancellation(r);
  }

  /** The removal is attempted only after a failed workload or an expired context. */
  predicate Removes(workload: Bounded, ctx: Context) {
    !workload.err.NoError? || !ctx.second.NoError?
  }

  /**
   The error a run returns, built from the workload's by the three additions that may follow it. What it shows is, in
   order, what the workload's error, the context and an attempted removal, and the measurement show.
   */
  method AssembleError(workload: Bounded, ctx: Context, removal: RemovalOutcome, measureErr: Error)
    returns (capture: Option<CaptureMetadata>, err: Error)
    requires ctx.Valid()
    ensures capture == Capture(workload.err)
    ensures var removing :=
              if Removes(workload, ctx) then First(Sees(ctx.second), Sees(RemovalError(removal))) else NOTHING;
            Sees(err) == First(First(Sees(workload.err), removing), Sees(measureErr))
  {
    err := JoinRemoval(workload, ctx, removal);
    capture := Capture(err);
    err := WithOutput(workload, capture, err);
    err := WithMeasurement(err, measureErr);
  }

  /** After any error, or once the context has expired, the owned container is removed and its outcome joined. */
  method JoinRemoval(workload: Bounded, ctx: Context, removal: RemovalOutcome) returns (err: Error)
    requires ctx.Valid()
    ensures Sees(err) ==
            First(Sees(workload.err),
                  if Removes(workload, ctx) then First(Sees(ctx.second), Sees(RemovalError(removal))) else NOTHING)
    ensures Capture(err) == Capture(workload.err)
  {
    err := workload.err;
    if !err.NoError? || !ctx.second.NoError? {
      SeesTriple(err, ctx.second, RemovalError(removal));
      SeesRemoval(removal);
      SeesContext(ctx.second);
      err := Join([err, ctx.second, RemovalError(removal)]);
    }
  }

  /** An error without a capture is given the output as its text. */
  method WithOutput(workload: Bounded, capture: Option<CaptureMetadata>, e: Error) returns (err: Error)
    ensures Sees(err) == Sees(e)
  {
    err := e;
    SeesWrapped("stderr", e);
    SeesWrapped("stdout", e);
    if capture.Some? {
    } else if !err.NoError? && |workload.stderr| > 0 {
      err := Wrapped("stderr", err);
    } else if !err.NoError? && |workload.out| > 0 {
      err := Wrapped("stdout", err);
    }
  }

  method WithMeasurement(e: Error, measureErr: Error) returns (err: Error)
    ensures Sees(err) == First(Sees(e), Sees(measureErr))
  {
    err := e;
    if !measureErr.NoError? {
      var wrapped := Wrapped("sandbox workspace accounting incomplete", measureErr);
      SeesWrapped("sandbox workspace accounting incomplete", measureErr);
      SeesPair(e, wrapped);
      err := Join([e, wrapped]);
    }
  }

  /** The capture a run reports: the workload's, or else that nothing was cut. */
  function ReportedCapture(workload: Bounded): CaptureMetadata {
    match Capture(workload.err)
    case Some(m) => m
    case None => CaptureMetadata(true, |workload.out|, |workload.stderr|, false, false)
  }

  /** A bounded result that tells the truth: with a capture the sizes produced and what was cut, else everything. */
  ghost predicate Honest(b: Bounded, out: Bytes, stderr: Bytes) {
    match Capture(b.err)
    case Some(m) => m == CaptureMetadata(true, |out|, |stderr|, b.out != out, b.stderr != stderr)
    case None => b.out == out && b.stderr == stderr
  }

  lemma HonestBound(out: Bytes, stderr: Bytes, waitErr: Error, limit: int)
    requires Capture(waitErr).None? && limit > 0
    ensures Honest(Bound(Bounded(out, stderr, waitErr), limit), out, stderr)
  {
    SizesSurvive(Bounded(out, stderr, waitErr), limit);
    SplitSpendsTheBudget(|out|, |stderr|, limit);
  }

  lemma HonestBoundTwice(out: Bytes, stderr: Bytes, waitErr: Error, own: int, limit: int)
    requires Capture(waitErr).None?
    ensures Honest(Bound(Bound(Bounded(out, stderr, waitErr), own), limit), out, stderr)
  {
    BoundComposes(Bounded(out, stderr, waitErr), own, limit);
    HonestBound(out, stderr, waitErr, Min(EffectiveLimit(own), EffectiveLimit(limit)));
  }

  /** An expired context replaces a result without a capture by an incomplete one, and no other. */
  lemma ContextOnlyWithholds(runner: Bounded, limit: int, ctx: Context)
    ensures var workload := WorkloadOutcome(runner, limit, ctx);
            workload == Bound(runner, limit) || (Capture(workload.err).Some? && !Capture(workload.err).value.complete)
  {
  }

  /**
   Honest provenance end to end: when the runner is itself a bounded process that produced `out` and `stderr`
   with its own limit, a capture reported complete carries exactly the sizes produced, whatever both limits are.
   */
  lemma HonestRunnerIsCountedExactly(out: Bytes, stderr: Bytes, waitErr: Error, own: int, limit: int, ctx: Context)
    requires Capture(waitErr).None?
    ensures var workload := WorkloadOutcome(Bound(Bounded(out, stderr, waitErr), own), limit, ctx);
            var m := ReportedCapture(workload);
            m.complete ==>
              && m.stdoutSize == |out| && m.stderrSize == |stderr|
              && m.stdoutTruncated == (workload.out != out) && m.stderrTruncated == (workload.stderr != stderr)
  {
    HonestBoundTwice(out, stderr, waitErr, own, limit);
    ContextOnlyWithholds(Bound(Bounded(out, stderr, waitErr), own), limit, ctx);
  }

  /** A result that an already expired context withholds: it has no capture of its own and is within the limit. */
  predicate Withheld(runner: Bounded, limit: int, ctx: Context) {
    && !ctx.first.NoError? && Capture(runner.err).None?
    && |runner.out| + |runner.stderr| <= EffectiveLimit(limit)
  }

  /** The removal is attempted after any error of the runner, an output over the limit, or an expired context. */
  predicate Attempted(runner: Bounded, limit: int, ctx: Context) {
    || !runner.err.NoError? || !ctx.second.NoError?
    || |runner.out| + |runner.stderr| > EffectiveLimit(limit)
  }

  lemma SeesBound(runner: Bounded, limit: int)
    ensures var seen, bound := Sees(runner.err), Sees(Bound(runner, limit).err);
            && bound.code == seen.code && bound.canceled == seen.canceled && bound.deadline == seen.deadline
            && (bound.isNil <==> runner.err.NoError? && |runner.out| + |runner.stderr| <= EffectiveLimit(limit))
            && (seen.capture.None? ==>
                  (bound.capture.None? <==> |runner.out| + |runner.stderr| <= EffectiveLimit(limit)))
            && (seen.capture.Some? ==> bound.capture.Some?)
  {
    BoundKeepsFinds(runner, limit, EXIT_CODE);
    BoundKeepsFinds(runner, limit, IS_CANCELED);
    BoundKeepsFinds(runner, limit, IS_DEADLINE);
  }

  lemma SeesIncomplete(m: CaptureMetadata, e: Error)
    ensures Sees(CaptureIncomplete(m, e)) == Sees(e).(isNil := false, capture := Some(m))
  {
  }

  /** The workload's outcome, case by case, on the runner's own result. */
  lemma OutcomeMeans(runner: Bounded, limit: int, ctx: Context)
    requires ctx.Valid()
    ensures var workload := WorkloadOutcome(runner, limit, ctx);
            var withheld := Withheld(runner, limit, ctx);
            && (!withheld ==> workload == Bound(runner, limit))
            && (withheld ==>
                  && workload.out == workload.stderr == []
                  && Capture(workload.err) == Some(CaptureMetadata(false, 0, 0, false, false)))
            && (Removes(workload, ctx) <==> Attempted(runner, limit, ctx))
            && Sees(workload.err).code == Find(runner.err, EXIT_CODE)
            && (Sees(workload.err).canceled <==>
                Find(runner.err, IS_CANCELED).Some? || (withheld && ctx.first.Canceled?))
            && (Sees(workload.err).deadline <==>
                Find(runner.err, IS_DEADLINE).Some? || (withheld && ctx.first.DeadlineExceeded?))
  {
    var b := Bound(runner, limit);
    SeesBound(runner, limit);
    SeesPair(b.err, ctx.first);
    SeesIncomplete(CaptureMetadata(false, 0, 0, false, false), Join([b.err, ctx.first]));
    SeesContext(ctx.first);
  }

  /** Where a run's error comes from: what it shows is what its four sources show, and nothing else. */
  ghost predicate Explained(runner: Bounded, limit: int, ctx: Context, removal: RemovalOutcome, measureErr: Error,
                            err: Error)
  {
    var attempted := Attempted(runner, limit, ctx);
    && (err.NoError? <==> !attempted && measureErr.NoError?)
    && Find(err, EXIT_CODE) ==
       Or(Or(Find(runner.err, EXIT_CODE), if attempted then Find(RemovalError(removal), EXIT_CODE) else None),
          Find(measureErr, EXIT_CODE))
    && (Find(err, IS_CANCELED).Some? <==>
        || Find(runner.err, IS_CANCELED).Some? || ctx.second.Canceled?
        || (attempted && Find(ControlError(removal), IS_CANCELED).Some?) || Find(measureErr, IS_CANCELED).Some?)
    && (Find(err, IS_DEADLINE).Some? <==>
        || Find(runner.err, IS_DEADLINE).Some? || ctx.second.DeadlineExceeded?
        || (attempted && Find(ControlError(removal), IS_DEADLINE).Some?) || Find(measureErr, IS_DEADLINE).Some?)
  }

  lemma ErrorIsExplained(runner: Bounded, limit: int, ctx: Context, removal: RemovalOutcome, measureErr: Error,
                         err: Error)
    requires ctx.Valid()
    requires var workload := WorkloadOutcome(runner, limit, ctx);
             var removing :=
               if Removes(workload, ctx) then First(Sees(ctx.second), Sees(RemovalError(removal))) else NOTHING;
             Sees(err) == First(First(Sees(workload.err), removing), Sees(measureErr))
    ensures Explained(runner, limit, ctx, removal, measureErr, err)
    ensures Capture(err) == Or(Capture(WorkloadOutcome(runner, limit, ctx).err), Capture(measureErr))
  {
    var workload := WorkloadOutcome(runner, limit, ctx);
    OutcomeMeans(runner, limit, ctx);
    SeesContext(ctx.second);
    SeesRemoval(removal);
    var a, c, d, m := Sees(workload.err), Sees(ctx.second), Sees(RemovalError(removal)), Sees(measureErr);
    assert a.isNil && c.isNil <==> !Attempted(runner, limit, ctx);
    if Attempted(runner, limit, ctx) {
      assert Sees(err) == First(First(a, First(c, d)), m);
    } else {
      assert Sees(err) == First(a, m);
    }
  }

  /** The workload's outcome as the run computes it. */
  method RunWorkload(runner: Bounded, limit: int, ctx: Context) returns (b: Bounded)
    ensures b == WorkloadOutcome(runner, limit, ctx)
  {
    b := BoundRunnerOutput(runner.out, runner.stderr, runner.err, limit);
    if !ctx.first.NoError? && Capture(b.err).None? {
      b := Bounded([], [], CaptureIncomplete(CaptureMetadata(false, 0, 0, false, false), Join([b.err, ctx.first])));
    }
  }

  /** What a result says of a workload's outcome. */
  ghost predicate Reports(r: RunResult, b: Bounded, measured: int) {
    && r.out == b.out && r.stderr == b.stderr && r.capture == ReportedCapture(b)
    && r.limitHit == (if r.capture.complete && Capture(b.err).Some? then "output" else "")
    && (!r.capture.complete ==> r.outputBytes == 0 && r.workspaceBytes == 0)
    && (r.capture.complete ==>
          r.outputBytes == r.capture.stdoutSize + r.capture.stderrSize && r.workspaceBytes == measured)
  }

  method Report(b: Bounded, capture: Option<CaptureMetadata>, code: int, measured: int) returns (r: RunResult)
    requires capture == Capture(b.err)
    ensures Reports(r, b, measured) && r.exitCode == code
  {
    r := RunResult(code, b.out, b.stderr, |b.out| + |b.stderr|, measured, "",
                   CaptureMetadata(true, |b.out|, |b.stderr|, false, false));
    if capture.Some? {
      r := r.(capture := capture.value);
      if !r.capture.complete {
        r := r.(outputBytes := 0, workspaceBytes := 0);
      } else {
        r := r.(limitHit := "output", outputBytes := r.capture.stdoutSize + r.capture.stderrSize);
      }
    }
  }

  /** What a run reports of an honest runner: if the capture is complete, all the bytes it produced are counted. */
  lemma HonestTotal(runner: Bounded, limit: int, ctx: Context)
    ensures forall out, stderr, waitErr, own ::
              Capture(waitErr).None? && runner == Bound(Bounded(out, stderr, waitErr), own) ==>
                var m := ReportedCapture(WorkloadOutcome(runner, limit, ctx));
                m.complete ==> m.stdoutSize + m.stderrSize == |out| + |stderr|
  {
    forall out, stderr, waitErr, own |
      Capture(waitErr).None? && runner == Bound(Bounded(out, stderr, waitErr), own)
      ensures var m := ReportedCapture(WorkloadOutcome(runner, limit, ctx));
              m.complete ==> m.stdoutSize + m.stderrSize == |out| + |stderr|
    {
      HonestRunnerIsCountedExactly(out, stderr, waitErr, own, limit, ctx);
    }
  }

  /** An incomplete capture comes without bytes. */
  lemma IncompleteIsEmpty(runner: Bounded, limit: int, ctx: Context)
    ensures var b := WorkloadOutcome(runner, limit, ctx);
            !ReportedCapture(b).complete ==> b.out == b.stderr == []
  {
  }

  /**
   The assembly, over every runner result, context history, removal outcome and measurement. An expired context
   withholds a result that has no capture of its own; the result is the runner's, bounded, otherwise. Incomplete means
   no bytes and no usage; complete means usage counts the original bytes. The exit code is the first one found in the
   runner's, the removal's and the measurement's error, or -1 when an error has none, or 0 without an error; a
   cancellation or deadline is in the error exactly if the runner, the context, an attempted removal or the
   measurement had it.
   */
  method AssembleRun(runner: Bounded, limit: int, ctx: Context, removal: RemovalOutcome, measured: int,
                     measureErr: Error)
    returns (r: RunResult, err: Error)
    requires ctx.Valid()
    ensures Withheld(runner, limit, ctx) ==>
              && r.out == r.stderr == [] && r.capture == CaptureMetadata(false, 0, 0, false, false)
              && Capture(err) == Some(r.capture)
    ensures !Withheld(runner, limit, ctx) ==>
              var b := Bound(runner, limit);
              && r.out == b.out && r.stderr == b.stderr && r.capture == ReportedCapture(b)
              && Capture(err) == Or(Capture(b.err), Capture(measureErr))
    ensures r.limitHit == (if r.capture.complete && Capture(Bound(runner, limit).err).Some? then "output" else "")
    ensures Explained(runner, limit, ctx, removal, measureErr, err)
    ensures err.NoError? ==> r.exitCode == 0
    ensures Find(err, EXIT_CODE).Some? ==> r.exitCode == Find(err, EXIT_CODE).value
    ensures !err.NoError? && Find(err, EXIT_CODE).None? ==> r.exitCode == -1
    ensures !r.capture.complete ==>
              r.out == r.stderr == [] && r.outputBytes == 0 && r.workspaceBytes == 0
    ensures r.capture.complete ==>
              && r.outputBytes == r.capture.stdoutSize + r.capture.stderrSize
              && r.workspaceBytes == measured
    ensures forall out, stderr, waitErr, own ::
              Capture(waitErr).None? && runner == Bound(Bounded(out, stderr, waitErr), own) && r.capture.complete ==>
                r.outputBytes == |out| + |stderr|
  {
    var b := RunWorkload(runner, limit, ctx);
    var capture, final := AssembleError(b, ctx, removal, measureErr);
    err := final;
    r := Report(b, capture, ExitCode(err), measured);
    OutcomeMeans(runner, limit, ctx);
    ErrorIsExplained(runner, limit, ctx, removal, measureErr, err);
    IncompleteIsEmpty(runner, limit, ctx);
    HonestTotal(runner, limit, ctx);
  }
}
