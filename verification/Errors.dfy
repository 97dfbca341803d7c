/**
 Go error trees: what `errors.As`, `errors.Is` and `errors.Join` see of them, and the
 filter that keeps control-process capture metadata out of a workload's error.
 */
module Errors {
  import opened Wrappers

  datatype CaptureMetadata = CaptureMetadata(
    complete: bool,
    stdoutSize: int,
    stderrSize: int,
    stdoutTruncated: bool,
    stderrTruncated: bool)

  /** An error value. `NoError` is Go's nil; `Foreign` is a caller's own type that provides capture metadata. */
  datatype Error =
    | NoError
    | Message(text: string)
    | Exit(code: int)
    | Canceled
    | DeadlineExceeded
    | WaitDelay
    | OutputLimit(metadata: CaptureMetadata, cause: Error)
    | CaptureIncomplete(metadata: CaptureMetadata, cause: Error)
    | Foreign(metadata: CaptureMetadata, cause: Error)
    | Wrapped(text: string, cause: Error)
    | Joined(parts: seq<Error>)

  /** The pre-order, first-match search of `errors.As` and `errors.Is`. */
  function Find<T>(e: Error, probe: Error -> Option<T>): Option<T>
    decreases e, 1
  {
    if e.NoError? then None
    else if probe(e).Some? then probe(e)
    else match e {
      case OutputLimit(_, cause) => Find(cause, probe)
      case CaptureIncomplete(_, cause) => Find(cause, probe)
      case Foreign(_, cause) => Find(cause, probe)
      case Wrapped(_, cause) => Find(cause, probe)
      case Joined(parts) => FindAny(parts, probe)
      case _ => None
    }
  }

  function FindAny<T>(parts: seq<Error>, probe: Error -> Option<T>): Option<T>
    decreases parts, 0
  {
    if parts == [] then None
    else if Find(parts[0], probe).Some? then Find(parts[0], probe)
    else FindAny(parts[1..], probe)
  }

  const CAPTURE: Error -> Option<CaptureMetadata> :=
    (e: Error) => match e {
      case OutputLimit(m, _) => Some(m)
      case CaptureIncomplete(m, _) => Some(m)
      case Foreign(m, _) => Some(m)
      case _ => None
    }

  const EXIT_CODE: Error -> Option<int> :=
    (e: Error) => if e.Exit? then Some(e.code) else None

  const IS_CANCELED: Error -> Option<bool> := (e: Error) => if e.Canceled? then Some(true) else None

  const IS_DEADLINE: Error -> Option<bool> := (e: Error) => if e.DeadlineExceeded? then Some(true) else None

  const IS_WAIT_DELAY: Error -> Option<bool> := (e: Error) => if e.WaitDelay? then Some(true) else None

  /** The metadata `errors.As` finds in `e`, if any. */
  function Capture(e: Error): Option<CaptureMetadata> {
    Find(e, CAPTURE)
  }

  function NonNil(parts: seq<Error>): seq<Error> {
    if parts == [] then []
    else (if parts[0].NoError? then [] else [parts[0]]) + NonNil(parts[1..])
  }

  /** `errors.Join`: nil parts are dropped, and a join of nothing is nil. */
  function Join(parts: seq<Error>): Error {
    if NonNil(parts) == [] then NoError else Joined(NonNil(parts))
  }

  function ControlProcessError(e: Error, message: string): Error {
    if Capture(e).None? then e
    else
      var cause := if Find(e, IS_CANCELED).Some? then Canceled else NoError;
      var cause' := if Find(e, IS_DEADLINE).Some? then Join([cause, DeadlineExceeded]) else cause;
      Join([Message(message), cause'])
  }

  /** What each error says by itself: its own metadata or code, and then everything its cause says. */
  lemma OwnAnswers(m: CaptureMetadata, cause: Error, text: string, code: int)
    ensures Capture(OutputLimit(m, cause)) == Some(m) && Capture(CaptureIncomplete(m, cause)) == Some(m)
    ensures Capture(Foreign(m, cause)) == Some(m)
    ensures Capture(Wrapped(text, cause)) == Capture(cause)
    ensures Find(Exit(code), EXIT_CODE) == Some(code)
    ensures Find(Canceled, IS_CANCELED).Some? && Find(DeadlineExceeded, IS_DEADLINE).Some?
    ensures Find(WaitDelay, IS_WAIT_DELAY).Some?
  {
  }

  /** A search that an error does not answer itself is answered by its cause, whatever kind of error it is. */
  lemma CauseAnswers<T>(m: CaptureMetadata, cause: Error, text: string, probe: Error -> Option<T>)
    ensures probe(OutputLimit(m, cause)).None? ==> Find(OutputLimit(m, cause), probe) == Find(cause, probe)
    ensures probe(CaptureIncomplete(m, cause)).None? ==> Find(CaptureIncomplete(m, cause), probe) == Find(cause, probe)
    ensures probe(Foreign(m, cause)).None? ==> Find(Foreign(m, cause), probe) == Find(cause, probe)
    ensures probe(Wrapped(text, cause)).None? ==> Find(Wrapped(text, cause), probe) == Find(cause, probe)
  {
  }

  lemma {:induction false} FindInNonNil<T>(parts: seq<Error>, probe: Error -> Option<T>)
    ensures FindAny(NonNil(parts), probe) == FindAny(parts, probe)
  {
    if parts == [] {
    } else {
      FindInNonNil(parts[1..], probe);
      if !parts[0].NoError? {
        assert NonNil(parts)[1..] == NonNil(parts[1..]);
      } else {
        assert NonNil(parts) == NonNil(parts[1..]);
      }
    }
  }

  /** A join is nil exactly when all its parts are. */
  lemma {:induction false} JoinIsNil(parts: seq<Error>)
    ensures Join(parts).NoError? <==> forall i :: 0 <= i < |parts| ==> parts[i].NoError?
  {
    if parts == [] {
    } else {
      JoinIsNil(parts[1..]);
      assert forall i :: 0 < i < |parts| ==> parts[i] == parts[1..][i - 1];
      assert NonNil(parts) == [] <==> parts[0].NoError? && NonNil(parts[1..]) == [];
      assert (forall i :: 0 <= i < |parts| ==> parts[i].NoError?) <==>
             parts[0].NoError? && forall i :: 0 <= i < |parts[1..]| ==> parts[1..][i].NoError?;
    }
  }

  /** Searching a join is searching its parts in order: the first part that has a match decides. */
  lemma FindInJoin<T>(parts: seq<Error>, probe: Error -> Option<T>)
    requires forall es :: probe(Joined(es)).None?
    ensures Find(Join(parts), probe) == FindAny(parts, probe)
  {
    FindInNonNil(parts, probe);
  }

  lemma FindInPair<T>(a: Error, b: Error, probe: Error -> Option<T>)
    requires forall es :: probe(Joined(es)).None?
    ensures Find(Join([a, b]), probe) == if Find(a, probe).Some? then Find(a, probe) else Find(b, probe)
  {
    FindInJoin([a, b], probe);
    assert [a, b][1..] == [b];
    assert FindAny([b], probe) == Find(b, probe) by { assert [b][1..] == []; }
  }

  /** A control error passes its exit code on exactly when it carries no capture metadata. */
  lemma ControlErrorExitCode(e: Error, message: string)
    ensures Find(ControlProcessError(e, message), EXIT_CODE) == if Capture(e).None? then Find(e, EXIT_CODE) else None
  {
    if Capture(e).Some? {
      var cause := if Find(e, IS_CANCELED).Some? then Canceled else NoError;
      var cause' := if Find(e, IS_DEADLINE).Some? then Join([cause, DeadlineExceeded]) else cause;
      FindInPair(cause, DeadlineExceeded, EXIT_CODE);
      FindInPair(Message(message), cause', EXIT_CODE);
    }
  }

  /** No control-process metadata survives the filter, while cancellation and deadline do. */
  lemma ControlErrorsCarryNoCapture(e: Error, message: string)
    ensures Capture(ControlProcessError(e, message)) == None
    ensures Find(ControlProcessError(e, message), IS_CANCELED).Some? <==> Find(e, IS_CANCELED).Some?
    ensures Find(ControlProcessError(e, message), IS_DEADLINE).Some? <==> Find(e, IS_DEADLINE).Some?
    ensures ControlProcessError(e, message).NoError? <==> e.NoError?
  {
    if Capture(e).Some? {
      var cause := if Find(e, IS_CANCELED).Some? then Canceled else NoError;
      var cause' := if Find(e, IS_DEADLINE).Some? then Join([cause, DeadlineExceeded]) else cause;
      FindInPair(cause, DeadlineExceeded, CAPTURE);
      FindInPair(cause, DeadlineExceeded, IS_CANCELED);
      FindInPair(cause, DeadlineExceeded, IS_DEADLINE);
      FindInPair(Message(message), cause', CAPTURE);
      FindInPair(Message(message), cause', IS_CANCELED);
      FindInPair(Message(message), cause', IS_DEADLINE);
    }
  }
}
