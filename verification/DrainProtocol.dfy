/**
 The drain protocol of a bounded process: two pipe readers feeding one capture, a loop that
 collects their verdicts, and a one-shot timer that closes the pipes. Every schedule of
 child writes, reads, end-of-file, read errors and the timer is a run of this machine.
 The timer and the two closes that follow it are one event, so "after the timer" means once both pipes are closed.
 */
module DrainProtocol {
  import opened Wrappers
  import opened Errors
  import opened OutputCapture

  // ----- the collecting loop

  /** What one `select` of the loop delivers: a drain's verdict (nil at end of file), or the timer. */
  datatype Arrival = Drained(verdict: Error) | TimerFired

  datatype Loop = Loop(pending: nat, complete: bool, err: Error)

  function OnArrival(l: Loop, a: Arrival): Loop
    requires l.pending > 0
  {
    match a
    case Drained(verdict) =>
      if verdict.NoError? then l.(pending := l.pending - 1)
      else Loop(l.pending - 1, false, Join([l.err, verdict]))
    case TimerFired =>
      Loop(l.pending, false, Join([l.err, WaitDelay]))
  }

  function CountDrained(arrivals: seq<Arrival>): nat {
    if arrivals == [] then 0
    else CountDrained(arrivals[..|arrivals| - 1]) + (if arrivals[|arrivals| - 1].Drained? then 1 else 0)
  }

  /** What an arrival says went wrong. */
  function Says(a: Arrival): Error {
    match a
    case Drained(verdict) => verdict
    case TimerFired => WaitDelay
  }

  /** The first match of a search among the wait error and then, in order, what the arrivals say. */
  function FirstFound<T>(waitErr: Error, arrivals: seq<Arrival>, probe: Error -> Option<T>): Option<T> {
    if arrivals == [] then Find(waitErr, probe)
    else
      var earlier := FirstFound(waitErr, arrivals[..|arrivals| - 1], probe);
      if earlier.Some? then earlier else Find(Says(arrivals[|arrivals| - 1]), probe)
  }

  /** The error the loop has collected after these arrivals. */
  function Collected(waitErr: Error, arrivals: seq<Arrival>): Error {
    if arrivals == [] then waitErr
    else OnArrival(Loop(1, true, Collected(waitErr, arrivals[..|arrivals| - 1])), arrivals[|arrivals| - 1]).err
  }

  lemma ArrivalErr(l: Loop, pending: nat, complete: bool, a: Arrival)
    requires l.pending > 0 && pending > 0
    ensures OnArrival(l, a).err == OnArrival(Loop(pending, complete, l.err), a).err
  {
  }

  lemma OneMoreArrival(l: Loop, waitErr: Error, arrivals: seq<Arrival>, i: nat)
    requires i < |arrivals| && l.pending > 0 && l.err == Collected(waitErr, arrivals[..i])
    ensures OnArrival(l, arrivals[i]).err == Collected(waitErr, arrivals[..i + 1])
    ensures CountDrained(arrivals[..i + 1]) == CountDrained(arrivals[..i]) + if arrivals[i].Drained? then 1 else 0
  {
    ArrivalErr(l, 1, true, arrivals[i]);
    assert arrivals[..i + 1][..i] == arrivals[..i];
  }

  lemma ArrivalFinds<T>(l: Loop, a: Arrival, probe: Error -> Option<T>)
    requires l.pending > 0 && forall es :: probe(Joined(es)).None?
    ensures Find(OnArrival(l, a).err, probe) ==
            if Find(l.err, probe).Some? then Find(l.err, probe) else Find(Says(a), probe)
  {
    FindInPair(l.err, Says(a), probe);
  }

  /**
   Nothing the loop met is lost: any search, for an exit code, a cancellation, a deadline or the wait delay, finds in
   the collected error the first match among the wait error and the arrivals in order.
   */
  lemma {:induction false} CollectedFinds<T>(waitErr: Error, arrivals: seq<Arrival>, probe: Error -> Option<T>)
    requires forall es :: probe(Joined(es)).None?
    ensures Find(Collected(waitErr, arrivals), probe) == FirstFound(waitErr, arrivals, probe)
  {
    if arrivals != [] {
      var before := arrivals[..|arrivals| - 1];
      CollectedFinds(waitErr, before, probe);
      ArrivalFinds(Loop(1, true, Collected(waitErr, before)), arrivals[|arrivals| - 1], probe);
    }
  }

  lemma {:induction false} FirstFoundKeeps<T>(waitErr: Error, arrivals: seq<Arrival>, probe: Error -> Option<T>, i: nat)
    requires i < |arrivals|
    ensures Find(waitErr, probe).Some? ==> FirstFound(waitErr, arrivals, probe) == Find(waitErr, probe)
    ensures Find(Says(arrivals[i]), probe).Some? ==> FirstFound(waitErr, arrivals, probe).Some?
    decreases |arrivals|
  {
    var n := |arrivals| - 1;
    if n > 0 {
      FirstFoundKeeps(waitErr, arrivals[..n], probe, if i < n then i else 0);
    }
  }

  /**
   The loop itself over the arrivals a schedule delivers. It stops exactly at the second drain verdict; the
   capture is complete only if nothing it consumed was a failure or the timer, and then the wait error is untouched.
   */
  method CollectDrains(waitErr: Error, expired: bool, arrivals: seq<Arrival>) returns (l: Loop, ghost used: nat)
    requires CountDrained(arrivals) >= 2
    ensures l.pending == 0 && used <= |arrivals|
    ensures CountDrained(arrivals[..used]) == 2 && arrivals[used - 1].Drained?
    ensures l.complete <==> !expired && Find(waitErr, IS_WAIT_DELAY).None? &&
                            forall i :: 0 <= i < used ==> arrivals[i] == Drained(NoError)
    ensures l.complete ==> l.err == waitErr
    ensures l.err == Collected(waitErr, arrivals[..used])
  {
    l := Loop(2, !expired && Find(waitErr, IS_WAIT_DELAY).None?, waitErr);
    var i := 0;
    while l.pending > 0
      invariant 0 <= i <= |arrivals| && l.pending <= 2
      invariant CountDrained(arrivals[..i]) == 2 - l.pending
      invariant l.pending == 0 ==> i > 0 && arrivals[i - 1].Drained?
      invariant l.complete <==> !expired && Find(waitErr, IS_WAIT_DELAY).None? &&
                                forall j :: 0 <= j < i ==> arrivals[j] == Drained(NoError)
      invariant l.complete ==> l.err == waitErr
      invariant l.err == Collected(waitErr, arrivals[..i])
      decreases |arrivals| - i
    {
      assert i < |arrivals| by { assert arrivals[..|arrivals|] == arrivals; }
      OneMoreArrival(l, waitErr, arrivals, i);
      l := OnArrival(l, arrivals[i]);
      i := i + 1;
    }
    used := i;
  }

  // ----- the machine

  datatype Status = Draining | Finished(verdict: Error) | Received(verdict: Error)

  /** One pipe: the bytes its drain has stored, a chunk read but not yet stored, and what is still in the pipe. */
  datatype Pipe = Pipe(stored: Bytes, inFlight: Bytes, unread: Bytes, writersOpen: bool, status: Status)
  {
    function Produced(): Bytes {
      stored + inFlight + unread
    }
  }

  datatype State = State(pipes: Two<Pipe>, tails: Tails, timerFired: bool, loop: Loop)

  /** What can happen at one pipe. `Produce` and `CloseWriters` are steps of the child and its descendants. */
  datatype Action =
    | Produce(chunk: Bytes)
    | CloseWriters
    | Read(n: nat)
    | Store
    | EndOfFile
    | ReadError(error: Error)
    | Collect

  datatype Event = Timer | At(s: nat, act: Action)
  {
    predicate ByChild() {
      At? && (act.Produce? || act.CloseWriters?)
    }
  }

  predicate ActionEnabled(p: Pipe, act: Action, pipesOpen: bool, pending: nat) {
    match act
    case Produce(_) => p.writersOpen
    case CloseWriters => p.writersOpen
    case Read(n) => p.status.Draining? && pipesOpen && p.inFlight == [] && 0 < n <= |p.unread|
    case Store => p.status.Draining? && p.inFlight != []
    case EndOfFile => p.status.Draining? && pipesOpen && p.inFlight == p.unread == [] && !p.writersOpen
    case ReadError(error) => p.status.Draining? && p.inFlight == [] && !error.NoError?
    case Collect => p.status.Finished? && pending > 0
  }

  predicate Enabled(st: State, e: Event)
  {
    match e
    case Timer => st.loop.pending > 0 && !st.timerFired
    case At(s, act) => s < 2 && ActionEnabled(st.pipes.At(s), act, !st.timerFired, st.loop.pending)
  }

  function PipeAfter(p: Pipe, act: Action): Pipe {
    match act
    case Produce(chunk) => p.(unread := p.unread + chunk)
    case CloseWriters => p.(writersOpen := false)
    case Read(n) => if n <= |p.unread| then p.(inFlight := p.unread[..n], unread := p.unread[n..]) else p
    case Store => p.(stored := p.stored + p.inFlight, inFlight := [])
    case EndOfFile => p.(status := Finished(NoError))
    case ReadError(error) => p.(status := Finished(error))
    case Collect => if p.status.Finished? then p.(status := Received(p.status.verdict)) else p
  }

  function Apply(st: State, e: Event): (st': State)
    requires st.tails.Valid() && Enabled(st, e)
    ensures st'.tails.Valid()
  {
    match e
    case Timer => st.(timerFired := true, loop := OnArrival(st.loop, TimerFired))
    case At(s, act) =>
      var p := st.pipes.At(s);
      State(st.pipes.With(s, PipeAfter(p, act)),
            if act.Store? then AfterWrite(st.tails, Chunk(s, p.inFlight)) else st.tails,
            st.timerFired,
            if act.Collect? then OnArrival(st.loop, Drained(p.status.verdict)) else st.loop)
  }

  function Initial(limit: int, waitErr: Error, expired: bool, already: Two<Bytes>): State
    requires limit > 0
  {
    State(Two(Pipe([], [], already.At(0), true, Draining), Pipe([], [], already.At(1), true, Draining)),
          NewTails(limit), false, Loop(2, !expired && Find(waitErr, IS_WAIT_DELAY).None?, waitErr))
  }

  function Outstanding(p: Pipe): nat {
    if p.status.Received? then 0 else 1
  }

  /** One pipe against its share of the capture: the tail and counter are those of the bytes stored so far. */
  ghost predicate PipeInv(p: Pipe, tail: Bytes, original: int, limit: nat, complete: bool) {
    && (p.inFlight != [] ==> p.status.Draining?)
    && tail == Last(p.stored, limit)
    && original == |p.stored|
    && (!p.status.Draining? && p.status.verdict.NoError? ==> !p.writersOpen && p.unread == [])
    && (p.status.Received? && !p.status.verdict.NoError? ==> !complete)
  }

  ghost predicate Inv(st: State, limit: int, waitErr: Error) {
    && st.tails.Valid() && st.tails.limit == limit
    && PipeInv(st.pipes.At(0), st.tails.tail.At(0), st.tails.original.At(0), limit, st.loop.complete)
    && PipeInv(st.pipes.At(1), st.tails.tail.At(1), st.tails.original.At(1), limit, st.loop.complete)
    && st.loop.pending == Outstanding(st.pipes.At(0)) + Outstanding(st.pipes.At(1))
    && (st.timerFired ==> !st.loop.complete)
    && (st.loop.complete ==> st.loop.err == waitErr)
  }

  lemma ActionKeepsPipe(p: Pipe, act: Action, tail: Bytes, original: int, limit: nat, open: bool, pending: nat,
                        complete: bool)
    requires PipeInv(p, tail, original, limit, complete) && ActionEnabled(p, act, open, pending)
    ensures PipeInv(PipeAfter(p, act),
                    if act.Store? then Last(tail + p.inFlight, limit) else tail,
                    if act.Store? then original + |p.inFlight| else original,
                    limit,
                    complete && (act.Collect? ==> p.status.verdict.NoError?))
    ensures PipeAfter(p, act).Produced() == p.Produced() + if act.Produce? then act.chunk else []
  {
    if act.Store? {
      LastOfAppend(p.stored, p.inFlight, limit);
    }
    if act.Read? {
      assert p.unread == p.unread[..act.n] + p.unread[act.n..];
    }
  }

  lemma EventKeepsPipe(st: State, e: Event, limit: int, waitErr: Error, t: nat)
    requires Inv(st, limit, waitErr) && Enabled(st, e) && t < 2
    ensures var st' := Apply(st, e);
            PipeInv(st'.pipes.At(t), st'.tails.tail.At(t), st'.tails.original.At(t), limit, st'.loop.complete)
  {
    if e.At? && e.s == t {
      ActionKeepsPipe(st.pipes.At(t), e.act, st.tails.tail.At(t), st.tails.original.At(t), limit,
                      !st.timerFired, st.loop.pending, st.loop.complete);
    }
  }

  lemma StepKeepsInv(st: State, e: Event, limit: int, waitErr: Error)
    requires Inv(st, limit, waitErr) && Enabled(st, e)
    ensures Inv(Apply(st, e), limit, waitErr)
  {
    EventKeepsPipe(st, e, limit, waitErr, 0);
    EventKeepsPipe(st, e, limit, waitErr, 1);
    assert Apply(st, e).loop.pending == Outstanding(Apply(st, e).pipes.At(0)) + Outstanding(Apply(st, e).pipes.At(1));
  }

  // ----- runs

  /** `trace[i + 1]` is the effect of `events[i]` on `trace[i]`. */
  ghost predicate Run(trace: seq<State>, events: seq<Event>) {
    && |trace| == |events| + 1
    && forall i :: 0 <= i < |events| ==>
         && trace[i].tails.Valid() && Enabled(trace[i], events[i])
         && trace[i + 1] == Apply(trace[i], events[i])
  }

  lemma RunPrefix(trace: seq<State>, events: seq<Event>, n: nat)
    requires Run(trace, events) && n <= |events|
    ensures Run(trace[..n + 1], events[..n])
  {
  }

  lemma {:induction false} RunKeepsInv(trace: seq<State>, events: seq<Event>, limit: int, waitErr: Error, i: nat)
    requires Run(trace, events) && Inv(trace[0], limit, waitErr) && i < |trace|
    ensures Inv(trace[i], limit, waitErr)
  {
    if i > 0 {
      RunKeepsInv(trace, events, limit, waitErr, i - 1);
      StepKeepsInv(trace[i - 1], events[i - 1], limit, waitErr);
    }
  }

  lemma InitialInv(limit: int, waitErr: Error, expired: bool, already: Two<Bytes>)
    requires limit > 0
    ensures Inv(Initial(limit, waitErr, expired, already), limit, waitErr)
  {
  }

  /** The steps left to one drain and its collector once nothing more can be read: store, end, be collected. */
  function ClosingFuel(p: Pipe): nat {
    match p.status
    case Draining => if p.inFlight != [] then 3 else 2
    case Finished(_) => 1
    case Received(_) => 0
  }

  /** Work left in one pipe: two steps for each byte not yet read, and the drain's own remaining steps. */
  function PipeFuel(p: Pipe): int {
    2 * |p.unread| + ClosingFuel(p)
  }

  function Fuel(st: State): int
  {
    PipeFuel(st.pipes.At(0)) + PipeFuel(st.pipes.At(1)) + (if st.timerFired then 0 else 1)
  }

  /** Bytes the child adds at one event. */
  function Added(e: Event): nat {
    if e.At? && e.act.Produce? then |e.act.chunk| else 0
  }

  /** Every step of the capturing process burns fuel, and only the child can add any. */
  lemma StepBurnsFuel(st: State, e: Event, limit: int, waitErr: Error)
    requires Inv(st, limit, waitErr) && Enabled(st, e)
    ensures Fuel(st) >= 0
    ensures Fuel(Apply(st, e)) + (if e.ByChild() then 0 else 1) <= Fuel(st) + 2 * Added(e)
  {
  }

  function OwnSteps(events: seq<Event>): nat {
    if events == [] then 0
    else OwnSteps(events[..|events| - 1]) + (if events[|events| - 1].ByChild() then 0 else 1)
  }

  function TotalAdded(events: seq<Event>): nat {
    if events == [] then 0
    else TotalAdded(events[..|events| - 1]) + Added(events[|events| - 1])
  }

  /**
   Before the timer: in every run the capturing process takes at most five steps plus two for each byte there
   was to read.
   */
  lemma {:induction false} RunsTerminate(trace: seq<State>, events: seq<Event>, limit: int, waitErr: Error,
                                         expired: bool, already: Two<Bytes>)
    requires limit > 0
    requires Run(trace, events) && trace[0] == Initial(limit, waitErr, expired, already)
    ensures OwnSteps(events) <= 5 + 2 * (|already.At(0)| + |already.At(1)| + TotalAdded(events))
    ensures OwnSteps(events) + Fuel(trace[|events|]) <= 5 + 2 * (|already.At(0)| + |already.At(1)| + TotalAdded(events))
  {
    InitialInv(limit, waitErr, expired, already);
    RunKeepsInv(trace, events, limit, waitErr, |events|);
    if events != [] {
      var n := |events| - 1;
      RunKeepsInv(trace, events, limit, waitErr, n);
      RunPrefix(trace, events, n);
      RunsTerminate(trace[..n + 1], events[..n], limit, waitErr, expired, already);
      StepBurnsFuel(trace[n], events[n], limit, waitErr);
    }
  }

  lemma StepAfterTimer(st: State, e: Event)
    requires st.tails.Valid() && st.timerFired && Enabled(st, e)
    ensures Apply(st, e).timerFired
    ensures ClosingFuel(Apply(st, e).pipes.At(0)) + ClosingFuel(Apply(st, e).pipes.At(1))
              + (if e.ByChild() then 0 else 1) ==
            ClosingFuel(st.pipes.At(0)) + ClosingFuel(st.pipes.At(1))
  {
  }

  lemma RunSuffix(trace: seq<State>, events: seq<Event>)
    requires Run(trace, events) && events != []
    ensures Run(trace[1..], events[1..])
  {
    forall i | 0 <= i < |events[1..]|
      ensures trace[1..][i].tails.Valid() && Enabled(trace[1..][i], events[1..][i])
      ensures trace[1..][i + 1] == Apply(trace[1..][i], events[1..][i])
    {
      assert trace[1..][i] == trace[i + 1] && events[1..][i] == events[i + 1] && trace[1..][i + 1] == trace[i + 2];
    }
  }

  /**
   What the timer is for: from the moment it has fired the capturing process takes at most six more steps, whatever
   and however much a descendant holding the pipe goes on writing.
   */
  lemma {:induction false} TimerEndsTheRun(trace: seq<State>, events: seq<Event>)
    requires Run(trace, events) && trace[0].timerFired
    ensures OwnSteps(events) <= 6
    ensures OwnSteps(events) + ClosingFuel(trace[|events|].pipes.At(0)) + ClosingFuel(trace[|events|].pipes.At(1)) ==
            ClosingFuel(trace[0].pipes.At(0)) + ClosingFuel(trace[0].pipes.At(1))
    ensures trace[|events|].timerFired
  {
    if events != [] {
      var n := |events| - 1;
      RunPrefix(trace, events, n);
      TimerEndsTheRun(trace[..n + 1], events[..n]);
      assert trace[..n + 1][n] == trace[n] && trace[..n + 1][0] == trace[0];
      StepAfterTimer(trace[n], events[n]);
    }
  }

  /**
   The same inside any run: after an index where the timer has fired at most six of the process's own steps
   follow.
   */
  lemma {:induction false} SixStepsAfterTheTimer(trace: seq<State>, events: seq<Event>, i: nat)
    requires Run(trace, events) && i <= |events| && trace[i].timerFired
    ensures OwnSteps(events[i..]) <= 6
    decreases i
  {
    if i == 0 {
      assert events[0..] == events;
      TimerEndsTheRun(trace, events);
    } else {
      RunSuffix(trace, events);
      assert trace[1..][i - 1] == trace[i] && events[1..][i - 1..] == events[i..];
      SixStepsAfterTheTimer(trace[1..], events[1..], i - 1);
    }
  }

  /**
   No deadlock: while a verdict is outstanding the capturing process has a step of its own, whatever the child
   does.
   */
  lemma AlwaysAStep(st: State, limit: int, waitErr: Error) returns (e: Event)
    requires Inv(st, limit, waitErr) && st.loop.pending > 0
    ensures !e.ByChild() && Enabled(st, e)
  {
    if !st.timerFired {
      return Timer;
    }
    var s := if st.pipes.At(0).status.Received? then 1 else 0;
    var p := st.pipes.At(s);
    if p.status.Finished? {
      return At(s, Collect);
    } else if p.inFlight != [] {
      return At(s, Store);
    } else {
      return At(s, ReadError(Message("file already closed")));
    }
  }

  // ----- the result

  /** What `runBoundedProcess` returns once the loop is done. */
  function Finish(st: State, ctxErr: Error): Bounded
    requires st.tails.Valid()
  {
    var p, q := |st.tails.tail.At(0)|, |st.tails.tail.At(1)|;
    var out := Last(st.tails.tail.At(0), KeptOut(p, q, st.tails.limit));
    var stderr := Last(st.tails.tail.At(1), KeptErr(p, q, st.tails.limit));
    var m := CaptureMetadata(st.loop.complete, st.tails.original.At(0), st.tails.original.At(1),
                             st.tails.original.At(0) > |out|, st.tails.original.At(1) > |stderr|);
    if !st.loop.complete then Bounded([], [], CaptureIncomplete(m, Join([st.loop.err, ctxErr])))
    else if m.stdoutSize + m.stderrSize > st.tails.limit then Bounded(out, stderr, OutputLimit(m, st.loop.err))
    else Bounded(out, stderr, st.loop.err)
  }

  /** Once both verdicts are in, no drain can store another byte. */
  lemma NoWriterIsLive(st: State, limit: int, waitErr: Error, e: Event)
    requires Inv(st, limit, waitErr) && st.loop.pending == 0 && Enabled(st, e)
    ensures e.ByChild() && Apply(st, e).tails == st.tails && Apply(st, e).loop == st.loop
  {
  }

  lemma KeptOfTails(a: Bytes, b: Bytes, limit: nat)
    ensures var p, q := |Last(a, limit)|, |Last(b, limit)|;
            && |Last(Last(a, limit), KeptOut(p, q, limit))| == KeptOut(|a|, |b|, limit)
            && |Last(Last(b, limit), KeptErr(p, q, limit))| == KeptErr(|a|, |b|, limit)
  {
    TailsSplitAsWritten(a, b, limit);
  }

  /** An incomplete capture withholds its bytes and reports how many had been stored. */
  lemma IncompleteReportsStored(st: State, limit: int, waitErr: Error, ctxErr: Error)
    requires limit > 0 && Inv(st, limit, waitErr) && !st.loop.complete
    ensures var b := Finish(st, ctxErr);
            var p, q := |st.pipes.At(0).stored|, |st.pipes.At(1).stored|;
            && b.out == b.stderr == []
            && Capture(b.err) == Some(CaptureMetadata(false, p, q, p > KeptOut(p, q, limit), q > KeptErr(p, q, limit)))
  {
    KeptOfTails(st.pipes.At(0).stored, st.pipes.At(1).stored, limit);
  }

  /**
   A complete capture saw the end of both streams: nothing more can be produced, and the result is the bound of
   everything that was. An incomplete one withholds its bytes and says so.
   */
  lemma CompleteMeansEverything(st: State, limit: int, waitErr: Error, ctxErr: Error)
    requires limit > 0 && Capture(waitErr).None?
    requires Inv(st, limit, waitErr) && st.loop.pending == 0
    ensures st.loop.complete ==>
              && !st.pipes.At(0).writersOpen && !st.pipes.At(1).writersOpen
              && Finish(st, ctxErr) ==
                 Bound(Bounded(st.pipes.At(0).Produced(), st.pipes.At(1).Produced(), waitErr), limit)
    ensures !st.loop.complete ==>
              && Finish(st, ctxErr).out == Finish(st, ctxErr).stderr == []
              && Capture(Finish(st, ctxErr).err).Some? && !Capture(Finish(st, ctxErr).err).value.complete
  {
    if st.loop.complete {
      var a, b := st.pipes.At(0), st.pipes.At(1);
      assert a.Produced() == a.stored && b.Produced() == b.stored;
      TailsSplitAsWritten(a.stored, b.stored, limit);
    } else {
      IncompleteReportsStored(st, limit, waitErr, ctxErr);
    }
  }

  /** The bytes the child adds to one stream over a run. */
  function ChildBytes(events: seq<Event>, s: nat): Bytes {
    if events == [] then []
    else
      var last := events[|events| - 1];
      ChildBytes(events[..|events| - 1], s)
        + (if last.At? && last.s == s && last.act.Produce? then last.act.chunk else [])
  }

  lemma EventProduces(st: State, e: Event, limit: int, waitErr: Error, s: nat)
    requires Inv(st, limit, waitErr) && Enabled(st, e) && s < 2
    ensures Apply(st, e).pipes.At(s).Produced() ==
            st.pipes.At(s).Produced() + if e.At? && e.s == s && e.act.Produce? then e.act.chunk else []
  {
    if e.At? && e.s == s {
      ActionKeepsPipe(st.pipes.At(s), e.act, st.tails.tail.At(s), st.tails.original.At(s), limit,
                      !st.timerFired, st.loop.pending, st.loop.complete);
    }
  }

  lemma AppendAssociates(a: Bytes, b: Bytes, c: Bytes)
    ensures (a + b) + c == a + (b + c)
  {
  }

  /** No byte is lost or invented in a pipe: stored, in flight and unread bytes are, in order, those produced. */
  lemma {:induction false} RunConservesBytes(trace: seq<State>, events: seq<Event>, limit: int, waitErr: Error,
                                             expired: bool, already: Two<Bytes>, s: nat)
    requires limit > 0 && s < 2 && Run(trace, events) && trace[0] == Initial(limit, waitErr, expired, already)
    ensures trace[|events|].pipes.At(s).Produced() == already.At(s) + ChildBytes(events, s)
  {
    if events != [] {
      var n := |events| - 1;
      InitialInv(limit, waitErr, expired, already);
      RunKeepsInv(trace, events, limit, waitErr, n);
      RunPrefix(trace, events, n);
      RunConservesBytes(trace[..n + 1], events[..n], limit, waitErr, expired, already, s);
      EventProduces(trace[n], events[n], limit, waitErr, s);
      AppendAssociates(already.At(s), ChildBytes(events[..n], s),
                       if events[n].At? && events[n].s == s && events[n].act.Produce? then events[n].act.chunk else []);
    }
  }

  /**
   The whole protocol, for every schedule: when the loop ends with a complete capture, the process returns the bound
   of exactly the bytes the child produced on each stream over the run.
   */
  lemma CompleteRunsCountEveryByte(trace: seq<State>, events: seq<Event>, limit: int, waitErr: Error, ctxErr: Error,
                                   expired: bool, already: Two<Bytes>)
    requires limit > 0 && Run(trace, events) && trace[0] == Initial(limit, waitErr, expired, already)
    requires Capture(waitErr).None?
    requires trace[|events|].loop.pending == 0 && trace[|events|].loop.complete
    ensures trace[|events|].tails.limit == limit
    ensures Finish(trace[|events|], ctxErr) ==
            Bound(Bounded(already.At(0) + ChildBytes(events, 0), already.At(1) + ChildBytes(events, 1), waitErr), limit)
  {
    InitialInv(limit, waitErr, expired, already);
    RunKeepsInv(trace, events, limit, waitErr, |events|);
    RunConservesBytes(trace, events, limit, waitErr, expired, already, 0);
    RunConservesBytes(trace, events, limit, waitErr, expired, already, 1);
    CompleteMeansEverything(trace[|events|], limit, waitErr, ctxErr);
  }

  // ----- the error of a run

  /** What the loop's `select` delivers at this event, if anything. */
  function Delivered(st: State, e: Event): seq<Arrival> {
    match e
    case Timer => [TimerFired]
    case At(s, act) =>
      if act.Collect? && st.pipes.At(s).status.Finished? then [Drained(st.pipes.At(s).status.verdict)] else []
  }

  /** What the loop's `select` delivered over these events of a run. */
  function Arrivals(trace: seq<State>, events: seq<Event>): seq<Arrival>
    requires |trace| == |events| + 1
  {
    if events == [] then []
    else
      var n := |events| - 1;
      Arrivals(trace[..n + 1], events[..n]) + Delivered(trace[n], events[n])
  }

  lemma EventCollects(st: State, e: Event)
    requires st.tails.Valid() && Enabled(st, e)
    ensures Apply(st, e).loop.err ==
            match e
            case Timer => OnArrival(st.loop, TimerFired).err
            case At(s, act) =>
              if act.Collect? then OnArrival(st.loop, Drained(st.pipes.At(s).status.verdict)).err else st.loop.err
  {
  }

  lemma {:induction false} RunCollects(trace: seq<State>, events: seq<Event>)
    requires Run(trace, events)
    ensures trace[|events|].loop.err == Collected(trace[0].loop.err, Arrivals(trace, events))
  {
    if events != [] {
      var n := |events| - 1;
      var before := Arrivals(trace[..n + 1], events[..n]);
      RunPrefix(trace, events, n);
      RunCollects(trace[..n + 1], events[..n]);
      EventCollects(trace[n], events[n]);
      var all := Arrivals(trace, events);
      if all != before {
        var a := all[|before|];
        assert all == before + [a] && all[..|all| - 1] == before;
        ArrivalErr(trace[n].loop, 1, true, a);
      }
    }
  }

  lemma {:induction false} TimerArrives(trace: seq<State>, events: seq<Event>) returns (i: nat)
    requires Run(trace, events) && !trace[0].timerFired && trace[|events|].timerFired
    ensures i < |Arrivals(trace, events)| && Arrivals(trace, events)[i] == TimerFired
  {
    var n := |events| - 1;
    RunPrefix(trace, events, n);
    if trace[n].timerFired {
      i := TimerArrives(trace[..n + 1], events[..n]);
    } else {
      assert events[n].Timer?;
      i := |Arrivals(trace[..n + 1], events[..n])|;
    }
  }

  lemma FinishFinds<T>(st: State, ctxErr: Error, probe: Error -> Option<T>)
    requires st.tails.Valid() && (forall es :: probe(Joined(es)).None?)
    requires forall m, c :: probe(OutputLimit(m, c)).None? && probe(CaptureIncomplete(m, c)).None?
    ensures Find(Finish(st, ctxErr).err, probe) ==
            if st.loop.complete || Find(st.loop.err, probe).Some? then Find(st.loop.err, probe)
            else Find(ctxErr, probe)
  {
    FindInPair(st.loop.err, ctxErr, probe);
  }

  /**
   No error of a run is lost. Whatever is searched for, the result's error answers with the first match among the wait
   error, what arrived in the loop, in order, and for an incomplete capture the context's error.
   */
  lemma RunFinds<T>(trace: seq<State>, events: seq<Event>, limit: int, waitErr: Error, ctxErr: Error,
                    expired: bool, already: Two<Bytes>, probe: Error -> Option<T>)
    requires limit > 0 && Run(trace, events) && trace[0] == Initial(limit, waitErr, expired, already)
    requires forall es :: probe(Joined(es)).None?
    requires forall m, c :: probe(OutputLimit(m, c)).None? && probe(CaptureIncomplete(m, c)).None?
    ensures trace[|events|].tails.Valid()
    ensures var st := trace[|events|];
            var found := FirstFound(waitErr, Arrivals(trace, events), probe);
            Find(Finish(st, ctxErr).err, probe) ==
            if st.loop.complete || found.Some? then found else Find(ctxErr, probe)
  {
    InitialInv(limit, waitErr, expired, already);
    RunKeepsInv(trace, events, limit, waitErr, |events|);
    RunCollects(trace, events);
    CollectedFinds(waitErr, Arrivals(trace, events), probe);
    FinishFinds(trace[|events|], ctxErr, probe);
  }

  /**
   In particular: the child's own exit code is the one found, a fired timer is found, and so is an expired
   context.
   */
  lemma RunReportsItsErrors(trace: seq<State>, events: seq<Event>, limit: int, waitErr: Error, ctxErr: Error,
                            expired: bool, already: Two<Bytes>)
    requires limit > 0 && Run(trace, events) && trace[0] == Initial(limit, waitErr, expired, already)
    ensures trace[|events|].tails.Valid()
    ensures var err := Finish(trace[|events|], ctxErr).err;
            && (Find(waitErr, EXIT_CODE).Some? ==> Find(err, EXIT_CODE) == Find(waitErr, EXIT_CODE))
            && (trace[|events|].timerFired ==> Find(err, IS_WAIT_DELAY).Some?)
            && (!trace[|events|].loop.complete && Find(ctxErr, IS_CANCELED).Some? ==> Find(err, IS_CANCELED).Some?)
            && (!trace[|events|].loop.complete && Find(ctxErr, IS_DEADLINE).Some? ==> Find(err, IS_DEADLINE).Some?)
  {
    RunFinds(trace, events, limit, waitErr, ctxErr, expired, already, EXIT_CODE);
    RunFinds(trace, events, limit, waitErr, ctxErr, expired, already, IS_WAIT_DELAY);
    RunFinds(trace, events, limit, waitErr, ctxErr, expired, already, IS_CANCELED);
    RunFinds(trace, events, limit, waitErr, ctxErr, expired, already, IS_DEADLINE);
    var arrivals := Arrivals(trace, events);
    if arrivals != [] {
      FirstFoundKeeps(waitErr, arrivals, EXIT_CODE, 0);
    }
    if trace[|events|].timerFired {
      var i := TimerArrives(trace, events);
      FirstFoundKeeps(waitErr, arrivals, IS_WAIT_DELAY, i);
    }
  }

  /** Nothing but drains that saw the end of their streams. */
  ghost predicate CleanArrivals(arrivals: seq<Arrival>) {
    forall i :: 0 <= i < |arrivals| ==> arrivals[i] == Drained(NoError)
  }

  lemma CleanOfBoth(a: seq<Arrival>, b: seq<Arrival>)
    ensures CleanArrivals(a + b) <==> CleanArrivals(a) && CleanArrivals(b)
  {
    if CleanArrivals(a + b) {
      assert forall i :: 0 <= i < |a| ==> (a + b)[i] == a[i];
      assert forall i :: 0 <= i < |b| ==> (a + b)[|a| + i] == b[i];
    }
  }

  lemma EventCompletes(st: State, e: Event)
    requires st.tails.Valid() && Enabled(st, e)
    ensures Apply(st, e).loop.complete <==> st.loop.complete && CleanArrivals(Delivered(st, e))
  {
    var arrived := Delivered(st, e);
    assert arrived != [] ==> (CleanArrivals(arrived) <==> arrived[0] == Drained(NoError));
  }

  /** In every run the capture is complete exactly while nothing has gone wrong: a clean wait, and clean drains only. */
  lemma {:induction false} RunCompletes(trace: seq<State>, events: seq<Event>, limit: int, waitErr: Error,
                                        expired: bool, already: Two<Bytes>)
    requires limit > 0 && Run(trace, events) && trace[0] == Initial(limit, waitErr, expired, already)
    ensures trace[|events|].loop.complete <==>
            !expired && Find(waitErr, IS_WAIT_DELAY).None? && CleanArrivals(Arrivals(trace, events))
  {
    if events != [] {
      var n := |events| - 1;
      RunPrefix(trace, events, n);
      RunCompletes(trace[..n + 1], events[..n], limit, waitErr, expired, already);
      EventCompletes(trace[n], events[n]);
      CleanOfBoth(Arrivals(trace[..n + 1], events[..n]), Delivered(trace[n], events[n]));
    }
  }

  // ----- the run in which nothing goes wrong

  lemma OneMore(trace: seq<State>, events: seq<Event>, e: Event) returns (trace': seq<State>, events': seq<Event>)
    requires Run(trace, events) && trace[|events|].tails.Valid() && Enabled(trace[|events|], e)
    ensures Run(trace', events') && trace'[0] == trace[0] && trace'[|events'|] == Apply(trace[|events|], e)
    ensures !e.ByChild() ==> forall s :: ChildBytes(events', s) == ChildBytes(events, s)
    ensures e.At? && e.act.CloseWriters? ==> forall s :: ChildBytes(events', s) == ChildBytes(events, s)
  {
    trace', events' := trace + [Apply(trace[|events|], e)], events + [e];
    assert events'[..|events'| - 1] == events;
    assert forall s :: ChildBytes(events, s) + [] == ChildBytes(events, s);
  }

  /** One pipe drained: what is in it read and stored, its writers gone, the end of file seen and its verdict taken. */
  lemma Drain(trace: seq<State>, events: seq<Event>, s: nat) returns (trace': seq<State>, events': seq<Event>)
    requires Run(trace, events) && s < 2
    requires var st := trace[|events|];
             && st.tails.Valid() && !st.timerFired && st.loop.pending > 0
             && st.pipes.At(s).status.Draining? && st.pipes.At(s).writersOpen && st.pipes.At(s).inFlight == []
    ensures Run(trace', events') && trace'[0] == trace[0]
    ensures forall r :: ChildBytes(events', r) == ChildBytes(events, r)
    ensures var st, st' := trace[|events|], trace'[|events'|];
            && st'.tails.Valid() && !st'.timerFired && st'.loop == st.loop.(pending := st.loop.pending - 1)
            && st'.pipes.At(1 - s) == st.pipes.At(1 - s) && st'.pipes.At(s).status == Received(NoError)
  {
    trace', events' := trace, events;
    if trace[|events|].pipes.At(s).unread != [] {
      trace', events' := OneMore(trace', events', At(s, Read(|trace[|events|].pipes.At(s).unread|)));
      trace', events' := OneMore(trace', events', At(s, Store));
    }
    trace', events' := OneMore(trace', events', At(s, CloseWriters));
    trace', events' := OneMore(trace', events', At(s, EndOfFile));
    trace', events' := OneMore(trace', events', At(s, Collect));
  }

  /**
   A capture can be complete: with a clean wait, whatever is in the pipes, there is a run that ends the loop with a
   complete capture, and so returns the bound of exactly those bytes.
   */
  lemma CompleteRunExists(limit: int, waitErr: Error, ctxErr: Error, already: Two<Bytes>)
    returns (trace: seq<State>, events: seq<Event>)
    requires limit > 0 && Capture(waitErr).None? && Find(waitErr, IS_WAIT_DELAY).None?
    ensures Run(trace, events) && trace[0] == Initial(limit, waitErr, false, already)
    ensures trace[|events|].loop.pending == 0 && trace[|events|].loop.complete && trace[|events|].tails.Valid()
    ensures Finish(trace[|events|], ctxErr) == Bound(Bounded(already.At(0), already.At(1), waitErr), limit)
  {
    var st0 := Initial(limit, waitErr, false, already);
    trace, events := Drain([st0], [], 0);
    trace, events := Drain(trace, events, 1);
    CompleteRunsCountEveryByte(trace, events, limit, waitErr, ctxErr, false, already);
    assert already.At(0) + [] == already.At(0) && already.At(1) + [] == already.At(1);
  }
}
