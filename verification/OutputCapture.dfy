/**
 Bounded output capture: a rolling tail per stream, the split of one aggregate byte budget
 over two streams, and the second bounding applied to an injected runner's result.
 */
module OutputCapture {
  import opened Wrappers
  import opened Errors

  newtype byte = b: int | 0 <= b < 256

  type Bytes = seq<byte>

  const DEFAULT_LIMIT: int := 0x10_0000

  function EffectiveLimit(limit: int): (l: int)
    ensures l > 0
  {
    if limit > 0 then limit else DEFAULT_LIMIT
  }

  /** The last `n` bytes of `s`, or all of them. */
  function Last(s: Bytes, n: nat): (t: Bytes)
    ensures |t| == Min(|s|, n)
  {
    if |s| <= n then s else s[|s| - n..]
  }

  lemma LastOfLast(s: Bytes, n: nat, m: nat)
    ensures Last(Last(s, n), m) == Last(s, Min(n, m))
  {
  }

  /** Forgetting early bytes before appending does not change the tail. */
  lemma LastOfAppend(s: Bytes, p: Bytes, n: nat)
    ensures Last(Last(s, n) + p, n) == Last(s + p, n)
  {
  }

  // ----- one locked write, and any interleaving of them

  /** One value for each of the two streams, stdout at 0 and stderr at 1. */
  datatype Two<T> = Two(first: T, second: T)
  {
    function At(stream: nat): T {
      if stream == 0 then first else second
    }

    function With(stream: nat, value: T): Two<T> {
      if stream == 0 then Two(value, second) else Two(first, value)
    }
  }

  datatype Tails = Tails(limit: int, tail: Two<Bytes>, original: Two<int>)
  {
    ghost predicate Valid() {
      limit > 0
    }
  }

  datatype Chunk = Chunk(stream: nat, bytes: Bytes)

  function NewTails(limit: int): Tails {
    Tails(limit, Two([], []), Two(0, 0))
  }

  function AfterWrite(c: Tails, w: Chunk): (c': Tails)
    requires c.Valid() && w.stream < 2
    ensures c'.Valid() && c'.limit == c.limit
  {
    c.(tail := c.tail.With(w.stream, Last(c.tail.At(w.stream) + w.bytes, c.limit)),
       original := c.original.With(w.stream, c.original.At(w.stream) + |w.bytes|))
  }

  ghost predicate TwoStreams(ws: seq<Chunk>) {
    forall i :: 0 <= i < |ws| ==> ws[i].stream < 2
  }

  function AfterWrites(limit: int, ws: seq<Chunk>): (c: Tails)
    requires limit > 0 && TwoStreams(ws)
    ensures c.Valid() && c.limit == limit
  {
    if ws == [] then NewTails(limit)
    else AfterWrite(AfterWrites(limit, ws[..|ws| - 1]), ws[|ws| - 1])
  }

  /** Every byte written to `stream`, in order. */
  function StreamBytes(ws: seq<Chunk>, stream: nat): Bytes {
    if ws == [] then []
    else StreamBytes(ws[..|ws| - 1], stream) + (if ws[|ws| - 1].stream == stream then ws[|ws| - 1].bytes else [])
  }

  lemma LastWrite(limit: int, ws: seq<Chunk>, stream: nat)
    requires limit > 0 && TwoStreams(ws) && stream < 2 && ws != []
    ensures var before, w := ws[..|ws| - 1], ws[|ws| - 1];
            && TwoStreams(before) && w.stream < 2
            && AfterWrites(limit, ws) == AfterWrite(AfterWrites(limit, before), w)
            && StreamBytes(ws, stream) == StreamBytes(before, stream) + (if w.stream == stream then w.bytes else [])
  {
  }

  /** One write and one stream: the stream's tail and counter follow the bytes written to it, the other's stay. */
  lemma WriteFollows(c: Tails, w: Chunk, stream: nat, bytes: Bytes)
    requires c.Valid() && w.stream < 2 && stream < 2
    requires c.tail.At(stream) == Last(bytes, c.limit) && c.original.At(stream) == |bytes|
    ensures var more := bytes + (if w.stream == stream then w.bytes else []);
            && AfterWrite(c, w).tail.At(stream) == Last(more, c.limit)
            && AfterWrite(c, w).original.At(stream) == |more|
  {
    LastOfAppend(bytes, w.bytes, c.limit);
    assert bytes + [] == bytes;
  }

  /**
   For every interleaving and chunking, a tail is the last bytes of its own stream and the counter counts them
   all.
   */
  lemma {:induction false} TailsOfWrites(limit: int, ws: seq<Chunk>, stream: nat)
    requires limit > 0 && TwoStreams(ws) && stream < 2
    ensures AfterWrites(limit, ws).tail.At(stream) == Last(StreamBytes(ws, stream), limit)
    ensures AfterWrites(limit, ws).original.At(stream) == |StreamBytes(ws, stream)|
  {
    if ws == [] {
    } else {
      var before, w := ws[..|ws| - 1], ws[|ws| - 1];
      LastWrite(limit, ws, stream);
      TailsOfWrites(limit, before, stream);
      WriteFollows(AfterWrites(limit, before), w, stream, StreamBytes(before, stream));
    }
  }

  /** Two schedules that deliver the same bytes to each stream leave the same capture. */
  lemma InterleavingIndependence(limit: int, ws: seq<Chunk>, ws': seq<Chunk>)
    requires limit > 0 && TwoStreams(ws) && TwoStreams(ws')
    requires StreamBytes(ws, 0) == StreamBytes(ws', 0) && StreamBytes(ws, 1) == StreamBytes(ws', 1)
    ensures AfterWrites(limit, ws) == AfterWrites(limit, ws')
  {
    TailsOfWrites(limit, ws, 0);
    TailsOfWrites(limit, ws, 1);
    TailsOfWrites(limit, ws', 0);
    TailsOfWrites(limit, ws', 1);
    var c, c' := AfterWrites(limit, ws), AfterWrites(limit, ws');
    assert c.tail == Two(c.tail.At(0), c.tail.At(1)) && c'.tail == Two(c'.tail.At(0), c'.tail.At(1));
    assert c.original == Two(c.original.At(0), c.original.At(1));
    assert c'.original == Two(c'.original.At(0), c'.original.At(1));
  }

  /** The two ways a write can replace a tail both leave the last bytes of the old tail and the new chunk. */
  lemma TailAfter(before: Bytes, p: Bytes, limit: nat, tail: Bytes)
    requires |before| <= limit
    requires tail == if |p| >= limit then p[|p| - limit..]
                     else (if |before| + |p| > limit then before[|before| + |p| - limit..] else before) + p
    ensures tail == Last(before + p, limit)
  {
  }

  // ----- splitting the aggregate budget

  /** How many of `p` stdout bytes stay when `q` stderr bytes compete for `limit`. */
  function KeptOut(p: nat, q: nat, limit: nat): nat {
    Min(p, Max(limit / 2, limit - q))
  }

  /** How many of `q` stderr bytes stay when `p` stdout bytes compete for `limit`. */
  function KeptErr(p: nat, q: nat, limit: nat): nat {
    Min(q, Max(limit - limit / 2, limit - p))
  }

  /**
   The budget is spent exactly, neither stream is cut below its half while it has bytes, and nothing is cut
   needlessly.
   */
  lemma SplitSpendsTheBudget(p: nat, q: nat, limit: nat)
    ensures KeptOut(p, q, limit) + KeptErr(p, q, limit) == Min(limit, p + q)
    ensures KeptOut(p, q, limit) >= Min(p, limit / 2)
    ensures KeptErr(p, q, limit) >= Min(q, limit - limit / 2)
    ensures p + q <= limit <==> KeptOut(p, q, limit) == p && KeptErr(p, q, limit) == q
  {
  }

  /** The split may be computed from the rolling tails: bytes a tail already lost would not have been kept. */
  lemma SplitOfTails(p: nat, q: nat, limit: nat)
    ensures KeptOut(Min(p, limit), Min(q, limit), limit) == KeptOut(p, q, limit)
    ensures KeptErr(Min(p, limit), Min(q, limit), limit) == KeptErr(p, q, limit)
  {
  }

  /** The same on bytes: the suffixes kept of the rolling tails are the suffixes kept of everything written. */
  lemma TailsSplitAsWritten(a: Bytes, b: Bytes, limit: nat)
    ensures var p, q := |Last(a, limit)|, |Last(b, limit)|;
            && Last(Last(a, limit), KeptOut(p, q, limit)) == Last(a, KeptOut(|a|, |b|, limit))
            && Last(Last(b, limit), KeptErr(p, q, limit)) == Last(b, KeptErr(|a|, |b|, limit))
  {
    SplitOfTails(|a|, |b|, limit);
    LastOfLast(a, limit, KeptOut(|a|, |b|, limit));
    LastOfLast(b, limit, KeptErr(|a|, |b|, limit));
  }

  /** Splitting at one limit and then at another is splitting once at the smaller, odd limits included. */
  lemma SplitComposes(p: nat, q: nat, l1: nat, l2: nat)
    ensures KeptOut(KeptOut(p, q, l1), KeptErr(p, q, l1), l2) == KeptOut(p, q, Min(l1, l2))
    ensures KeptErr(KeptOut(p, q, l1), KeptErr(p, q, l1), l2) == KeptErr(p, q, Min(l1, l2))
  {
  }

  lemma SuffixIsLast(a: Bytes, x: nat)
    requires x <= |a|
    ensures a[|a| - x..] == Last(a, x)
  {
  }

  /** The capture object: the tails and counters that both drains update under its lock. */
  class ProcessCapture {
    const limit: int
    var tails: Two<Bytes>
    var original: Two<int>
    ghost var history: seq<Chunk>

    /** The object's state as the value the interleaving lemmas speak about. */
    ghost function State(): Tails
      reads this
    {
      Tails(limit, tails, original)
    }

    ghost predicate Valid()
      reads this
    {
      limit > 0 && TwoStreams(history) && State() == AfterWrites(limit, history)
    }

    constructor (limit: int)
      requires limit > 0
      ensures Valid() && this.limit == limit && history == []
    {
      this.limit := limit;
      tails := Two([], []);
      original := Two(0, 0);
      history := [];
    }

    method Write(stream: nat, p: Bytes) returns (n: nat)
      requires Valid() && stream < 2
      modifies this
      ensures Valid() && n == |p| && history == old(history) + [Chunk(stream, p)]
      ensures State() == AfterWrite(old(State()), Chunk(stream, p))
    {
      TailsOfWrites(limit, history, stream);
      OneMoreWrite(limit, history, Chunk(stream, p));
      var tail := Roll(tails.At(stream), p, limit);
      original := original.With(stream, original.At(stream) + |p|);
      tails := tails.With(stream, tail);
      history := history + [Chunk(stream, p)];
      return |p|;
    }

    /** The rebalance: each stream keeps the end of what was written to it, in the lengths of the split. */
    method Result(complete: bool) returns (out: Bytes, stderr: Bytes, m: CaptureMetadata)
      requires Valid()
      ensures var a, b := StreamBytes(history, 0), StreamBytes(history, 1);
              && out == Last(a, KeptOut(|a|, |b|, limit))
              && stderr == Last(b, KeptErr(|a|, |b|, limit))
              && m == CaptureMetadata(complete, |a|, |b|, |a| > |out|, |b| > |stderr|)
    {
      TailsOfWrites(limit, history, 0);
      TailsOfWrites(limit, history, 1);
      TailsSplitAsWritten(StreamBytes(history, 0), StreamBytes(history, 1), limit);
      out, stderr := SplitTails(tails.At(0), tails.At(1), limit);
      m := CaptureMetadata(complete, original.At(0), original.At(1), original.At(0) > |out|, original.At(1) > |stderr|);
    }
  }

  /** Both tails cut to their shares, when together they exceed the limit. */
  method SplitTails(a: Bytes, b: Bytes, limit: nat) returns (out: Bytes, stderr: Bytes)
    ensures out == Last(a, KeptOut(|a|, |b|, limit))
    ensures stderr == Last(b, KeptErr(|a|, |b|, limit))
  {
    out, stderr := a, b;
    if |a| + |b| > limit {
      var x, y := Rebalance(|a|, |b|, limit);
      SuffixIsLast(a, x);
      SuffixIsLast(b, y);
      out, stderr := a[|a| - x..], b[|b| - y..];
    } else {
      SplitSpendsTheBudget(|a|, |b|, limit);
    }
  }

  lemma OneMoreWrite(limit: int, ws: seq<Chunk>, w: Chunk)
    requires limit > 0 && TwoStreams(ws) && w.stream < 2
    ensures TwoStreams(ws + [w]) && AfterWrites(limit, ws + [w]) == AfterWrite(AfterWrites(limit, ws), w)
  {
    assert (ws + [w])[..|ws|] == ws;
  }

  /** The new tail: the end of the chunk alone when it fills the limit, else the old tail cut to make room. */
  method Roll(before: Bytes, p: Bytes, limit: nat) returns (tail: Bytes)
    requires |before| <= limit
    ensures tail == Last(before + p, limit)
  {
    tail := before;
    if |p| >= limit {
      tail := p[|p| - limit..];
    } else {
      if |tail| + |p| > limit {
        tail := tail[|tail| + |p| - limit..];
      }
      tail := tail + p;
    }
    TailAfter(before, p, limit, tail);
  }

  /** The step-by-step adjustment of the two shares when both tails together exceed the limit. */
  method Rebalance(p: nat, q: nat, limit: nat) returns (x: nat, y: nat)
    requires p + q > limit
    ensures x == KeptOut(p, q, limit) && y == KeptErr(p, q, limit)
  {
    x := Min(p, limit / 2);
    y := Min(q, limit - limit / 2);
    var left := limit - x - y;
    var extra := Min(left, p - x);
    x := x + extra;
    left := left - extra;
    y := y + Min(left, q - y);
  }

  // ----- bounding an injected runner's result

  datatype Bounded = Bounded(out: Bytes, stderr: Bytes, err: Error)

  /** The original sizes a bounding reports: those of an earlier capture when the error carries one. */
  function OriginalSizes(out: Bytes, stderr: Bytes, err: Error): (int, int) {
    match Capture(err)
    case Some(m) => (m.stdoutSize, m.stderrSize)
    case None => (|out|, |stderr|)
  }

  /** What bounding a runner's result at `limit` means. */
  function Bound(r: Bounded, limit: int): Bounded {
    var l := EffectiveLimit(limit);
    var sizes := OriginalSizes(r.out, r.stderr, r.err);
    var out := Last(r.out, KeptOut(|r.out|, |r.stderr|, l));
    var stderr := Last(r.stderr, KeptErr(|r.out|, |r.stderr|, l));
    if Capture(r.err).Some? && !Capture(r.err).value.complete then
      Bounded([], [], r.err)
    else if sizes.0 + sizes.1 > l then
      Bounded(out, stderr,
              OutputLimit(CaptureMetadata(true, sizes.0, sizes.1, sizes.0 > |out|, sizes.1 > |stderr|), r.err))
    else
      Bounded(out, stderr, r.err)
  }

  lemma TwoWrites(out: Bytes, stderr: Bytes)
    ensures var ws := [Chunk(0, out), Chunk(1, stderr)];
            TwoStreams(ws) && StreamBytes(ws, 0) == out && StreamBytes(ws, 1) == stderr
  {
    var ws := [Chunk(0, out), Chunk(1, stderr)];
    assert ws[..1] == [Chunk(0, out)] && ws[..1][..0] == [];
    forall s | 0 <= s < 2
      ensures StreamBytes(ws, s) == if s == 0 then out else stderr
    {
      assert StreamBytes(ws[..1], s) == StreamBytes([], s) + (if s == 0 then out else []);
    }
  }

  /** Both outputs through a fresh capture. */
  method CaptureOnce(out: Bytes, stderr: Bytes, limit: int) returns (keptOut: Bytes, keptErr: Bytes, m: CaptureMetadata)
    requires limit > 0
    ensures keptOut == Last(out, KeptOut(|out|, |stderr|, limit))
    ensures keptErr == Last(stderr, KeptErr(|out|, |stderr|, limit))
    ensures m == CaptureMetadata(true, |out|, |stderr|, |out| > |keptOut|, |stderr| > |keptErr|)
  {
    var capture := new ProcessCapture(limit);
    var _ := capture.Write(0, out);
    var _ := capture.Write(1, stderr);
    assert capture.history == [Chunk(0, out), Chunk(1, stderr)];
    TwoWrites(out, stderr);
    keptOut, keptErr, m := capture.Result(true);
  }

  method BoundRunnerOutput(out: Bytes, stderr: Bytes, err: Error, limit: int) returns (r: Bounded)
    ensures r == Bound(Bounded(out, stderr, err), limit)
  {
    var prior := Capture(err);
    if prior.Some? && !prior.value.complete {
      return Bounded([], [], err);
    }
    var l := EffectiveLimit(limit);
    var keptOut, keptErr, m := CaptureOnce(out, stderr, l);
    if prior.Some? {
      m := m.(stdoutSize := prior.value.stdoutSize, stderrSize := prior.value.stderrSize);
      m := m.(stdoutTruncated := m.stdoutSize > |keptOut|, stderrTruncated := m.stderrSize > |keptErr|);
    }
    if m.stdoutSize + m.stderrSize > l {
      return Bounded(keptOut, keptErr, OutputLimit(m, err));
    }
    return Bounded(keptOut, keptErr, err);
  }

  /** Everything a caller reads off a bounded result: bytes, capture metadata, exit code, cancellation and deadline. */
  ghost predicate SameResult(a: Bounded, b: Bounded) {
    && a.out == b.out && a.stderr == b.stderr && Capture(a.err) == Capture(b.err)
    && Find(a.err, EXIT_CODE) == Find(b.err, EXIT_CODE)
    && Find(a.err, IS_CANCELED) == Find(b.err, IS_CANCELED)
    && Find(a.err, IS_DEADLINE) == Find(b.err, IS_DEADLINE)
  }

  /**
   Bounding hides nothing: every search but the one for capture metadata finds what it found in the runner's
   error.
   */
  lemma BoundKeepsFinds<T>(r: Bounded, limit: int, probe: Error -> Option<T>)
    requires forall m, c :: probe(OutputLimit(m, c)).None?
    ensures Find(Bound(r, limit).err, probe) == Find(r.err, probe)
  {
  }

  /** ... and so does bounding twice. */
  lemma BoundTwiceKeepsFinds<T>(r: Bounded, l1: int, l2: int, probe: Error -> Option<T>)
    requires forall m, c :: probe(OutputLimit(m, c)).None?
    ensures var l := Min(EffectiveLimit(l1), EffectiveLimit(l2));
            Find(Bound(Bound(r, l1), l2).err, probe) == Find(r.err, probe) == Find(Bound(r, l).err, probe)
  {
    BoundKeepsFinds(r, l1, probe);
    BoundKeepsFinds(Bound(r, l1), l2, probe);
    BoundKeepsFinds(r, Min(EffectiveLimit(l1), EffectiveLimit(l2)), probe);
  }

  lemma KeptIsMonotone(p: nat, q: nat, l1: nat, l2: nat)
    ensures KeptOut(p, q, Min(l1, l2)) <= KeptOut(p, q, l1)
    ensures KeptErr(p, q, Min(l1, l2)) <= KeptErr(p, q, l1)
  {
  }

  /** The byte side of the composition law. */
  lemma BytesCompose(out: Bytes, stderr: Bytes, l1: nat, l2: nat)
    ensures var out1 := Last(out, KeptOut(|out|, |stderr|, l1));
            var err1 := Last(stderr, KeptErr(|out|, |stderr|, l1));
            && Last(out1, KeptOut(|out1|, |err1|, l2)) == Last(out, KeptOut(|out|, |stderr|, Min(l1, l2)))
            && Last(err1, KeptErr(|out1|, |err1|, l2)) == Last(stderr, KeptErr(|out|, |stderr|, Min(l1, l2)))
  {
    var p, q := |out|, |stderr|;
    SplitComposes(p, q, l1, l2);
    KeptIsMonotone(p, q, l1, l2);
    LastOfLast(out, KeptOut(p, q, l1), KeptOut(p, q, Min(l1, l2)));
    LastOfLast(stderr, KeptErr(p, q, l1), KeptErr(p, q, Min(l1, l2)));
  }

  /** Bounding keeps the sizes a later bounding will report, unless it cut a stream it also reports on. */
  lemma SizesSurvive(r: Bounded, l: int)
    requires Capture(r.err).None? || Capture(r.err).value.complete
    ensures var b := Bound(r, l);
            var sizes := OriginalSizes(r.out, r.stderr, r.err);
            && OriginalSizes(b.out, b.stderr, b.err) == sizes
            && Capture(b.err) ==
               if sizes.0 + sizes.1 > EffectiveLimit(l) then
                 Some(CaptureMetadata(true, sizes.0, sizes.1, sizes.0 > |b.out|, sizes.1 > |b.stderr|))
               else Capture(r.err)
  {
    SplitSpendsTheBudget(|r.out|, |r.stderr|, EffectiveLimit(l));
  }

  /**
   Bounding at `l1` and then at `l2` is bounding once at the smaller: the same bytes, original sizes,
   truncation flags, verdict, exit code and cancellation, for every runner result, error tree and pair of limits.
   */
  lemma BoundComposes(r: Bounded, l1: int, l2: int)
    ensures SameResult(Bound(Bound(r, l1), l2), Bound(r, Min(EffectiveLimit(l1), EffectiveLimit(l2))))
  {
    BoundTwiceKeepsFinds(r, l1, l2, EXIT_CODE);
    BoundTwiceKeepsFinds(r, l1, l2, IS_CANCELED);
    BoundTwiceKeepsFinds(r, l1, l2, IS_DEADLINE);
    if Capture(r.err).Some? && !Capture(r.err).value.complete {
    } else {
      var e1, e2 := EffectiveLimit(l1), EffectiveLimit(l2);
      BytesCompose(r.out, r.stderr, e1, e2);
      SizesSurvive(r, l1);
      SizesSurvive(Bound(r, l1), l2);
      SizesSurvive(r, Min(e1, e2));
    }
  }
}
