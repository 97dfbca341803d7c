/**
 Size admission of a read-only workspace and the size accounting done after the run, both in 64-bit
 arithmetic: when the first lets a tree through, the second returns that tree's true size.
 */
module Admission {
  import opened Wrappers

  const MAX_INT64: int := 0x7FFF_FFFF_FFFF_FFFF
  const TWO_64: int := 0x1_0000_0000_0000_0000

  predicate InInt64(x: int) {
    -MAX_INT64 - 1 <= x <= MAX_INT64
  }

  /** The value 64-bit two's-complement arithmetic keeps of `x`. */
  function Wrap(x: int): (w: int)
    ensures InInt64(w) && (InInt64(x) ==> w == x) && (w - x) % TWO_64 == 0
  {
    (x + MAX_INT64 + 1) % TWO_64 - MAX_INT64 - 1
  }

  datatype Kind = Directory | Regular | Symlink | Special | Unreadable

  datatype WalkEntry = WalkEntry(kind: Kind, size: int)

  /** The bytes of everything that is not a directory. */
  function Total(entries: seq<WalkEntry>): int {
    if entries == [] then 0
    else
      var last := entries[|entries| - 1];
      Total(entries[..|entries| - 1]) + (if last.kind.Directory? then 0 else last.size)
  }

  /** What one entry adds: the size of anything that is not a directory, symlinks and special files included. */
  lemma TotalOfOne(e: WalkEntry)
    ensures Total([e]) == match e.kind
                          case Directory => 0
                          case _ => e.size
  {
    assert [e][..0] == [];
  }

  lemma {:induction false} TotalAppends(a: seq<WalkEntry>, b: seq<WalkEntry>)
    ensures Total(a + b) == Total(a) + Total(b)
    decreases |b|
  {
    if b == [] {
      assert a + b == a;
    } else {
      var n := |b| - 1;
      assert (a + b)[..|a + b| - 1] == a + b[..n];
      TotalAppends(a, b[..n]);
    }
  }

  lemma OneBetween(tail: seq<WalkEntry>, e: WalkEntry, before: seq<WalkEntry>, after: seq<WalkEntry>)
    requires Total(tail) == Total(before + after)
    ensures Total([e] + tail) == Total(before + [e] + after)
  {
    TotalAppends([e], tail);
    TotalAppends(before + [e], after);
    TotalAppends(before, [e]);
    TotalAppends(before, after);
  }

  lemma SameRest(tail: seq<WalkEntry>, e: WalkEntry, before: seq<WalkEntry>, after: seq<WalkEntry>)
    requires multiset([e] + tail) == multiset(before + [e] + after)
    ensures multiset(tail) == multiset(before + after)
  {
    assert multiset([e] + tail) == multiset{e} + multiset(tail);
    assert multiset(before + [e] + after) == multiset{e} + multiset(before + after);
    assert multiset(tail) == multiset([e] + tail) - multiset{e};
  }

  lemma Around(b: seq<WalkEntry>, e: WalkEntry) returns (before: seq<WalkEntry>, after: seq<WalkEntry>)
    requires e in multiset(b)
    ensures b == before + [e] + after
  {
    var i :| 0 <= i < |b| && b[i] == e;
    before, after := b[..i], b[i + 1..];
  }

  /** The order of the walk does not matter. */
  lemma {:induction false} TotalPermutes(a: seq<WalkEntry>, b: seq<WalkEntry>)
    requires multiset(a) == multiset(b)
    ensures Total(a) == Total(b)
    decreases |a|
  {
    if a == [] {
      assert |multiset(b)| == 0;
    } else {
      var e, tail := a[0], a[1..];
      assert a == [e] + tail;
      assert e in multiset(a);
      var before, after := Around(b, e);
      SameRest(tail, e, before, after);
      TotalPermutes(tail, before + after);
      OneBetween(tail, e, before, after);
    }
  }

  ghost predicate Sizes(entries: seq<WalkEntry>) {
    forall i :: 0 <= i < |entries| ==> 0 <= entries[i].size <= MAX_INT64
  }

  ghost predicate OnlyPlain(entries: seq<WalkEntry>) {
    forall i :: 0 <= i < |entries| ==> entries[i].kind.Directory? || entries[i].kind.Regular?
  }

  lemma {:induction false} TotalGrows(entries: seq<WalkEntry>, n: nat)
    requires Sizes(entries) && n <= |entries|
    ensures 0 <= Total(entries[..n]) <= Total(entries)
    decreases |entries|
  {
    assert entries[..|entries|] == entries;
    if n < |entries| {
      TotalGrows(entries[..|entries| - 1], n);
      assert entries[..|entries| - 1][..n] == entries[..n];
    } else if n > 0 {
      TotalGrows(entries[..n - 1], n - 1);
      assert entries[..n - 1][..n - 1] == entries[..n - 1];
    }
  }

  /**
   The admission walk, its context expiring after `live` entries. It accepts exactly when it saw every entry, met
   nothing but directories and regular files, and their true total is within the limit; the running total and the
   remaining budget never leave 64 bits.
   */
  method AdmitWorkspace(entries: seq<WalkEntry>, limit: int, live: nat) returns (ok: bool)
    requires 0 < limit <= MAX_INT64 && Sizes(entries)
    ensures ok <==> live >= |entries| && OnlyPlain(entries) && Total(entries) <= limit
  {
    var total := 0;
    for i := 0 to |entries|
      invariant i <= live && OnlyPlain(entries[..i])
      invariant total == Total(entries[..i]) && 0 <= total <= limit
    {
      assert entries[..i + 1][..i] == entries[..i];
      if i >= live {
        return false;
      }
      var entry := entries[i];
      TotalGrows(entries, i + 1);
      if entry.kind.Symlink? || entry.kind.Unreadable? {
        return false;
      }
      if !entry.kind.Directory? {
        if !entry.kind.Regular? {
          return false;
        }
        assert InInt64(limit - total);
        if entry.size > limit - total {
          return false;
        }
        assert InInt64(total + entry.size);
        total := total + entry.size;
      }
    }
    assert entries[..|entries|] == entries;
    return true;
  }

  /**
   The accounting walk adds whatever sizes it meets, in wrapping arithmetic, and discards a partial sum on any
   failure.
   */
  method DirectorySize(entries: seq<WalkEntry>, live: nat) returns (r: Result<int>)
    requires Sizes(entries)
    ensures r.Ok? <==> live > |entries| && forall i :: 0 <= i < |entries| ==> !entries[i].kind.Unreadable?
    ensures r.Ok? ==> r.value == Wrap(Total(entries))
  {
    var total := 0;
    for i := 0 to |entries|
      invariant i <= live && total == Wrap(Total(entries[..i]))
      invariant forall j :: 0 <= j < i ==> !entries[j].kind.Unreadable?
    {
      assert entries[..i + 1][..i] == entries[..i];
      if i >= live || entries[i].kind.Unreadable? {
        return Err;
      }
      if !entries[i].kind.Directory? {
        WrapAdds(Total(entries[..i]), entries[i].size);
        total := Wrap(total + entries[i].size);
      }
    }
    if |entries| >= live {
      return Err;
    }
    assert entries[..|entries|] == entries;
    return Ok(total);
  }

  lemma WrapAdds(a: int, b: int)
    ensures Wrap(Wrap(a) + b) == Wrap(a + b)
  {
    var x, y := Wrap(a) + b, a + b;
    assert (x - y) % TWO_64 == 0;
    var k := (x - y) / TWO_64;
    assert x + MAX_INT64 + 1 == (y + MAX_INT64 + 1) + k * TWO_64;
    ModuloShift(y + MAX_INT64 + 1, k);
  }

  lemma ModuloShift(x: int, k: int)
    ensures (x + k * TWO_64) % TWO_64 == x % TWO_64
  {
    var q, r := x / TWO_64, x % TWO_64;
    assert x + k * TWO_64 == (q + k) * TWO_64 + r;
  }

  /**
   Run on an unchanged tree, accounting after an admission returns the admitted tree's true total, within the
   limit.
   */
  method AdmitThenAccount(entries: seq<WalkEntry>, limit: int, live: nat, liveAfter: nat)
    returns (ok: bool, size: Result<int>)
    requires 0 < limit <= MAX_INT64 && Sizes(entries)
    ensures ok <==> live >= |entries| && OnlyPlain(entries) && Total(entries) <= limit
    ensures ok && liveAfter > |entries| ==> size == Ok(Total(entries)) && 0 <= size.value <= limit
  {
    ok := AdmitWorkspace(entries, limit, live);
    size := DirectorySize(entries, liveAfter);
    TotalGrows(entries, |entries|);
    assert entries[..|entries|] == entries;
  }
}
