/** Whole runs of the block cache: replacement is least recently used, every read returns the last
    write, and the counters tie up. */
module CacheRuns {
  import opened Bytes
  import opened CacheModel
  import opened CacheTheorems

  datatype Op =
    | ReadOp(lba: Lba, faults: Faults)
    | WriteOp(lba: Lba, data: Sector, faults: Faults)
    | SyncOp(faults: Faults)

  function Step(c: Cache, op: Op): (r: Cache)
    requires c.slots != []
    ensures |r.slots| == |c.slots|
  {
    match op
    case ReadOp(lba, f) => Read(c, lba, f).0
    case WriteOp(lba, data, f) => Write(c, lba, data, f)
    case SyncOp(f) => Sync(c, f).0
  }

  function Run(c: Cache, ops: seq<Op>): (r: Cache)
    requires c.slots != []
    ensures |r.slots| == |c.slots|
  {
    if ops == [] then c else Step(Run(c, ops[..|ops| - 1]), ops[|ops| - 1])
  }

  // ---- the invariant holds in every reachable state ----------------------------------------

  lemma InitialValid(n: nat, disk: Disk)
    requires n >= 1
    ensures Valid(Initial(n, disk))
    ensures forall l :: View(Initial(n, disk), l) == At(disk, l)
  {
    assert DirtyLbas(Initial(n, disk).slots) == {};
  }

  lemma StepValid(c: Cache, op: Op)
    requires Valid(c)
    ensures Valid(Step(c, op))
  {
    match op
    case ReadOp(lba, f) => ReadValid(c, lba, f);
    case WriteOp(lba, data, f) => WriteValid(c, lba, data, f);
    case SyncOp(f) => SyncValid(c, f);
  }

  /** No two slots hold one sector, empty slots stay last, clean slots equal the disk, and disk writes
      plus dirty slots never exceed the calls to write: in every state any run reaches. */
  lemma {:induction false} RunValid(c: Cache, ops: seq<Op>)
    requires Valid(c)
    ensures Valid(Run(c, ops))
  {
    if ops != [] {
      RunValid(c, ops[..|ops| - 1]);
      StepValid(Run(c, ops[..|ops| - 1]), ops[|ops| - 1]);
    }
  }

  // ---- recency -----------------------------------------------------------------------------

  function Without<T(==)>(s: seq<T>, x: T): (r: seq<T>)
  {
    if s == [] then [] else if s[0] == x then Without(s[1..], x) else [s[0]] + Without(s[1..], x)
  }

  /** The distinct elements of a history, most recent first. */
  function Recent<T(==)>(h: seq<T>): seq<T> {
    if h == [] then [] else [h[|h| - 1]] + Without(Recent(h[..|h| - 1]), h[|h| - 1])
  }

  /** The sectors a cache holds, in list order. */
  function Lbas(slots: seq<Slot>): (r: seq<Lba>)
    ensures |r| <= |slots|
    ensures forall i :: 0 <= i < |r| ==> slots[i].Full? && r[i] == slots[i].lba
    ensures |r| < |slots| ==> slots[|r|].Empty?
  {
    if slots == [] || slots[0].Empty? then [] else [slots[0].lba] + Lbas(slots[1..])
  }

  /** The sectors touched by the calls of a run that succeeded, oldest first. */
  function History(c: Cache, ops: seq<Op>): seq<Lba>
    requires c.slots != []
  {
    if ops == [] then [] else
      var op := ops[|ops| - 1];
      History(c, ops[..|ops| - 1]) +
      match op
      case ReadOp(lba, f) => if Read(Run(c, ops[..|ops| - 1]), lba, f).1.Some? then [lba] else []
      case WriteOp(lba, _, _) => [lba]
      case SyncOp(_) => []
  }

  lemma {:induction false} WithoutAbsent<T>(s: seq<T>, x: T)
    requires x !in s
    ensures Without(s, x) == s
  {
    if s != [] {
      WithoutAbsent(s[1..], x);
    }
  }

  lemma {:induction false} WithoutAt<T>(s: seq<T>, k: nat)
    requires Distinct(s) && k < |s|
    ensures Without(s, s[k]) == s[..k] + s[k + 1..]
  {
    if k == 0 {
      WithoutAbsent(s[1..], s[0]);
    } else {
      WithoutAt(s[1..], k - 1);
      assert s[..k] == [s[0]] + s[1..][..k - 1];
    }
  }

  lemma {:induction false} WithoutPrefix<T>(a: seq<T>, b: seq<T>, x: T)
    requires a <= b
    ensures Without(a, x) <= Without(b, x)
  {
    if a != [] {
      WithoutPrefix(a[1..], b[1..], x);
    }
  }

  lemma {:induction false} WithoutElems<T>(s: seq<T>, x: T)
    requires Distinct(s)
    ensures Distinct(Without(s, x)) && Elems(Without(s, x)) == Elems(s) - {x}
  {
    if s != [] {
      WithoutElems(s[1..], x);
      assert Elems(s) == {s[0]} + Elems(s[1..]);
      assert s[0] !in Elems(s[1..]);
      var r := Without(s[1..], x);
      if s[0] != x {
        assert Elems([s[0]] + r) == {s[0]} + Elems(r);
        assert s[0] !in Elems(r);
      }
    }
  }

  lemma {:induction false} RecentElems<T>(h: seq<T>)
    ensures Distinct(Recent(h)) && Elems(Recent(h)) == Elems(h)
  {
    if h != [] {
      var h', y := h[..|h| - 1], h[|h| - 1];
      RecentElems(h');
      WithoutElems(Recent(h'), y);
      var r := Without(Recent(h'), y);
      assert Elems([y] + r) == {y} + Elems(r);
      assert h == h' + [y];
      assert Elems(h) == Elems(h') + {y};
      assert y !in Elems(r);
    }
  }

  // ---- how one call changes the list of sectors ----------------------------------------------

  lemma LbasDistinct(slots: seq<Slot>)
    requires UniqueLbas(slots)
    ensures Distinct(Lbas(slots))
  {
  }

  /** The list is determined by its length and entries. */
  lemma LbasAre(slots: seq<Slot>, r: seq<Lba>)
    requires |r| <= |slots|
    requires forall i :: 0 <= i < |r| ==> slots[i].Full? && r[i] == slots[i].lba
    requires |r| < |slots| ==> slots[|r|].Empty?
    ensures Lbas(slots) == r
  {
    var s := Lbas(slots);
    var k := if |s| < |r| then |s| else |r|;
    assert k < |slots| ==> slots[k].Full? || slots[k].Empty?;
  }

  lemma LbasCached(c: Cache, lba: Lba)
    requires Consistent(c)
    ensures Cached(c, lba) <==> lba in Lbas(c.slots)
    ensures Cached(c, lba) ==> Position(c.slots, lba) < |Lbas(c.slots)| && Lbas(c.slots)[Position(c.slots, lba)] == lba
  {
    var r := Lbas(c.slots);
    var p := Position(c.slots, lba);
    if p < |c.slots| {
      assert p < |r|;
    }
    if lba in r {
      var i :| 0 <= i < |r| && r[i] == lba;
      HolderIsCached(c, lba, i);
    }
  }

  lemma HolderIsCached(c: Cache, lba: Lba, i: nat)
    requires i < |c.slots| && Holds(c.slots[i], lba)
    ensures Cached(c, lba)
  {
  }

  lemma ToFrontIs<T>(s: seq<T>, k: nat)
    requires k < |s|
    ensures ToFront(s, k) == [s[k]] + (s[..k] + s[k + 1..])
  {
  }

  lemma LbasToFront(slots: seq<Slot>, k: nat)
    requires k < |Lbas(slots)|
    ensures Lbas(ToFront(slots, k)) == ToFront(Lbas(slots), k)
  {
    LbasAre(ToFront(slots, k), ToFront(Lbas(slots), k));
  }

  lemma HitLbas(slots: seq<Slot>, k: nat)
    requires UniqueLbas(slots) && k < |Lbas(slots)|
    ensures Lbas(ToFront(slots, k)) == [slots[k].lba] + Without(Lbas(slots), slots[k].lba)
  {
    LbasDistinct(slots);
    LbasToFront(slots, k);
    WithoutAt(Lbas(slots), k);
    ToFrontIs(Lbas(slots), k);
    assert Lbas(slots)[k] == slots[k].lba;
  }

  lemma EvictLbas(c: Cache, f: Faults)
    requires c.slots != []
    ensures var r := Lbas(c.slots);
            Lbas(Evict(c, f).slots) == if |r| == |c.slots| then r[..|r| - 1] else r
  {
    var r := Lbas(c.slots);
    LbasAre(Evict(c, f).slots, if |r| == |c.slots| then r[..|r| - 1] else r);
  }

  lemma InsertLbas(e: Cache, s: Slot)
    requires e.slots != [] && e.slots[|e.slots| - 1].Empty? && s.Full?
    ensures Lbas(Insert(e, s).slots) == [s.lba] + Lbas(e.slots)
  {
    LbasAre(Insert(e, s).slots, [s.lba] + Lbas(e.slots));
  }

  /** The list after an access to `lba`: moved to the front, or inserted in place of the last. */
  function AccessLbas(r: seq<Lba>, n: nat, lba: Lba): seq<Lba>
    requires n >= 1
  {
    if lba in r then [lba] + Without(r, lba)
    else if |r| >= n then [lba] + r[..n - 1]
    else [lba] + r
  }

  lemma ReadMissLbas(c: Cache, lba: Lba, f: Faults)
    requires c.slots != []
    ensures var r, out := Lbas(c.slots), ReadMiss(c, lba, f);
            var kept := if |r| == |c.slots| then r[..|r| - 1] else r;
            Lbas(out.0.slots) == if out.1.Some? then [lba] + kept else kept
  {
    EvictLbas(c, f);
    if lba !in f.badReads {
      InsertLbas(Evict(c, f), Full(lba, At(Evict(c, f).disk, lba), false));
    }
  }

  lemma ReadLbas(c: Cache, lba: Lba, f: Faults)
    requires Consistent(c)
    ensures var r := Lbas(c.slots);
            Lbas(Read(c, lba, f).0.slots) ==
            if Read(c, lba, f).1.Some? then AccessLbas(r, |c.slots|, lba)
            else if |r| == |c.slots| then r[..|r| - 1] else r
  {
    LbasCached(c, lba);
    var p := Position(c.slots, lba);
    if p < |c.slots| {
      HitLbas(c.slots, p);
    } else {
      ReadMissLbas(c, lba, f);
      hide ReadMiss;
    }
  }

  lemma OverwriteLbas(c: Cache, p: nat, data: Sector)
    requires Consistent(c) && p < |c.slots| && c.slots[p].Full?
    ensures var t := c.slots[p := Full(c.slots[p].lba, data, true)]; UniqueLbas(t) && Lbas(t) == Lbas(c.slots)
  {
    hide WriteBack, Insert, CleanMatchesDisk, ToFront;
    OverwriteConsistent(c, p, data);
    LbasAre(c.slots[p := Full(c.slots[p].lba, data, true)], Lbas(c.slots));
  }

  lemma WriteMissLbas(c: Cache, lba: Lba, data: Sector, f: Faults)
    requires c.slots != []
    ensures var r := Lbas(c.slots);
            Lbas(WriteMiss(c, lba, data, f).slots) == [lba] + if |r| == |c.slots| then r[..|r| - 1] else r
  {
    EvictLbas(c, f);
    InsertLbas(Evict(c, f), Full(lba, data, true));
    hide Lbas, Insert, WriteBack;
  }

  lemma WriteLbas(c: Cache, lba: Lba, data: Sector, f: Faults)
    requires Consistent(c)
    ensures Lbas(Write(c, lba, data, f).slots) == AccessLbas(Lbas(c.slots), |c.slots|, lba)
  {
    hide Lbas, Without, WriteMiss, UniqueLbas, EmptiesLast, CleanMatchesDisk, ToFront, PositionFrom;
    LbasCached(c, lba);
    var p := Position(c.slots, lba);
    if p < |c.slots| {
      OverwriteLbas(c, p, data);
      HitLbas(c.slots[p := Full(lba, data, true)], p);
    } else {
      var c1 := c.(stats := c.stats.(logicalWrites := c.stats.logicalWrites + 1));
      WriteMissLbas(c1, lba, data, f);
    }
  }

  lemma SyncLbas(c: Cache, f: Faults)
    ensures Lbas(Sync(c, f).0.slots) == Lbas(c.slots)
  {
    LbasAre(CleanSlots(c.slots, f), Lbas(c.slots));
  }

  // ---- the LRU theorem -----------------------------------------------------------------------

  lemma AccessPrefix(r: seq<Lba>, n: nat, h: seq<Lba>, lba: Lba)
    requires n >= 1 && r <= Recent(h)
    ensures AccessLbas(r, n, lba) <= Recent(h + [lba])
  {
    var h1 := h + [lba];
    assert h1[..|h1| - 1] == h;
    if lba in r {
      WithoutPrefix(r, Recent(h), lba);
    } else {
      var a := if |r| >= n then r[..n - 1] else r;
      WithoutAbsent(a, lba);
      WithoutPrefix(a, Recent(h), lba);
    }
  }

  function Min(a: nat, b: nat): nat {
    if a <= b then a else b
  }

  lemma WithoutLength<T>(s: seq<T>, x: T)
    requires Distinct(s)
    ensures |Without(s, x)| == |s| - if x in s then 1 else 0
  {
    if x in s {
      var k :| 0 <= k < |s| && s[k] == x;
      WithoutAt(s, k);
    } else {
      WithoutAbsent(s, x);
    }
  }

  lemma RecentMore(h: seq<Lba>, lba: Lba)
    ensures Recent(h + [lba]) == [lba] + Without(Recent(h), lba)
  {
    assert (h + [lba])[..|h|] == h;
  }

  lemma AccessCount(r: seq<Lba>, n: nat, h: seq<Lba>, lba: Lba)
    requires n >= 1 && r <= Recent(h) && |r| == Min(n, |Recent(h)|)
    ensures |AccessLbas(r, n, lba)| == Min(n, |Recent(h + [lba])|)
  {
    RecentElems(h);
    RecentMore(h, lba);
    hide Without, Recent;
    var all := Recent(h);
    assert Distinct(r);
    WithoutLength(all, lba);
    WithoutLength(r, lba);
    if lba in r {
      var k :| 0 <= k < |r| && r[k] == lba;
      assert all[k] == lba;
    }
  }

  ghost predicate AllReadsSucceed(c: Cache, ops: seq<Op>)
    requires c.slots != []
  {
    forall k :: 0 <= k < |ops| && ops[k].ReadOp? ==> Read(Run(c, ops[..k]), ops[k].lba, ops[k].faults).1.Some?
  }

  lemma PrefixSucceeds(c: Cache, ops: seq<Op>)
    requires c.slots != [] && ops != [] && AllReadsSucceed(c, ops)
    ensures AllReadsSucceed(c, ops[..|ops| - 1])
  {
    var pre := ops[..|ops| - 1];
    forall k | 0 <= k < |pre| && pre[k].ReadOp?
      ensures Read(Run(c, pre[..k]), pre[k].lba, pre[k].faults).1.Some?
    {
      assert pre[..k] == ops[..k] && pre[k] == ops[k];
    }
  }

  lemma LastReadSucceeds(c: Cache, ops: seq<Op>)
    requires c.slots != [] && ops != [] && AllReadsSucceed(c, ops) && ops[|ops| - 1].ReadOp?
    ensures Read(Run(c, ops[..|ops| - 1]), ops[|ops| - 1].lba, ops[|ops| - 1].faults).1.Some?
  {
  }

  ghost predicate KeepsRecent(r: seq<Lba>, h: seq<Lba>, n: nat, full: bool) {
    r <= Recent(h) && (full ==> |r| == Min(n, |Recent(h)|))
  }

  lemma AccessKeepsRecent(r: seq<Lba>, n: nat, h: seq<Lba>, lba: Lba, full: bool)
    requires n >= 1 && KeepsRecent(r, h, n, full)
    ensures KeepsRecent(AccessLbas(r, n, lba), h + [lba], n, full)
  {
    AccessPrefix(r, n, h, lba);
    if full { AccessCount(r, n, h, lba); }
  }

  lemma LruStep(c: Cache, ops: seq<Op>, full: bool)
    requires ops != [] && c.slots != [] && Consistent(Run(c, ops[..|ops| - 1]))
    requires full ==> AllReadsSucceed(c, ops)
    requires KeepsRecent(Lbas(Run(c, ops[..|ops| - 1]).slots), History(c, ops[..|ops| - 1]), |c.slots|, full)
    ensures KeepsRecent(Lbas(Run(c, ops).slots), History(c, ops), |c.slots|, full)
  {
    var pre, op := ops[..|ops| - 1], ops[|ops| - 1];
    var m, h := Run(c, pre), History(c, pre);
    match op {
      case ReadOp(lba, f) =>
        ReadLbas(m, lba, f);
        if Read(m, lba, f).1.Some? {
          AccessKeepsRecent(Lbas(m.slots), |c.slots|, h, lba, full);
        } else {
          if full { LastReadSucceeds(c, ops); }
          assert History(c, ops) == h;
        }
      case WriteOp(lba, data, f) =>
        WriteLbas(m, lba, data, f);
        AccessKeepsRecent(Lbas(m.slots), |c.slots|, h, lba, full);
      case SyncOp(f) =>
        SyncLbas(m, f);
        assert History(c, ops) == h;
    }
  }

  /** Over any run from an empty cache, with any disk faults, the cached sectors in list order are the
      most recently used ones, most recent first; and when no disk read failed, as many as fit. */
  lemma {:induction false} LruTheorem(n: nat, disk: Disk, ops: seq<Op>)
    requires n >= 1
    ensures var c := Initial(n, disk);
            && Lbas(Run(c, ops).slots) <= Recent(History(c, ops))
            && (AllReadsSucceed(c, ops) ==>
                  |Lbas(Run(c, ops).slots)| == Min(n, |Recent(History(c, ops))|))
  {
    var c := Initial(n, disk);
    if ops == [] {
      LbasAre(c.slots, []);
    } else {
      var pre := ops[..|ops| - 1];
      LruTheorem(n, disk, pre);
      InitialValid(n, disk);
      RunValid(c, pre);
      LruStep(c, ops, false);
      if AllReadsSucceed(c, ops) {
        PrefixSucceeds(c, ops);
        LruStep(c, ops, true);
      }
    }
  }

  // ---- when a read hits ----------------------------------------------------------------------

  ghost predicate LastUse(h: seq<Lba>, i: nat, x: Lba) {
    i < |h| && h[i] == x && x !in h[i + 1..]
  }

  /** Using `y` next keeps the rank of a sector it ranked above. */
  lemma RankStepAbove(r: seq<Lba>, j: nat, y: Lba)
    requires Distinct(r) && j < |r| && y in r[..j]
    ensures var r1 := [y] + Without(r, y);
            j < |r1| && r1[j] == r[j] && Elems(r1[..j]) == Elems(r[..j])
  {
    var a := r[..j];
    var q :| 0 <= q < |a| && a[q] == y;
    WithoutAt(r, q);
    MovedAhead(r, j, q);
    hide Without;
    SameElems(a, q);
  }

  lemma MovedAhead(r: seq<Lba>, j: nat, q: nat)
    requires q < j < |r|
    ensures var r1 := [r[q]] + (r[..q] + r[q + 1..]);
            j < |r1| && r1[j] == r[j] && r1[..j] == [r[q]] + (r[..j][..q] + r[..j][q + 1..])
  {
  }

  lemma SameElems(a: seq<Lba>, q: nat)
    requires q < |a|
    ensures Elems([a[q]] + (a[..q] + a[q + 1..])) == Elems(a)
  {
    var b := [a[q]] + (a[..q] + a[q + 1..]);
    assert a == a[..q] + [a[q]] + a[q + 1..];
    forall x ensures x in b <==> x in a {
      assert x in a <==> x in a[..q] || x == a[q] || x in a[q + 1..];
    }
  }

  /** Using `y` next moves the sectors that ranked above it down by one. */
  lemma RankStepBelow(r: seq<Lba>, j: nat, y: Lba)
    requires Distinct(r) && j < |r| && y != r[j] && y !in r[..j]
    ensures var r1 := [y] + Without(r, y);
            j + 1 < |r1| && r1[j + 1] == r[j] && r1[..j + 1] == [y] + r[..j]
  {
    if y in r {
      var q :| 0 <= q < |r| && r[q] == y;
      assert forall i :: 0 <= i < j ==> r[i] in r[..j];
      WithoutAt(r, q);
    } else {
      WithoutAbsent(r, y);
    }
  }

  lemma RankStep(r: seq<Lba>, j: nat, y: Lba)
    requires Distinct(r) && j < |r| && y != r[j]
    ensures var r1 := [y] + Without(r, y);
            var j1 := |Elems(r[..j]) + {y}|;
            j1 < |r1| && r1[j1] == r[j] && Elems(r1[..j1]) == Elems(r[..j]) + {y}
  {
    var a := r[..j];
    DistinctCard(a);
    if y in a {
      RankStepAbove(r, j, y);
      assert Elems(a) + {y} == Elems(a);
    } else {
      RankStepBelow(r, j, y);
      assert |Elems(a) + {y}| == j + 1;
      assert Elems([y] + a) == Elems(a) + {y};
    }
  }

  /** The recency rank of a sector is the number of distinct sectors used since its last use. */
  lemma {:induction false} RankIsDistinctSince(h: seq<Lba>, i: nat, x: Lba)
    requires LastUse(h, i, x)
    ensures var j := |Elems(h[i + 1..])|;
            j < |Recent(h)| && Recent(h)[j] == x && Elems(Recent(h)[..j]) == Elems(h[i + 1..])
  {
    var h', y := h[..|h| - 1], h[|h| - 1];
    if i == |h| - 1 {
      assert Elems(h[i + 1..]) == {};
    } else {
      assert h[i + 1..] == h'[i + 1..] + [y];
      RankIsDistinctSince(h', i, x);
      RecentElems(h');
      RankStep(Recent(h'), |Elems(h'[i + 1..])|, y);
      assert Elems(h[i + 1..]) == Elems(h'[i + 1..]) + {y};
    }
  }

  lemma LastUseExists(h: seq<Lba>, x: Lba) returns (i: nat)
    requires x in h
    ensures LastUse(h, i, x)
  {
    i := |h| - 1;
    while h[i] != x
      decreases i
      invariant i < |h| && x !in h[i + 1..] && x in h[..i + 1]
    {
      assert h[i..] == [h[i]] + h[i + 1..];
      i := i - 1;
    }
  }

  /** After any run in which no disk read failed, a sector is cached exactly when it was used before
      and fewer than `n` other sectors were used since. */
  lemma HitIff(n: nat, disk: Disk, ops: seq<Op>, x: Lba)
    requires n >= 1 && AllReadsSucceed(Initial(n, disk), ops)
    ensures var h := History(Initial(n, disk), ops);
            Cached(Run(Initial(n, disk), ops), x) <==> exists i :: LastUse(h, i, x) && |Elems(h[i + 1..])| < n
  {
    var c := Initial(n, disk);
    var h, m := History(c, ops), Run(c, ops);
    LruTheorem(n, disk, ops);
    InitialValid(n, disk);
    RunValid(c, ops);
    LbasCached(m, x);
    RecentElems(h);
    var r := Lbas(m.slots);
    if Cached(m, x) {
      var k := Position(m.slots, x);
      assert Recent(h)[k] == x;
      assert x in Elems(Recent(h));
      var i := LastUseExists(h, x);
      RankIsDistinctSince(h, i, x);
      assert k == |Elems(h[i + 1..])|;
    }
    if i :| LastUse(h, i, x) && |Elems(h[i + 1..])| < n {
      RankIsDistinctSince(h, i, x);
      assert r[|Elems(h[i + 1..])|] == x;
    }
  }

  // ---- transparency over runs ----------------------------------------------------------------

  /** What a plain memory holds at `l` after the writes of a run. */
  function Memory(disk: Disk, ops: seq<Op>, l: Lba): Sector {
    if ops == [] then At(disk, l)
    else
      var op := ops[|ops| - 1];
      if op.WriteOp? && op.lba == l then op.data else Memory(disk, ops[..|ops| - 1], l)
  }

  /** No call of the run evicts a dirty sector whose writeback fails. */
  ghost predicate NoSectorLost(c: Cache, ops: seq<Op>)
    requires c.slots != []
  {
    forall k :: 0 <= k < |ops| && !ops[k].SyncOp? ==> !LosesSector(Run(c, ops[..k]), ops[k].lba, ops[k].faults)
  }

  lemma PrefixLosesNothing(c: Cache, ops: seq<Op>, k: nat)
    requires c.slots != [] && k <= |ops| && NoSectorLost(c, ops)
    ensures NoSectorLost(c, ops[..k])
  {
    var pre := ops[..k];
    forall j | 0 <= j < |pre| && !pre[j].SyncOp?
      ensures !LosesSector(Run(c, pre[..j]), pre[j].lba, pre[j].faults)
    {
      assert pre[..j] == ops[..j] && pre[j] == ops[j];
    }
  }

  /** The cache is a plain memory: after any run that loses no sector, every view is the last write. */
  lemma {:induction false} ViewIsMemory(n: nat, disk: Disk, ops: seq<Op>, l: Lba)
    requires n >= 1 && NoSectorLost(Initial(n, disk), ops)
    ensures View(Run(Initial(n, disk), ops), l) == Memory(disk, ops, l)
  {
    var c := Initial(n, disk);
    InitialValid(n, disk);
    if ops != [] {
      var k := |ops| - 1;
      PrefixLosesNothing(c, ops, k);
      ViewIsMemory(n, disk, ops[..k], l);
      RunValid(c, ops[..k]);
      var m := Run(c, ops[..k]);
      match ops[k] {
        case ReadOp(lba, f) => ReadView(m, lba, f, l);
        case WriteOp(lba, data, f) => WriteView(m, lba, data, f, l);
        case SyncOp(f) => SyncView(m, f, l);
      }
    }
  }

  /** Every successful read of a run that loses no sector returns the last write to its sector. */
  lemma ReadReturnsLastWrite(n: nat, disk: Disk, ops: seq<Op>, k: nat)
    requires n >= 1 && NoSectorLost(Initial(n, disk), ops)
    requires k < |ops| && ops[k].ReadOp?
    ensures var reply := Read(Run(Initial(n, disk), ops[..k]), ops[k].lba, ops[k].faults).1;
            reply.Some? ==> reply.value == Memory(disk, ops[..k], ops[k].lba)
  {
    var c := Initial(n, disk);
    InitialValid(n, disk);
    PrefixLosesNothing(c, ops, k);
    ViewIsMemory(n, disk, ops[..k], ops[k].lba);
    RunValid(c, ops[..k]);
    ReadReturnsView(Run(c, ops[..k]), ops[k].lba, ops[k].faults);
  }

  /** A sync none of whose writes fail puts the last write to every sector on the disk. */
  lemma SyncedDiskIsMemory(n: nat, disk: Disk, ops: seq<Op>, f: Faults, l: Lba)
    requires n >= 1 && NoSectorLost(Initial(n, disk), ops)
    requires DirtyLbas(Run(Initial(n, disk), ops).slots) !! f.badWrites
    ensures At(Run(Initial(n, disk), ops + [SyncOp(f)]).disk, l) == Memory(disk, ops, l)
  {
    var c := Initial(n, disk);
    InitialValid(n, disk);
    RunValid(c, ops);
    ViewIsMemory(n, disk, ops, l);
    var m, all := Run(c, ops), ops + [SyncOp(f)];
    assert all[..|all| - 1] == ops;
    assert Run(c, all) == Sync(m, f).0;
    SyncIsDurable(m, f);
  }

  // ---- counters ------------------------------------------------------------------------------

  function Writes(ops: seq<Op>): nat {
    if ops == [] then 0 else Writes(ops[..|ops| - 1]) + if ops[|ops| - 1].WriteOp? then 1 else 0
  }

  /** The reads of sectors that were cached, and those of other sectors that the disk delivered. */
  function HitReads(c: Cache, ops: seq<Op>): nat
    requires c.slots != []
  {
    if ops == [] then 0 else
      var pre, op := ops[..|ops| - 1], ops[|ops| - 1];
      HitReads(c, pre) + if op.ReadOp? && Cached(Run(c, pre), op.lba) then 1 else 0
  }

  function MissReads(c: Cache, ops: seq<Op>): nat
    requires c.slots != []
  {
    if ops == [] then 0 else
      var pre, op := ops[..|ops| - 1], ops[|ops| - 1];
      MissReads(c, pre) +
      if op.ReadOp? && !Cached(Run(c, pre), op.lba) && op.lba !in op.faults.badReads then 1 else 0
  }

  /** The call overwrites a write that is still waiting for the disk. */
  predicate Absorbs(c: Cache, op: Op) {
    op.WriteOp? && op.lba in DirtyLbas(c.slots)
  }

  /** The call evicts a dirty sector that the disk does not take. */
  predicate Drops(c: Cache, op: Op)
    requires c.slots != []
  {
    var last := c.slots[|c.slots| - 1];
    !op.SyncOp? && !Cached(c, op.lba) && IsDirty(last) && last.lba in op.faults.badWrites
  }

  function Absorbed(c: Cache, ops: seq<Op>): nat
    requires c.slots != []
  {
    if ops == [] then 0 else
      var pre := ops[..|ops| - 1];
      Absorbed(c, pre) + if Absorbs(Run(c, pre), ops[|ops| - 1]) then 1 else 0
  }

  function Dropped(c: Cache, ops: seq<Op>): nat
    requires c.slots != []
  {
    if ops == [] then 0 else
      var pre := ops[..|ops| - 1];
      Dropped(c, pre) + if Drops(Run(c, pre), ops[|ops| - 1]) then 1 else 0
  }

  /** The writes that are on the disk or still to come. */
  function Kept(c: Cache): nat {
    c.stats.diskWrites + |DirtyLbas(c.slots)|
  }

  /** What one call does to them. */
  ghost predicate Accounted(c: Cache, d: Cache, op: Op)
    requires c.slots != []
  {
    Kept(d) + (if Drops(c, op) then 1 else 0) + (if Absorbs(c, op) then 1 else 0) ==
    Kept(c) + if op.WriteOp? then 1 else 0
  }

  lemma EvictAccount(c: Cache, f: Faults)
    requires c.slots != [] && UniqueLbas(c.slots)
    ensures var last := c.slots[|c.slots| - 1];
            Kept(Evict(c, f)) + (if IsDirty(last) && last.lba in f.badWrites then 1 else 0) == Kept(c)
  {
    var last := c.slots[|c.slots| - 1];
    EvictDirty(c, f);
    if IsDirty(last) { assert last in c.slots && last.lba in DirtyLbas(c.slots); }
    hide DirtyLbas;
  }

  lemma DirtyIsCached(c: Cache, lba: Lba)
    requires lba in DirtyLbas(c.slots)
    ensures Cached(c, lba)
  {
    var s :| s in c.slots && IsDirty(s) && s.lba == lba;
    var p :| 0 <= p < |c.slots| && c.slots[p] == s;
    HolderIsCached(c, lba, p);
  }

  lemma ReadAccount(c: Cache, lba: Lba, f: Faults)
    requires Valid(c)
    ensures Accounted(c, Read(c, lba, f).0, ReadOp(lba, f))
  {
    var p := Position(c.slots, lba);
    if p < |c.slots| {
      ToFrontDirty(c.slots, p);
    } else {
      EvictAccount(c, f);
      EvictLeavesRoom(c, f);
      if lba !in f.badReads {
        InsertDirty(Evict(c, f), Full(lba, At(Evict(c, f).disk, lba), false));
      }
    }
    hide DirtyLbas, Evict;
  }

  lemma EvictLeavesRoom(c: Cache, f: Faults)
    requires c.slots != []
    ensures var e := Evict(c, f); e.slots != [] && e.slots[|e.slots| - 1].Empty?
  {
  }

  lemma WriteHitAccount(c: Cache, lba: Lba, data: Sector, f: Faults)
    requires Valid(c) && Cached(c, lba)
    ensures Accounted(c, Write(c, lba, data, f), WriteOp(lba, data, f))
  {
    var c1 := c.(stats := c.stats.(logicalWrites := c.stats.logicalWrites + 1));
    WriteHitValid(c1, Position(c.slots, lba), data);
    var dirty := DirtyLbas(c.slots);
    hide DirtyLbas, Valid, Evict, Insert, ToFront;
    if lba in dirty { assert dirty + {lba} == dirty; } else { assert |dirty + {lba}| == |dirty| + 1; }
  }

  lemma InsertKept(e: Cache, s: Slot)
    requires e.slots != [] && e.slots[|e.slots| - 1].Empty? && s.Full? && s.dirty && s.lba !in DirtyLbas(e.slots)
    ensures Kept(Insert(e, s)) == Kept(e) + 1
  {
    InsertDirty(e, s);
    hide DirtyLbas, ToFront;
  }

  lemma WriteMissIs(c: Cache, lba: Lba, data: Sector, f: Faults)
    requires c.slots != [] && !Cached(c, lba)
    ensures var c1 := c.(stats := c.stats.(logicalWrites := c.stats.logicalWrites + 1));
            Write(c, lba, data, f) == Insert(Evict(c1, f), Full(lba, data, true)) && Kept(c1) == Kept(c)
  {
    hide Evict, Insert, DirtyLbas;
  }

  lemma WriteMissAccount(c: Cache, lba: Lba, data: Sector, f: Faults)
    requires Valid(c) && !Cached(c, lba)
    ensures Accounted(c, Write(c, lba, data, f), WriteOp(lba, data, f))
  {
    var c1 := c.(stats := c.stats.(logicalWrites := c.stats.logicalWrites + 1));
    if lba in DirtyLbas(c.slots) { DirtyIsCached(c, lba); }
    WriteMissIs(c, lba, data, f);
    EvictAccount(c1, f);
    EvictDirty(c1, f);
    EvictLeavesRoom(c1, f);
    hide DirtyLbas, Evict, Insert, Kept, Write, Cached, UniqueLbas, EmptiesLast, CleanMatchesDisk;
    InsertKept(Evict(c1, f), Full(lba, data, true));
  }

  lemma WriteAccount(c: Cache, lba: Lba, data: Sector, f: Faults)
    requires Valid(c)
    ensures Accounted(c, Write(c, lba, data, f), WriteOp(lba, data, f))
  {
    if Cached(c, lba) { WriteHitAccount(c, lba, data, f); } else { WriteMissAccount(c, lba, data, f); }
    hide *;
  }

  lemma SyncAccount(c: Cache, f: Faults)
    requires Valid(c)
    ensures Accounted(c, Sync(c, f).0, SyncOp(f))
  {
    CleanDirty(c.slots, f);
    var dirty := DirtyLbas(c.slots);
    assert dirty == (dirty - f.badWrites) + dirty * f.badWrites;
    assert |dirty| == |dirty - f.badWrites| + |dirty * f.badWrites|;
  }

  lemma StepAccount(c: Cache, op: Op)
    requires Valid(c)
    ensures Accounted(c, Step(c, op), op)
  {
    match op {
      case ReadOp(lba, f) => ReadAccount(c, lba, f);
      case WriteOp(lba, data, f) => WriteAccount(c, lba, data, f);
      case SyncOp(f) => SyncAccount(c, f);
    }
  }

  /** Which of the two read counters moves. */
  lemma StepReads(c: Cache, op: Op)
    requires c.slots != []
    ensures var s, r := c.stats, Step(c, op).stats;
            && r.hits == s.hits + (if op.ReadOp? && Cached(c, op.lba) then 1 else 0)
            && r.misses ==
               s.misses + (if op.ReadOp? && !Cached(c, op.lba) && op.lba !in op.faults.badReads then 1 else 0)
            && r.logicalWrites == s.logicalWrites + if op.WriteOp? then 1 else 0
  {
  }

  /** The four counters after any run, each by what it counts; and no write goes missing unnoticed: every one is
      on the disk, or still in the cache, or was overwritten there, or was dropped by an eviction. */
  lemma {:induction false} CountersTieUp(n: nat, disk: Disk, ops: seq<Op>)
    requires n >= 1
    ensures var c := Initial(n, disk);
            var s := Run(c, ops).stats;
            && s.hits == HitReads(c, ops) && s.misses == MissReads(c, ops) && s.logicalWrites == Writes(ops)
            && Writes(ops) == s.diskWrites + |DirtyLbas(Run(c, ops).slots)| + Absorbed(c, ops) + Dropped(c, ops)
  {
    var c := Initial(n, disk);
    InitialValid(n, disk);
    if ops == [] {
      assert DirtyLbas(c.slots) == {};
    } else {
      var pre := ops[..|ops| - 1];
      CountersTieUp(n, disk, pre);
      RunValid(c, pre);
      StepAccount(Run(c, pre), ops[|ops| - 1]);
      StepReads(Run(c, pre), ops[|ops| - 1]);
      hide Step, Valid, DirtyLbas, Drops, Absorbs, Cached;
    }
  }

  // ---- a sector the disk does not take -------------------------------------------------------

  const NO_FAULTS := Faults({}, {})

  lemma RunOne(c: Cache, op: Op)
    requires c.slots != []
    ensures Run(c, [op]) == Step(c, op)
  {
    assert [op][..0] == [];
    assert Run(c, []) == c;
    hide Step;
  }

  lemma FirstWrite(disk: Disk, data: Sector)
    ensures var c := Write(Initial(1, disk), 0, data, NO_FAULTS); c.slots == [Full(0, data, true)] && c.disk == disk
  {
  }

  /** One slot, a write to sector 0, and a call for sector 1 while sector 0 cannot be written: the call
      succeeds, the write is lost, and a later read returns the old sector. */
  lemma FailedWritebackLosesWrite(disk: Disk, data: Sector, other: Sector)
    requires data != At(disk, 0)
    ensures var f := Faults({}, {0});
            var c := Run(Initial(1, disk), [WriteOp(0, data, NO_FAULTS)]);
            && Valid(c) && View(c, 0) == data && LosesSector(c, 1, f)
            && Read(c, 1, f).1.Some?
            && Read(Read(c, 1, f).0, 0, NO_FAULTS).1 == Some(At(disk, 0))
            && Read(Write(c, 1, other, f), 0, NO_FAULTS).1 == Some(At(disk, 0))
  {
    var f := Faults({}, {0});
    var ops := [WriteOp(0, data, NO_FAULTS)];
    InitialValid(1, disk);
    RunValid(Initial(1, disk), ops);
    var c := Run(Initial(1, disk), ops);
    RunOne(Initial(1, disk), ops[0]);
    FirstWrite(disk, data);
    hide Run, Valid, Read, Write;
    ReadView(c, 1, f, 0);
    WriteView(c, 1, other, f, 0);
    ReadReturnsView(c, 1, f);
    ReadValid(c, 1, f);
    WriteValid(c, 1, other, f);
    ReadReturnsView(Read(c, 1, f).0, 0, NO_FAULTS);
    ReadReturnsView(Write(c, 1, other, f), 0, NO_FAULTS);
  }

  // ---- why the big kernel lock is held around a sync -------------------------------------------

  /** The locked half of flushing slot `p`: the dirty bit is claimed before the disk is written. */
  function Claim(c: Cache, p: nat): Cache
    requires p < |c.slots| && IsDirty(c.slots[p])
  {
    c.(slots := c.slots[p := c.slots[p].(dirty := false)])
  }

  /** The sync of one slot leaves the sector off the disk between its two halves: a read in between that
      evicts the slot, and the slot's own read after it, see the old sector. With the lock held, no call
      runs there. */
  lemma ReadsInsideSyncSeeStaleData(before: Sector, after: Sector)
    requires before != after
    ensures var c := Cache([Full(0, after, true)], map[0 := before], Counters(0, 0, 1, 0));
            && Valid(c)
            && View(c, 0) == after
            && Read(Read(Claim(c, 0), 1, NO_FAULTS).0, 0, NO_FAULTS).1 == Some(before)
  {
    var c := Cache([Full(0, after, true)], map[0 := before], Counters(0, 0, 1, 0));
    assert DirtyLbas(c.slots) == {0};
    var c1 := Claim(c, 0);
    assert c1.slots == [Full(0, after, false)];
    var c2 := Read(c1, 1, NO_FAULTS).0;
    assert c2.slots == [Full(1, BlankSector(), false)];
  }
}
