/** The slot array of the block cache and the recency list threaded through it (kernel/bcache.c).
    A pointer into the array is an index; NULL is -1. */
module SlotTable {
  import opened Bytes
  import opened CacheModel
  import opened CacheTheorems

  const NULL := -1

  datatype Entry = Entry(valid: bool, dirty: bool, lba: Lba, data: Sector, prev: int, next: int) {
    /** The entry's meaning: its data, LBA and dirty bit only count while it is valid. */
    function AsSlot(): Slot {
      if valid then Full(lba, data, dirty) else Empty
    }
  }

  /** The list from head to tail, and where each array index stands in it. */
  datatype Listing = Listing(order: seq<nat>, rank: seq<nat>)

  ghost predicate VisitsAt(l: Listing, n: nat, i: nat)
    requires |l.order| == |l.rank| == n && i < n
  {
    && l.rank[i] < n && l.order[l.rank[i]] == i
    && l.order[i] < n && l.rank[l.order[i]] == i
  }

  /** The list visits every index below `n` exactly once. */
  ghost predicate Visits(l: Listing, n: nat) {
    && |l.order| == |l.rank| == n
    && (forall p :: 0 <= p < n ==> l.order[p] < n)
    && (forall i :: 0 <= i < n ==> l.rank[i] < n)
    && (forall i :: 0 <= i < n ==> VisitsAt(l, n, i))
  }

  /** `prev` and `next` of `i` are its neighbours in the list. */
  ghost predicate LinkedAt(t: seq<Entry>, l: Listing, i: nat)
    requires |t| == |l.order| == |l.rank| && i < |t|
  {
    && l.rank[i] < |t| && l.order[l.rank[i]] == i
    && t[i].prev == (if l.rank[i] == 0 then NULL else l.order[l.rank[i] - 1])
    && t[i].next == (if l.rank[i] == |t| - 1 then NULL else l.order[l.rank[i] + 1])
  }

  /** `next` from the head and `prev` from the tail are mirror images that visit every slot once. */
  ghost predicate Linked(t: seq<Entry>, head: int, tail: int, l: Listing) {
    && |t| >= 1
    && Visits(l, |t|)
    && head == l.order[0]
    && tail == l.order[|t| - 1]
    && forall i :: 0 <= i < |t| ==> LinkedAt(t, l, i)
  }

  /** What the list means, slot by slot from the head. */
  function SlotsOf(t: seq<Entry>, l: Listing): (s: seq<Slot>)
    requires Visits(l, |t|)
    ensures |s| == |l.order|
    ensures forall p {:trigger s[p]} :: 0 <= p < |s| ==> s[p] == t[l.order[p]].AsSlot()
  {
    seq(|l.order|, p requires 0 <= p < |l.order| => t[l.order[p]].AsSlot())
  }

  function Moved(l: Listing, k: nat): Listing
    requires k < |l.order|
  {
    Listing(
      ToFront(l.order, k),
      seq(|l.rank|, i requires 0 <= i < |l.rank| =>
        if l.rank[i] == k then 0 else if l.rank[i] < k then l.rank[i] + 1 else l.rank[i]))
  }

  lemma MovedVisits(l: Listing, n: nat, k: nat)
    requires Visits(l, n) && k < n
    ensures Visits(Moved(l, k), n)
  {
    var m := Moved(l, k);
    forall i | 0 <= i < n ensures m.order[i] < n && m.rank[i] < n && VisitsAt(m, n, i) {
      var p := if i == 0 then k else if i <= k then i - 1 else i;
      assert VisitsAt(l, n, i) && VisitsAt(l, n, p) && VisitsAt(l, n, l.order[p]);
      assert m.order[i] == l.order[p];
    }
  }

  lemma SlotsMoved(t: seq<Entry>, l: Listing, k: nat)
    requires Visits(l, |t|) && k < |t|
    ensures Visits(Moved(l, k), |t|)
    ensures SlotsOf(t, Moved(l, k)) == ToFront(SlotsOf(t, l), k)
  {
    MovedVisits(l, |t|, k);
  }

  // ---- touch, on values --------------------------------------------------------------------

  function SetPrev(t: seq<Entry>, i: int, v: int): (r: seq<Entry>)
    requires i != NULL ==> 0 <= i < |t|
    ensures |r| == |t|
    ensures forall j {:trigger r[j]} :: 0 <= j < |t| ==> r[j] == if j == i then t[j].(prev := v) else t[j]
  {
    if i == NULL then t else t[i := t[i].(prev := v)]
  }

  function SetNext(t: seq<Entry>, i: int, v: int): (r: seq<Entry>)
    requires i != NULL ==> 0 <= i < |t|
    ensures |r| == |t|
    ensures forall j {:trigger r[j]} :: 0 <= j < |t| ==> r[j] == if j == i then t[j].(next := v) else t[j]
  {
    if i == NULL then t else t[i := t[i].(next := v)]
  }

  /** The table after `e`, which is not the head, was unlinked and spliced in at the head. */
  ghost function Spliced(t: seq<Entry>, head: int, e: nat): (r: seq<Entry>)
    requires e < |t| && 0 <= head < |t|
    requires -1 <= t[e].prev < |t| && -1 <= t[e].next < |t|
    ensures |r| == |t|
  {
    var t1 := SetPrev(SetNext(t, t[e].prev, t[e].next), t[e].next, t[e].prev);
    SetPrev(SetNext(SetPrev(t1, e, NULL), e, head), head, e)
  }

  /** Equal ranks mean equal entries. */
  lemma RankIs(l: Listing, n: nat, i: nat, p: nat)
    requires Visits(l, n) && i < n && p < n
    ensures l.order[p] < n && (l.order[p] == i <==> l.rank[i] == p)
  {
    assert VisitsAt(l, n, p) && VisitsAt(l, n, i);
  }

  /** The table after `e`, which is not the head, was unlinked and spliced in at the head. */
  lemma SplicedAt(t: seq<Entry>, head: nat, e: nat, i: nat)
    requires e < |t| && head < |t| && e != head && i < |t|
    requires -1 <= t[e].prev < |t| && -1 <= t[e].next < |t| && t[e].prev != e && t[e].next != e
    requires t[e].prev != t[e].next && t[e].next != head
    ensures var r := Spliced(t, head, e);
            && r[i].prev == (if i == e then NULL else if i == head then e
                             else if i == t[e].next then t[e].prev else t[i].prev)
            && r[i].next == (if i == e then head else if i == t[e].prev then t[e].next else t[i].next)
            && r[i].AsSlot() == t[i].AsSlot()
  {
  }

  lemma MovedAt(l: Listing, k: nat, i: nat)
    requires k < |l.order| && i < |l.rank|
    ensures var m := Moved(l, k);
            |m.order| == |l.order| && |m.rank| == |l.rank| &&
            m.rank[i] == if l.rank[i] == k then 0 else if l.rank[i] < k then l.rank[i] + 1 else l.rank[i]
  {
  }

  /** Who precedes and follows `i` once the entry of rank `k` moved to the front. */
  ghost predicate NeighboursMoved(l: Listing, n: nat, k: nat, i: nat)
    requires |l.order| == |l.rank| == n && 1 <= k < n && i < n && l.rank[i] < n
  {
    var m, r := Moved(l, k), l.rank[i];
    && |m.order| == |m.rank| == n && m.rank[i] < n
    && (if m.rank[i] == 0 then r == k
        else m.order[m.rank[i] - 1] ==
             if r == 0 then l.order[k] else if r == k + 1 then l.order[k - 1] else l.order[r - 1])
    && (if m.rank[i] == n - 1 then (r == n - 1 && k != n - 1) || (r == n - 2 && k == n - 1)
        else m.order[m.rank[i] + 1] ==
             if r == k then l.order[0] else if r + 1 == k then l.order[k + 1] else l.order[r + 1])
  }

  lemma MovedNeighbours(l: Listing, n: nat, k: nat, i: nat)
    requires |l.order| == |l.rank| == n && 1 <= k < n && i < n && l.rank[i] < n
    requires n >= 2
    ensures NeighboursMoved(l, n, k, i)
  {
    MovedAt(l, k, i);
  }

  ghost predicate SplicedLinks(t: seq<Entry>, head: int, l: Listing, e: nat, i: nat)
    requires e < |t| == |l.order| == |l.rank| && LinkedAt(t, l, e) && i < |t| && 0 <= head < |t|
    requires -1 <= t[e].prev < |t| && -1 <= t[e].next < |t|
  {
    var r, m := Spliced(t, head, e), Moved(l, l.rank[e]);
    && |m.order| == |m.rank| == |t| && m.rank[i] < |t|
    && r[i].prev == (if m.rank[i] == 0 then NULL else m.order[m.rank[i] - 1])
    && r[i].next == (if m.rank[i] == |t| - 1 then NULL else m.order[m.rank[i] + 1])
  }

  lemma SplicedLinksAt(t: seq<Entry>, head: nat, l: Listing, e: nat, i: nat)
    requires e < |t| == |l.order| == |l.rank| && i < |t| && LinkedAt(t, l, i) && LinkedAt(t, l, e) &&
             1 <= l.rank[e] && head < |t| && l.order[0] == head
    requires NeighboursMoved(l, |t|, l.rank[e], i)
    requires -1 <= t[e].prev < |t| && -1 <= t[e].next < |t|
    requires i == e <==> l.rank[i] == l.rank[e]
    requires i == head <==> l.rank[i] == 0
    requires i == t[e].prev <==> l.rank[i] == l.rank[e] - 1
    requires i == t[e].next <==> l.rank[i] == l.rank[e] + 1
    requires var r := Spliced(t, head, e);
             && r[i].prev == (if i == e then NULL else if i == head then e
                              else if i == t[e].next then t[e].prev else t[i].prev)
             && r[i].next == (if i == e then head else if i == t[e].prev then t[e].next else t[i].next)
    ensures SplicedLinks(t, head, l, e, i)
  {
    MovedAt(l, l.rank[e], i);
    hide Spliced, Moved;
  }

  /** The neighbours of an entry that is not the head. */
  lemma Edges(t: seq<Entry>, head: int, tail: int, l: Listing, e: nat)
    requires Linked(t, head, tail, l) && e < |t| && e != head
    ensures LinkedAt(t, l, e) && 0 <= head < |t| && l.order[0] == head && l.rank[e] >= 1
    ensures 0 <= t[e].prev < |t| && t[e].prev != e
    ensures -1 <= t[e].next < |t| && t[e].next != e && t[e].next != head && t[e].next != t[e].prev
  {
    var k := l.rank[e];
    assert LinkedAt(t, l, e);
    RankIs(l, |t|, e, 0);
    RankIs(l, |t|, e, k - 1);
    if k + 1 < |t| {
      var f := l.order[k + 1];
      RankIs(l, |t|, f, k + 1);
      RankIs(l, |t|, f, k - 1);
      RankIs(l, |t|, f, k);
      RankIs(l, |t|, f, 0);
    }
  }

  /** Where `i` stands relative to `e`. */
  lemma Ranks(t: seq<Entry>, head: int, tail: int, l: Listing, e: nat, i: nat)
    requires Linked(t, head, tail, l) && e < |t| && i < |t|
    ensures LinkedAt(t, l, i)
    ensures i == e <==> l.rank[i] == l.rank[e]
    ensures i == head <==> l.rank[i] == 0
    ensures l.rank[e] >= 1 ==> (i == t[e].prev <==> l.rank[i] == l.rank[e] - 1)
    ensures i == t[e].next <==> l.rank[i] == l.rank[e] + 1
  {
    var k := l.rank[e];
    assert LinkedAt(t, l, e) && LinkedAt(t, l, i);
    RankIs(l, |t|, i, 0);
    RankIs(l, |t|, i, k);
    if k >= 1 { RankIs(l, |t|, i, k - 1); }
    if k + 1 < |t| { RankIs(l, |t|, i, k + 1); }
  }

  lemma SplicedOne(t: seq<Entry>, head: int, tail: int, l: Listing, e: nat, i: nat)
    requires Linked(t, head, tail, l) && e < |t| && e != head && i < |t|
    ensures LinkedAt(t, l, e) && 0 <= head < |t| && -1 <= t[e].prev < |t| && -1 <= t[e].next < |t|
    ensures SplicedLinks(t, head, l, e, i) && Spliced(t, head, e)[i].AsSlot() == t[i].AsSlot()
  {
    Edges(t, head, tail, l, e);
    Ranks(t, head, tail, l, e, i);
    hide Spliced, Moved, LinkedAt;
    MovedNeighbours(l, |t|, l.rank[e], i);
    SplicedAt(t, head, e, i);
    hide NeighboursMoved, SplicedLinks;
    SplicedLinksAt(t, head, l, e, i);
  }

  lemma SplicedSlots(t: seq<Entry>, head: int, tail: int, l: Listing, e: nat)
    requires Linked(t, head, tail, l) && e < |t| && e != head
    ensures 0 <= head < |t| && -1 <= t[e].prev < |t| && -1 <= t[e].next < |t|
    ensures SlotsOf(Spliced(t, head, e), l) == SlotsOf(t, l)
  {
    SplicedOne(t, head, tail, l, e, e);
    var r := Spliced(t, head, e);
    forall p | 0 <= p < |t| ensures r[l.order[p]].AsSlot() == t[l.order[p]].AsSlot() {
      SplicedOne(t, head, tail, l, e, l.order[p]);
    }
  }

  lemma SplicedTail(t: seq<Entry>, head: int, tail: int, l: Listing, e: nat)
    requires Linked(t, head, tail, l) && e < |t| && e != head
    ensures var m := Moved(l, l.rank[e]);
            && Visits(m, |t|)
            && m.order[0] == e
            && m.order[|t| - 1] == if e == tail then t[e].prev else tail
  {
    MovedVisits(l, |t|, l.rank[e]);
    RankIs(l, |t|, e, |t| - 1);
    assert LinkedAt(t, l, e);
  }

  lemma SplicedLinked(t: seq<Entry>, head: int, tail: int, l: Listing, e: nat)
    requires Linked(t, head, tail, l) && e < |t| && e != head
    ensures 0 <= head < |t| && -1 <= t[e].prev < |t| && -1 <= t[e].next < |t|
    ensures Linked(Spliced(t, head, e), e, if e == tail then t[e].prev else tail, Moved(l, l.rank[e]))
  {
    SplicedOne(t, head, tail, l, e, e);
    SplicedTail(t, head, tail, l, e);
    var r, m := Spliced(t, head, e), Moved(l, l.rank[e]);
    forall i | 0 <= i < |t| ensures LinkedAt(r, m, i) {
      SplicedOne(t, head, tail, l, e, i);
      assert VisitsAt(m, |t|, i);
    }
    hide Spliced, Moved;
  }

  // ---- storing into one entry --------------------------------------------------------------

  lemma StoredLinked(t: seq<Entry>, head: int, tail: int, l: Listing, e: nat, x: Entry)
    requires Linked(t, head, tail, l) && e < |t| && x.prev == t[e].prev && x.next == t[e].next
    ensures Linked(t[e := x], head, tail, l)
  {
    var r := t[e := x];
    forall i | 0 <= i < |t| ensures LinkedAt(r, l, i) {
      assert LinkedAt(t, l, i);
    }
  }

  lemma StoredSlots(t: seq<Entry>, l: Listing, e: nat, x: Entry)
    requires Visits(l, |t|) && e < |t|
    ensures SlotsOf(t[e := x], l) == SlotsOf(t, l)[l.rank[e] := x.AsSlot()]
  {
    var s, s1 := SlotsOf(t[e := x], l), SlotsOf(t, l)[l.rank[e] := x.AsSlot()];
    forall p | 0 <= p < |t| ensures s[p] == s1[p] {
      RankIs(l, |t|, e, p);
    }
  }

  /** The slots in array order. */
  function ArraySlots(t: seq<Entry>): (a: seq<Slot>)
    ensures |a| == |t| && forall i {:trigger a[i]} :: 0 <= i < |t| ==> a[i] == t[i].AsSlot()
  {
    seq(|t|, i requires 0 <= i < |t| => t[i].AsSlot())
  }

  lemma ArrayElems(t: seq<Entry>, l: Listing)
    requires Visits(l, |t|)
    ensures Elems(ArraySlots(t)) == Elems(SlotsOf(t, l))
  {
    var a, s := ArraySlots(t), SlotsOf(t, l);
    forall x | x in a ensures x in s {
      var i :| 0 <= i < |a| && a[i] == x;
      assert VisitsAt(l, |t|, i) && s[l.rank[i]] == x;
    }
    forall x | x in s ensures x in a {
      var p :| 0 <= p < |s| && s[p] == x;
      assert a[l.order[p]] == x;
    }
  }

  lemma ArrayUnique(t: seq<Entry>, l: Listing)
    requires Visits(l, |t|) && UniqueLbas(SlotsOf(t, l))
    ensures UniqueLbas(ArraySlots(t))
  {
    var a, s := ArraySlots(t), SlotsOf(t, l);
    forall i, j | 0 <= i < j < |a| && a[i].Full? && a[j].Full? ensures a[i].lba != a[j].lba {
      assert VisitsAt(l, |t|, i) && VisitsAt(l, |t|, j);
      assert s[l.rank[i]] == a[i] && s[l.rank[j]] == a[j];
      assert l.rank[i] < l.rank[j] || l.rank[j] < l.rank[i];
    }
  }

  lemma SameDirty(a: seq<Slot>, b: seq<Slot>)
    requires Elems(a) == Elems(b)
    ensures DirtyLbas(a) == DirtyLbas(b)
  {
    forall s: Slot ensures s in a <==> s in b {
      assert s in a <==> s in Elems(a);
      assert s in b <==> s in Elems(b);
    }
  }

  // ---- the loop of a sync, on values -------------------------------------------------------

  /** The disk after the first `i` slots of an array were flushed. */
  ghost function FlushRun(a: seq<Slot>, i: nat, disk: Disk, f: Faults): Disk
    requires i <= |a|
  {
    if i == 0 then disk else WriteBack(a[i - 1], FlushRun(a, i - 1, disk, f), f).0
  }

  /** And the number of sectors written. */
  ghost function FlushCount(a: seq<Slot>, i: nat, f: Faults): nat
    requires i <= |a|
  {
    if i == 0 then 0
    else FlushCount(a, i - 1, f) + if IsDirty(a[i - 1]) && a[i - 1].lba !in f.badWrites then 1 else 0
  }

  lemma FlushedStep(a: seq<Slot>, i: nat, f: Faults)
    requires UniqueLbas(a) && i < |a|
    ensures if IsDirty(a[i]) && a[i].lba !in f.badWrites
            then a[i].lba !in Flushed(a[..i], f) && Flushed(a[..i + 1], f) == Flushed(a[..i], f) + {a[i].lba}
            else Flushed(a[..i + 1], f) == Flushed(a[..i], f)
  {
    assert a[..i + 1] == a[..i] + [a[i]];
    forall s: Slot | s in a[..i] && IsDirty(s) && IsDirty(a[i]) ensures s.lba != a[i].lba {
      var j :| 0 <= j < i && a[j] == s;
    }
    assert DirtyLbas(a[..i + 1]) == DirtyLbas(a[..i]) + (if IsDirty(a[i]) then {a[i].lba} else {});
  }

  lemma FlushedDiskStep(c: Cache, out: set<Lba>, l: Lba)
    ensures FlushedDisk(c, out + {l}) == FlushedDisk(c, out)[l := View(c, l)]
  {
  }

  /** Flushing slot `i` of `a` adds its sector, if it is dirty and the write succeeds. */
  ghost predicate TurnAdds(a: seq<Slot>, i: nat, c: Cache, f: Faults)
    requires i < |a|
  {
    var out, next, s := Flushed(a[..i], f), Flushed(a[..i + 1], f), a[i];
    if IsDirty(s) && s.lba !in f.badWrites
    then s.lba !in out && next == out + {s.lba} && View(c, s.lba) == s.data
    else next == out
  }

  lemma EveryTurnAdds(a: seq<Slot>, i: nat, c: Cache, f: Faults)
    requires UniqueLbas(a) && UniqueLbas(c.slots) && Elems(a) == Elems(c.slots) && i < |a|
    ensures TurnAdds(a, i, c, f)
  {
    FlushedStep(a, i, f);
    assert a[i] in Elems(a);
    if a[i].Full? { ViewOfMember(c, a[i]); }
  }

  lemma FlushedNothing(c: Cache)
    ensures FlushedDisk(c, {}) == c.disk
  {
  }

  lemma SectorFlushed(c: Cache, s: Slot, out: set<Lba>, next: set<Lba>, f: Faults)
    requires if IsDirty(s) && s.lba !in f.badWrites
             then s.lba !in out && next == out + {s.lba} && View(c, s.lba) == s.data
             else next == out
    ensures FlushedDisk(c, next) == WriteBack(s, FlushedDisk(c, out), f).0
    ensures |next| == |out| + if IsDirty(s) && s.lba !in f.badWrites then 1 else 0
  {
    if IsDirty(s) {
      FlushedDiskStep(c, out, s.lba);
    }
    hide FlushedDisk, View;
  }

  lemma TurnDisk(a: seq<Slot>, i: nat, c: Cache, f: Faults)
    requires i < |a| && TurnAdds(a, i, c, f)
    ensures FlushedDisk(c, Flushed(a[..i + 1], f)) == WriteBack(a[i], FlushedDisk(c, Flushed(a[..i], f)), f).0
    ensures |Flushed(a[..i + 1], f)| ==
            |Flushed(a[..i], f)| + if IsDirty(a[i]) && a[i].lba !in f.badWrites then 1 else 0
  {
    hide Flushed, FlushedDisk, View, WriteBack;
    SectorFlushed(c, a[i], Flushed(a[..i], f), Flushed(a[..i + 1], f), f);
  }

  /** Slot by slot, a sync writes each dirty sector once, so the order of the slots does not matter. */
  lemma {:induction false} FlushRunIsFlushed(a: seq<Slot>, i: nat, c: Cache, f: Faults)
    requires i <= |a| && forall j :: 0 <= j < |a| ==> TurnAdds(a, j, c, f)
    ensures FlushRun(a, i, c.disk, f) == FlushedDisk(c, Flushed(a[..i], f))
    ensures FlushCount(a, i, f) == |Flushed(a[..i], f)|
  {
    hide FlushedDisk, WriteBack, TurnAdds, IsDirty;
    if i == 0 {
      FlushedNothing(c);
      assert Flushed(a[..0], f) == {};
    } else {
      hide Flushed;
      FlushRunIsFlushed(a, i - 1, c, f);
      assert TurnAdds(a, i - 1, c, f);
      TurnDisk(a, i - 1, c, f);
    }
  }

  /** The loop of a sync, in array order, does what CacheModel.Sync does in list order. */
  lemma FlushRunIsSync(t: seq<Entry>, l: Listing, c: Cache, f: Faults)
    requires Visits(l, |t|) && c.slots == SlotsOf(t, l) && UniqueLbas(c.slots)
    ensures var a := ArraySlots(t);
            && FlushRun(a, |a|, c.disk, f) == FlushedDisk(c, Flushed(c.slots, f))
            && FlushCount(a, |a|, f) == |Flushed(c.slots, f)|
  {
    var a := ArraySlots(t);
    ArrayElems(t, l);
    ArrayUnique(t, l);
    SameDirty(a, c.slots);
    forall j | 0 <= j < |a| ensures TurnAdds(a, j, c, f) {
      EveryTurnAdds(a, j, c, f);
    }
    hide UniqueLbas;
    FlushRunIsFlushed(a, |a|, c, f);
    assert a[..|a|] == a;
  }

  /** With no failing writes, the slots flushed are the dirty ones. */
  lemma FlushCountIsDirty(t: seq<Entry>, l: Listing, c: Cache)
    requires Visits(l, |t|) && c.slots == SlotsOf(t, l) && UniqueLbas(c.slots)
    ensures FlushCount(ArraySlots(t), |t|, Faults({}, {})) == |DirtyLbas(c.slots)|
  {
    var f := Faults({}, {});
    FlushRunIsSync(t, l, c, f);
    assert Flushed(c.slots, f) == DirtyLbas(c.slots);
  }

  // ---- a flushed table ---------------------------------------------------------------------

  /** Entry `j` of `r` is entry `j` of `t`, flushed if `j < i`. */
  ghost predicate FlushedAt(r: seq<Entry>, t: seq<Entry>, j: nat, i: nat, f: Faults)
    requires j < |t| == |r|
  {
    && r[j].prev == t[j].prev && r[j].next == t[j].next
    && r[j].AsSlot() == if j < i then CleanSlot(t[j].AsSlot(), f) else t[j].AsSlot()
  }

  lemma FlushedLinked(t: seq<Entry>, r: seq<Entry>, head: int, tail: int, l: Listing, f: Faults)
    requires Linked(t, head, tail, l) && |r| == |t| && forall j :: 0 <= j < |t| ==> FlushedAt(r, t, j, |t|, f)
    ensures Linked(r, head, tail, l) && SlotsOf(r, l) == CleanSlots(SlotsOf(t, l), f)
  {
    forall i | 0 <= i < |t| ensures LinkedAt(r, l, i) {
      assert LinkedAt(t, l, i) && FlushedAt(r, t, i, |t|, f);
    }
    forall p | 0 <= p < |t| ensures SlotsOf(r, l)[p] == CleanSlots(SlotsOf(t, l), f)[p] {
      assert FlushedAt(r, t, l.order[p], |t|, f);
    }
  }
}
