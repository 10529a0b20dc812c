/** The write-back block cache (kernel/bcache.c). Each method is proved equal to its function in CacheModel. */
module BlockCache {
  import opened Bytes
  import opened CacheModel
  import opened CacheTheorems
  import opened SlotTable

  class BlockCache {
    /** g_entries. */
    const table: array<Entry>
    var head: int
    var tail: int
    var stats: Counters
    var disk: Disk
    ghost var list: Listing

    ghost predicate Shaped()
      reads this, table
    {
      Linked(table[..], head, tail, list)
    }

    ghost function Abs(): (c: Cache)
      requires Shaped()
      reads this, table
      ensures |c.slots| == table.Length
    {
      Cache(SlotsOf(table[..], list), disk, stats)
    }

    ghost predicate Good()
      reads this, table
    {
      Shaped() && Valid(Abs())
    }

    constructor (n: nat, disk: Disk)
      requires n >= 1
      ensures table.Length == n && fresh(table) && Good() && Abs() == Initial(n, disk)
    {
      table := new Entry[n](_ => Entry(false, false, 0, BlankSector(), NULL, NULL));
      head, tail, stats := NULL, NULL, Counters(0, 0, 0, 0);
      list := Listing([], []);
      this.disk := disk;
      new;
      Init();
      assert DirtyLbas(Initial(n, disk).slots) == {};
    }

    /** bcache_init: every slot empty, linked in array order. */
    method Init()
      requires table.Length >= 1
      modifies this, table
      ensures Shaped() && Abs() == Initial(table.Length, old(disk))
    {
      var n := table.Length;
      for i := 0 to n
        invariant disk == old(disk)
        invariant forall j :: 0 <= j < i ==>
          table[j].valid == false && table[j].prev == (if j > 0 then j - 1 else NULL) &&
          table[j].next == (if j < n - 1 then j + 1 else NULL)
      {
        table[i] := table[i].(valid := false, dirty := false, lba := 0,
                              prev := if i > 0 then i - 1 else NULL, next := if i < n - 1 then i + 1 else NULL);
      }
      head := 0;
      tail := n - 1;
      stats := Counters(0, 0, 0, 0);
      list := Listing(seq(n, i => i), seq(n, i => i));
      assert forall i :: 0 <= i < n ==> VisitsAt(list, n, i) && LinkedAt(table[..], list, i);
    }

    /** `if (i) i->prev = v`. */
    method PutPrev(i: int, v: int)
      requires i != NULL ==> 0 <= i < table.Length
      modifies table
      ensures table[..] == SetPrev(old(table[..]), i, v)
    {
      if i != NULL { table[i] := table[i].(prev := v); }
    }

    /** `if (i) i->next = v`. */
    method PutNext(i: int, v: int)
      requires i != NULL ==> 0 <= i < table.Length
      modifies table
      ensures table[..] == SetNext(old(table[..]), i, v)
    {
      if i != NULL { table[i] := table[i].(next := v); }
    }

    /** The pointer assignments of touch, for an entry that is not the head. */
    method Splice(e: nat)
      requires Shaped() && e < table.Length && e != head
      modifies table, `head, `tail
      ensures var t := old(table[..]);
              && 0 <= old(head) < |t| && -1 <= t[e].prev < |t| && -1 <= t[e].next < |t|
              && table[..] == Spliced(t, old(head), e)
              && head == e && tail == if e == old(tail) then t[e].prev else old(tail)
    {
      Edges(table[..], head, tail, list, e);
      hide Linked, LinkedAt;
      var prev, next := table[e].prev, table[e].next;
      PutNext(prev, next);
      assert table[e].next == next;
      PutPrev(next, prev);
      assert table[e].prev == prev;
      if e == tail { tail := table[e].prev; }
      PutPrev(e, NULL);
      PutNext(e, head);
      PutPrev(head, e);
      head := e;  // the list is never empty here, so the tail needs no repair
    }

    /** touch: unlink `e` and splice it in at the head, that is, move it to the front of the list. */
    method Touch(e: nat)
      requires Shaped() && e < table.Length
      modifies table, `head, `tail, `list
      ensures Shaped()
      ensures SlotsOf(table[..], list) == ToFront(old(SlotsOf(table[..], list)), old(list.rank[e]))
    {
      ghost var t, h, l := table[..], head, list;
      assert VisitsAt(l, |t|, e);
      if e == head {
        RankIs(l, |t|, e, 0);
        assert SlotsOf(t, l) == ToFront(SlotsOf(t, l), 0);
        return;
      }
      SplicedLinked(t, head, tail, l, e);
      SplicedSlots(t, head, tail, l, e);
      SlotsMoved(Spliced(t, h, e), l, l.rank[e]);
      Splice(e);
      list := Moved(l, l.rank[e]);
    }

    /** lookup: the first valid entry holding `lba`, or NULL. */
    method Lookup(lba: Lba) returns (e: int)
      requires Good()
      ensures -1 <= e < table.Length
      ensures var p := Position(Abs().slots, lba);
              if e == NULL then p == table.Length
              else
                && list.rank[e] == p < table.Length && table[e].valid && table[e].lba == lba
                && Abs().slots[p] == table[e].AsSlot()
    {
      ghost var slots := SlotsOf(table[..], list);
      for i := 0 to table.Length
        invariant forall j :: 0 <= j < i ==> !Holds(table[j].AsSlot(), lba)
      {
        if table[i].valid && table[i].lba == lba {
          assert VisitsAt(list, table.Length, i);
          assert slots[list.rank[i]] == table[i].AsSlot();
          PositionOf(slots, list.rank[i]);
          return i;
        }
      }
      forall q | 0 <= q < table.Length ensures !Holds(slots[q], lba) {
        assert slots[q] == table[list.order[q]].AsSlot();
      }
      return NULL;
    }

    /** Overwrite one entry without touching its links. */
    ghost method Stored(t: seq<Entry>, e: nat, x: Entry)
      requires Linked(t, head, tail, list) && e < |t| && table[..] == t[e := x]
      requires x.prev == t[e].prev && x.next == t[e].next
      ensures Shaped() && SlotsOf(table[..], list) == SlotsOf(t, list)[list.rank[e] := x.AsSlot()]
    {
      StoredLinked(t, head, tail, list, e, x);
      StoredSlots(t, list, e, x);
    }

    /** reserve_lru: empty the last slot. A failed writeback is only logged; the sector is dropped. */
    method ReserveLru(f: Faults) returns (e: nat)
      requires Shaped()
      modifies table, `disk, `stats
      ensures Shaped() && Abs() == Evict(old(Abs()), f)
      ensures e < table.Length && list.rank[e] == table.Length - 1 && !table[e].valid
    {
      ghost var t, last := table[..], Abs().slots[table.Length - 1];
      e := tail;
      RankIs(list, |t|, e, |t| - 1);
      assert last == t[e].AsSlot();
      if table[e].valid && table[e].dirty {
        if table[e].lba !in f.badWrites {
          disk := disk[table[e].lba := table[e].data];
          stats := stats.(diskWrites := stats.diskWrites + 1);
        }
        table[e] := table[e].(dirty := false);
      }
      table[e] := table[e].(valid := false);
      assert table[..] == t[e := table[e]];
      Stored(t, e, table[e]);
    }

    /** Fill the reserved last slot and move it to the front. */
    method Fill(e: nat, lba: Lba, data: Sector, dirty: bool)
      requires Shaped() && e < table.Length && list.rank[e] == table.Length - 1
      modifies table, `head, `tail, `list
      ensures Shaped() && Abs() == Insert(old(Abs()), Full(lba, data, dirty))
    {
      ghost var t := table[..];
      table[e] := table[e].(lba := lba, valid := true, dirty := dirty, data := data);
      Stored(t, e, table[e]);
      Touch(e);
    }

    method ReadHit(e: nat) returns (data: Sector)
      requires Shaped() && e < table.Length && table[e].valid
      modifies table, `head, `tail, `list, `stats
      ensures Shaped()
      ensures old(list.rank[e]) < table.Length && Abs() == CacheModel.ReadHit(old(Abs()), old(list.rank[e]))
      ensures data == old(table[e]).data
    {
      data := table[e].data;
      Touch(e);
      stats := stats.(hits := stats.hits + 1);
    }

    method ReadMiss(lba: Lba, f: Faults) returns (reply: Option<Sector>)
      requires Shaped()
      modifies this, table
      ensures Shaped() && Abs() == CacheModel.ReadMiss(old(Abs()), lba, f).0
      ensures reply == CacheModel.ReadMiss(old(Abs()), lba, f).1
    {
      var e := ReserveLru(f);
      if lba in f.badReads {
        return None;
      }
      var data := At(disk, lba);
      Fill(e, lba, data, false);
      stats := stats.(misses := stats.misses + 1);
      reply := Some(data);
    }

    /** bcache_read: the sector, or nothing when the disk read fails. */
    method Read(lba: Lba, f: Faults) returns (reply: Option<Sector>)
      requires Good()
      modifies this, table
      ensures Good() && Abs() == CacheModel.Read(old(Abs()), lba, f).0
      ensures reply == CacheModel.Read(old(Abs()), lba, f).1
    {
      ReadValid(Abs(), lba, f);
      var e := Lookup(lba);
      if e != NULL {
        var data := ReadHit(e);
        reply := Some(data);
      } else {
        reply := ReadMiss(lba, f);
      }
    }

    method WriteHit(e: nat, data: Sector)
      requires Shaped() && e < table.Length && table[e].valid
      modifies table, `head, `tail, `list
      ensures Shaped()
      ensures old(list.rank[e]) < table.Length && old(Abs()).slots[old(list.rank[e])].Full?
      ensures Abs() == CacheModel.WriteHit(old(Abs()), old(list.rank[e]), data)
    {
      ghost var t := table[..];
      assert VisitsAt(list, |t|, e) && SlotsOf(t, list)[list.rank[e]] == t[e].AsSlot();
      table[e] := table[e].(data := data);
      table[e] := table[e].(dirty := true);
      assert table[..] == t[e := table[e]];
      Stored(t, e, table[e]);
      Touch(e);
    }

    method WriteMiss(lba: Lba, data: Sector, f: Faults)
      requires Shaped()
      modifies this, table
      ensures Shaped() && Abs() == CacheModel.WriteMiss(old(Abs()), lba, data, f)
    {
      var e := ReserveLru(f);
      Fill(e, lba, data, true);
    }

    /** bcache_write: the sector is only marked dirty; the disk is written by an eviction or a sync. */
    method Write(lba: Lba, data: Sector, f: Faults)
      requires Good()
      modifies this, table
      ensures Good() && Abs() == CacheModel.Write(old(Abs()), lba, data, f)
    {
      WriteValid(Abs(), lba, data, f);
      var e := Lookup(lba);
      stats := stats.(logicalWrites := stats.logicalWrites + 1);
      if e != NULL {
        WriteHit(e, data);
      } else {
        WriteMiss(lba, data, f);
      }
    }

    // ---- sync ------------------------------------------------------------------------------

    /** The first `i` entries are flushed, the others are as in `t`. */
    ghost predicate FlushedTo(i: nat, t: seq<Entry>, f: Faults)
      reads this, table
    {
      table.Length == |t| && forall j :: 0 <= j < |t| ==> FlushedAt(table[..], t, j, i, f)
    }

    /** One turn of bcache_sync's loop: claim the dirty bit, write, and put the bit back on failure. */
    method FlushSlot(i: nat, ghost t: seq<Entry>, f: Faults) returns (wrote: bool)
      requires i < |t| && FlushedTo(i, t, f)
      modifies table, `disk, `stats
      ensures FlushedTo(i + 1, t, f)
      ensures disk == WriteBack(t[i].AsSlot(), old(disk), f).0
      ensures wrote == (IsDirty(t[i].AsSlot()) && t[i].AsSlot().lba !in f.badWrites)
      ensures stats == old(stats).(diskWrites := old(stats).diskWrites + if wrote then 1 else 0)
    {
      ghost var was := table[..];
      assert FlushedAt(was, t, i, i, f);
      wrote := false;
      if table[i].valid && table[i].dirty {
        var lba, buf := table[i].lba, table[i].data;
        table[i] := table[i].(dirty := false);
        if lba !in f.badWrites {
          disk := disk[lba := buf];
          stats := stats.(diskWrites := stats.diskWrites + 1);
          wrote := true;
        } else if table[i].valid && table[i].lba == lba {
          table[i] := table[i].(dirty := true);
        }
      }
      ghost var now, k := table[..], i + 1;
      forall j | 0 <= j < |t| ensures FlushedAt(now, t, j, k, f) {
        assert FlushedAt(was, t, j, i, f);
      }
    }

    /** The loop of bcache_sync over the slot array. */
    method FlushAll(f: Faults) returns (n: nat)
      modifies table, `disk, `stats
      ensures FlushedTo(table.Length, old(table[..]), f)
      ensures var a := ArraySlots(old(table[..])); disk == FlushRun(a, |a|, old(disk), f) && n == FlushCount(a, |a|, f)
      ensures stats == old(stats).(diskWrites := old(stats).diskWrites + n)
    {
      ghost var t, a := table[..], ArraySlots(table[..]);
      assert FlushedTo(0, t, f) by {
        assert forall j :: 0 <= j < |t| ==> FlushedAt(t, t, j, 0, f);
      }
      n := 0;
      for i := 0 to table.Length
        invariant FlushedTo(i, t, f)
        invariant disk == FlushRun(a, i, old(disk), f) && n == FlushCount(a, i, f)
        invariant stats == old(stats).(diskWrites := old(stats).diskWrites + n)
      {
        var wrote := FlushSlot(i, t, f);
        if wrote { n := n + 1; }
      }
    }

    /** bcache_sync, run to its end under the big kernel lock: the number of sectors written. */
    method Sync(f: Faults) returns (n: nat)
      requires Good()
      modifies this, table
      ensures Good() && Abs() == CacheModel.Sync(old(Abs()), f).0
      ensures n == CacheModel.Sync(old(Abs()), f).1
    {
      ghost var t, c := table[..], Abs();
      SyncValid(c, f);
      FlushRunIsSync(t, list, c, f);
      n := FlushAll(f);
      FlushedLinked(t, table[..], head, tail, list, f);
    }

    /** bcache_dirty: the number of slots that exist only in the cache. */
    method CountDirty() returns (n: nat)
      requires Good()
      ensures n == |DirtyLbas(Abs().slots)|
    {
      hide DirtyLbas, Linked, SlotsOf, UniqueLbas;
      ghost var f, a := Faults({}, {}), ArraySlots(table[..]);
      Countable();
      n := 0;
      for i := 0 to table.Length
        invariant n == FlushCount(a, i, f)
      {
        if table[i].valid && table[i].dirty { n := n + 1; }
      }
    }

    lemma Countable()
      requires Good()
      ensures FlushCount(ArraySlots(table[..]), table.Length, Faults({}, {})) == |DirtyLbas(Abs().slots)|
    {
      FlushCountIsDirty(table[..], list, Abs());
    }
  }
}
