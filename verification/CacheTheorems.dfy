/** What one call does to the contents a client sees: transparency, the one way to lose a sector,
    and the durability a sync gives. */
module CacheTheorems {
  import opened Bytes
  import opened CacheModel

  // ---- lookup ------------------------------------------------------------------------------

  lemma PositionOf(slots: seq<Slot>, p: nat)
    requires UniqueLbas(slots) && p < |slots| && slots[p].Full?
    ensures Position(slots, slots[p].lba) == p
  {
    var q := Position(slots, slots[p].lba);
    assert Holds(slots[p], slots[p].lba);
    assert q <= p;
  }

  lemma ViewOfMember(c: Cache, s: Slot)
    requires UniqueLbas(c.slots) && s in c.slots && s.Full?
    ensures Cached(c, s.lba) && c.slots[Position(c.slots, s.lba)] == s && View(c, s.lba) == s.data
  {
    var p :| 0 <= p < |c.slots| && c.slots[p] == s;
    PositionOf(c.slots, p);
  }

  lemma ViewOfAbsent(c: Cache, l: Lba)
    requires forall s :: s in c.slots ==> !Holds(s, l)
    ensures !Cached(c, l) && View(c, l) == At(c.disk, l)
  {
  }

  lemma AbsentIfNotCached(c: Cache, l: Lba, s: Slot)
    requires !Cached(c, l) && s in c.slots
    ensures !Holds(s, l)
  {
    var p :| 0 <= p < |c.slots| && c.slots[p] == s;
  }

  /** Two caches that agree on which slot, if any, holds `l` show the same view of `l`. */
  lemma SameView(a: Cache, b: Cache, l: Lba)
    requires UniqueLbas(a.slots) && UniqueLbas(b.slots)
    requires forall s: Slot :: s.Full? && s.lba == l ==> (s in a.slots <==> s in b.slots)
    requires At(a.disk, l) == At(b.disk, l)
    ensures View(a, l) == View(b, l) && (Cached(a, l) <==> Cached(b, l))
  {
    var p := Position(a.slots, l);
    if p < |a.slots| {
      ViewOfMember(a, a.slots[p]);
      ViewOfMember(b, a.slots[p]);
    } else {
      forall s: Slot | s in b.slots ensures !Holds(s, l) {
        if Holds(s, l) {
          AbsentIfNotCached(a, l, s);
        }
      }
      ViewOfAbsent(b, l);
    }
  }

  // ---- eviction ----------------------------------------------------------------------------

  /** The last slot's sector exists only in the cache and its writeback fails. */
  predicate DropsSector(c: Cache, f: Faults)
    requires c.slots != []
  {
    var s := c.slots[|c.slots| - 1];
    s.Full? && s.dirty && s.lba in f.badWrites && s.data != At(c.disk, s.lba)
  }

  ghost predicate Consistent(c: Cache) {
    && c.slots != []
    && UniqueLbas(c.slots)
    && EmptiesLast(c.slots)
    && CleanMatchesDisk(c)
  }

  lemma EvictMembers(c: Cache, f: Faults, s: Slot)
    requires c.slots != [] && UniqueLbas(c.slots) && s.Full?
    ensures s in Evict(c, f).slots <==> s in c.slots && s != c.slots[|c.slots| - 1]
  {
    var n, e := |c.slots| - 1, Evict(c, f);
    if s in c.slots && s != c.slots[n] {
      var i :| 0 <= i < |c.slots| && c.slots[i] == s;
      assert e.slots[i] == s;
    }
    if s in e.slots {
      var i :| 0 <= i < |c.slots| && e.slots[i] == s;
      assert c.slots[i] == s && i != n;
    }
  }

  lemma EvictConsistent(c: Cache, f: Faults)
    requires Consistent(c)
    ensures Consistent(Evict(c, f))
  {
    var n := |c.slots| - 1;
    var e := Evict(c, f);
    assert forall i :: 0 <= i < n ==> e.slots[i] == c.slots[i];
    forall s: Slot | s in e.slots && s.Full? && !s.dirty ensures s.data == At(e.disk, s.lba) {
      EvictMembers(c, f, s);
      var i :| 0 <= i < |c.slots| && c.slots[i] == s;
    }
  }

  /** Eviction changes no view, except that a failed writeback reverts the evicted sector to the disk. */
  lemma EvictView(c: Cache, f: Faults, l: Lba)
    requires Consistent(c)
    ensures View(Evict(c, f), l) ==
            if DropsSector(c, f) && l == c.slots[|c.slots| - 1].lba then At(c.disk, l) else View(c, l)
  {
    var last := c.slots[|c.slots| - 1];
    var e := Evict(c, f);
    EvictConsistent(c, f);
    if Holds(last, l) {
      ViewOfMember(c, last);
      forall s: Slot | s in e.slots ensures !Holds(s, l) {
        if s.Full? {
          EvictMembers(c, f, s);
          if Holds(s, l) { ViewOfMember(c, s); }
        }
      }
      ViewOfAbsent(e, l);
    } else {
      forall s: Slot | s.Full? && s.lba == l ensures s in c.slots <==> s in e.slots {
        EvictMembers(c, f, s);
      }
      SameView(c, e, l);
    }
  }

  lemma EvictDirty(c: Cache, f: Faults)
    requires c.slots != [] && UniqueLbas(c.slots)
    ensures var s := c.slots[|c.slots| - 1];
            DirtyLbas(Evict(c, f).slots) == if IsDirty(s) then DirtyLbas(c.slots) - {s.lba} else DirtyLbas(c.slots)
    ensures Evict(c, f).stats.diskWrites + |DirtyLbas(Evict(c, f).slots)| <= c.stats.diskWrites + |DirtyLbas(c.slots)|
  {
    var last := c.slots[|c.slots| - 1];
    var e := Evict(c, f);
    forall l ensures l in DirtyLbas(e.slots) <==> l in DirtyLbas(c.slots) && !(IsDirty(last) && l == last.lba) {
      if l in DirtyLbas(c.slots) && !(IsDirty(last) && l == last.lba) {
        var s :| s in c.slots && IsDirty(s) && s.lba == l;
        EvictMembers(c, f, s);
      }
      if l in DirtyLbas(e.slots) {
        var s :| s in e.slots && IsDirty(s) && s.lba == l;
        EvictMembers(c, f, s);
        if IsDirty(last) && last.lba == l {
          ViewOfMember(c, s);
          ViewOfMember(c, last);
        }
      }
    }
    if IsDirty(last) {
      assert last.lba in DirtyLbas(c.slots);
      assert DirtyLbas(e.slots) == DirtyLbas(c.slots) - {last.lba};
    } else {
      assert DirtyLbas(e.slots) == DirtyLbas(c.slots);
    }
  }

  // ---- filling the front slot --------------------------------------------------------------

  lemma InsertMembers(e: Cache, s: Slot, x: Slot)
    requires e.slots != [] && e.slots[|e.slots| - 1].Empty? && x.Full?
    ensures x in Insert(e, s).slots <==> x == s || x in e.slots
  {
    var n := |e.slots| - 1;
    ToFrontMembers(e.slots[n := s], n, x);
    if x in e.slots {
      var i :| 0 <= i < |e.slots| && e.slots[i] == x;
      assert e.slots[n := s][i] == x;
    }
    assert e.slots[n := s][n] == s;
  }

  ghost predicate Insertable(e: Cache, s: Slot) {
    && Consistent(e)
    && e.slots[|e.slots| - 1].Empty?
    && s.Full? && !Cached(e, s.lba) && (!s.dirty ==> s.data == At(e.disk, s.lba))
  }

  lemma InsertConsistent(e: Cache, s: Slot)
    requires Insertable(e, s)
    ensures Consistent(Insert(e, s))
  {
    var n := |e.slots| - 1;
    var r := Insert(e, s);
    assert forall i :: 1 <= i <= n ==> r.slots[i] == e.slots[i - 1];
    forall i | 0 <= i < |e.slots| ensures !Holds(e.slots[i], s.lba) {
      AbsentIfNotCached(e, s.lba, e.slots[i]);
    }
    forall x: Slot | x in r.slots && x.Full? && !x.dirty ensures x.data == At(r.disk, x.lba) {
      InsertMembers(e, s, x);
    }
  }

  lemma InsertView(e: Cache, s: Slot, l: Lba)
    requires Insertable(e, s)
    ensures View(Insert(e, s), l) == if l == s.lba then s.data else View(e, l)
  {
    var r := Insert(e, s);
    InsertConsistent(e, s);
    if l == s.lba {
      assert r.slots[0] == s;
      ViewOfMember(r, s);
    } else {
      forall x: Slot | x.Full? && x.lba == l ensures x in e.slots <==> x in r.slots {
        InsertMembers(e, s, x);
      }
      SameView(e, r, l);
    }
  }

  lemma InsertDirty(e: Cache, s: Slot)
    requires e.slots != [] && e.slots[|e.slots| - 1].Empty? && s.Full?
    ensures DirtyLbas(Insert(e, s).slots) == DirtyLbas(e.slots) + (if s.dirty then {s.lba} else {})
  {
    var r := Insert(e, s);
    forall l ensures l in DirtyLbas(r.slots) <==> l in DirtyLbas(e.slots) || (s.dirty && l == s.lba) {
      assert r.slots[0] == s;
      if l in DirtyLbas(e.slots) {
        var x :| x in e.slots && IsDirty(x) && x.lba == l;
        InsertMembers(e, s, x);
      }
      if l in DirtyLbas(r.slots) {
        var x :| x in r.slots && IsDirty(x) && x.lba == l;
        InsertMembers(e, s, x);
      }
    }
  }

  // ---- moving a slot to the front ----------------------------------------------------------

  lemma ToFrontMembers<T>(s: seq<T>, k: nat, x: T)
    requires k < |s|
    ensures x in ToFront(s, k) <==> x in s
  {
    if x in s {
      var j :| 0 <= j < |s| && s[j] == x;
      assert ToFront(s, k)[if j == k then 0 else if j < k then j + 1 else j] == x;
    }
  }

  lemma ToFrontConsistent(c: Cache, k: nat)
    requires Consistent(c) && k < |c.slots| && c.slots[k].Full?
    ensures Consistent(c.(slots := ToFront(c.slots, k)))
  {
    var r := c.(slots := ToFront(c.slots, k));
    assert r.slots[0] == c.slots[k];
    assert forall i :: 1 <= i <= k ==> r.slots[i] == c.slots[i - 1];
    assert forall i :: k < i < |r.slots| ==> r.slots[i] == c.slots[i];
    forall x: Slot | x in r.slots && x.Full? && !x.dirty ensures x.data == At(r.disk, x.lba) {
      ToFrontMembers(c.slots, k, x);
    }
  }

  lemma ToFrontView(c: Cache, k: nat, l: Lba)
    requires Consistent(c) && k < |c.slots| && c.slots[k].Full?
    ensures View(c.(slots := ToFront(c.slots, k)), l) == View(c, l)
  {
    var r := c.(slots := ToFront(c.slots, k));
    ToFrontConsistent(c, k);
    forall x: Slot | x.Full? && x.lba == l ensures x in c.slots <==> x in r.slots {
      ToFrontMembers(c.slots, k, x);
    }
    SameView(c, r, l);
  }

  lemma ToFrontDirty(slots: seq<Slot>, k: nat)
    requires k < |slots|
    ensures DirtyLbas(ToFront(slots, k)) == DirtyLbas(slots)
  {
    forall x: Slot ensures x in ToFront(slots, k) <==> x in slots {
      ToFrontMembers(slots, k, x);
    }
  }

  // ---- read --------------------------------------------------------------------------------

  /** The call evicts a sector that is then lost. */
  predicate LosesSector(c: Cache, lba: Lba, f: Faults)
    requires c.slots != []
  {
    !Cached(c, lba) && DropsSector(c, f)
  }

  /** Evicting for an uncached `lba` leaves a cache the new sector can be inserted into. */
  lemma EvictFor(c: Cache, f: Faults, s: Slot)
    requires Consistent(c) && s.Full? && !Cached(c, s.lba)
    requires !s.dirty ==> s.data == At(Evict(c, f).disk, s.lba)
    ensures Insertable(Evict(c, f), s)
    ensures At(Evict(c, f).disk, s.lba) == View(c, s.lba)
  {
    var e := Evict(c, f);
    EvictConsistent(c, f);
    forall x: Slot | x in e.slots ensures !Holds(x, s.lba) {
      if x.Full? {
        EvictMembers(c, f, x);
        AbsentIfNotCached(c, s.lba, x);
      }
    }
    ViewOfAbsent(e, s.lba);
    AbsentIfNotCached(c, s.lba, c.slots[|c.slots| - 1]);
  }

  lemma ReadValid(c: Cache, lba: Lba, f: Faults)
    requires Valid(c)
    ensures Valid(Read(c, lba, f).0)
  {
    var p := Position(c.slots, lba);
    if p < |c.slots| {
      ToFrontConsistent(c, p);
      ToFrontDirty(c.slots, p);
    } else {
      var e := Evict(c, f);
      EvictConsistent(c, f);
      EvictDirty(c, f);
      if lba !in f.badReads {
        var s := Full(lba, At(e.disk, lba), false);
        EvictFor(c, f, s);
        InsertConsistent(e, s);
        InsertDirty(e, s);
      }
    }
  }

  lemma ReadView(c: Cache, lba: Lba, f: Faults, l: Lba)
    requires Valid(c)
    ensures View(Read(c, lba, f).0, l) ==
            if LosesSector(c, lba, f) && l == c.slots[|c.slots| - 1].lba then At(c.disk, l) else View(c, l)
  {
    var r := Read(c, lba, f).0;
    var p := Position(c.slots, lba);
    if p < |c.slots| {
      ToFrontView(c, p, l);
      assert View(r, l) == View(c.(slots := ToFront(c.slots, p)), l);
    } else {
      EvictView(c, f, l);
      var e := Evict(c, f);
      if lba !in f.badReads {
        var s := Full(lba, At(e.disk, lba), false);
        EvictFor(c, f, s);
        InsertView(e, s, l);
        assert View(r, l) == View(Insert(e, s), l);
        AbsentIfNotCached(c, lba, c.slots[|c.slots| - 1]);
      }
    }
  }

  /** A read that is not served by the cache and not by the disk fails; any other returns the view. */
  lemma ReadReturnsView(c: Cache, lba: Lba, f: Faults)
    requires Valid(c)
    ensures Read(c, lba, f).1 == if Cached(c, lba) || lba !in f.badReads then Some(View(c, lba)) else None
  {
    if !Cached(c, lba) {
      EvictFor(c, f, Full(lba, At(Evict(c, f).disk, lba), false));
    }
  }

  /** A read changes no view exactly when it does not evict a dirty sector whose writeback fails:
      the kernel carries on after that failure and drops the sector. */
  lemma ReadIsTransparentIff(c: Cache, lba: Lba, f: Faults)
    requires Valid(c)
    ensures (forall l :: View(Read(c, lba, f).0, l) == View(c, l)) <==> !LosesSector(c, lba, f)
  {
    forall l ensures View(Read(c, lba, f).0, l) ==
                     if LosesSector(c, lba, f) && l == c.slots[|c.slots| - 1].lba then At(c.disk, l) else View(c, l)
    {
      ReadView(c, lba, f, l);
    }
    if LosesSector(c, lba, f) {
      ViewOfMember(c, c.slots[|c.slots| - 1]);
    }
  }

  // ---- write -------------------------------------------------------------------------------

  lemma OverwriteMembers(slots: seq<Slot>, p: nat, s: Slot, x: Slot)
    requires UniqueLbas(slots) && p < |slots| && slots[p].Full? && s.Full? && s.lba == slots[p].lba && x.Full?
    ensures x in slots[p := s] <==> x == s || (x in slots && x.lba != s.lba)
  {
    var t := slots[p := s];
    assert t[p] == s;
    if x in slots && x.lba != s.lba {
      var i :| 0 <= i < |slots| && slots[i] == x;
      assert t[i] == x;
    }
  }

  lemma OverwriteConsistent(c: Cache, p: nat, data: Sector)
    requires Consistent(c) && p < |c.slots| && c.slots[p].Full?
    ensures Consistent(c.(slots := c.slots[p := Full(c.slots[p].lba, data, true)]))
  {
    var s := Full(c.slots[p].lba, data, true);
    var r := c.(slots := c.slots[p := s]);
    assert forall i :: 0 <= i < |c.slots| && i != p ==> r.slots[i] == c.slots[i];
    forall x: Slot | x in r.slots && x.Full? && !x.dirty ensures x.data == At(r.disk, x.lba) {
      OverwriteMembers(c.slots, p, s, x);
    }
  }

  lemma OverwriteView(c: Cache, p: nat, data: Sector, l: Lba)
    requires Consistent(c) && p < |c.slots| && c.slots[p].Full?
    ensures View(c.(slots := c.slots[p := Full(c.slots[p].lba, data, true)]), l) ==
            if l == c.slots[p].lba then data else View(c, l)
  {
    var s := Full(c.slots[p].lba, data, true);
    var r := c.(slots := c.slots[p := s]);
    OverwriteConsistent(c, p, data);
    if l == s.lba {
      assert r.slots[p] == s;
      ViewOfMember(r, s);
    } else {
      forall x: Slot | x.Full? && x.lba == l ensures x in c.slots <==> x in r.slots {
        OverwriteMembers(c.slots, p, s, x);
      }
      SameView(c, r, l);
    }
  }

  lemma OverwriteDirty(slots: seq<Slot>, p: nat, data: Sector)
    requires UniqueLbas(slots) && p < |slots| && slots[p].Full?
    ensures DirtyLbas(slots[p := Full(slots[p].lba, data, true)]) == DirtyLbas(slots) + {slots[p].lba}
  {
    var s := Full(slots[p].lba, data, true);
    var t := slots[p := s];
    forall l ensures l in DirtyLbas(t) <==> l in DirtyLbas(slots) || l == s.lba {
      assert t[p] == s && IsDirty(s);
      if l in DirtyLbas(slots) {
        var x :| x in slots && IsDirty(x) && x.lba == l;
        OverwriteMembers(slots, p, s, x);
      }
      if l in DirtyLbas(t) {
        var x :| x in t && IsDirty(x) && x.lba == l;
        OverwriteMembers(slots, p, s, x);
      }
    }
  }

  lemma WriteHitValid(c: Cache, p: nat, data: Sector)
    requires Consistent(c) && p < |c.slots| && c.slots[p].Full?
    ensures Consistent(WriteHit(c, p, data))
    ensures DirtyLbas(WriteHit(c, p, data).slots) == DirtyLbas(c.slots) + {c.slots[p].lba}
  {
    var o := c.(slots := c.slots[p := Full(c.slots[p].lba, data, true)]);
    OverwriteConsistent(c, p, data);
    OverwriteDirty(c.slots, p, data);
    ToFrontConsistent(o, p);
    ToFrontDirty(o.slots, p);
  }

  lemma WriteMissValid(c: Cache, lba: Lba, data: Sector, f: Faults)
    requires Consistent(c) && !Cached(c, lba)
    ensures Consistent(WriteMiss(c, lba, data, f))
    ensures DirtyLbas(WriteMiss(c, lba, data, f).slots) == DirtyLbas(Evict(c, f).slots) + {lba}
  {
    var s := Full(lba, data, true);
    EvictFor(c, f, s);
    InsertConsistent(Evict(c, f), s);
    InsertDirty(Evict(c, f), s);
  }

  lemma WriteValid(c: Cache, lba: Lba, data: Sector, f: Faults)
    requires Valid(c)
    ensures Valid(Write(c, lba, data, f))
  {
    var c1 := c.(stats := c.stats.(logicalWrites := c.stats.logicalWrites + 1));
    var p := Position(c.slots, lba);
    if p < |c.slots| {
      WriteHitValid(c1, p, data);
      hide DirtyLbas;
    } else {
      WriteMissValid(c1, lba, data, f);
      EvictDirty(c1, f);
      hide DirtyLbas;
    }
  }

  lemma WriteHitView(c: Cache, p: nat, data: Sector, l: Lba)
    requires Consistent(c) && p < |c.slots| && c.slots[p].Full?
    ensures View(WriteHit(c, p, data), l) == if l == c.slots[p].lba then data else View(c, l)
  {
    var o := c.(slots := c.slots[p := Full(c.slots[p].lba, data, true)]);
    OverwriteConsistent(c, p, data);
    OverwriteView(c, p, data, l);
    ToFrontView(o, p, l);
  }

  lemma WriteMissView(c: Cache, lba: Lba, data: Sector, f: Faults, l: Lba)
    requires Consistent(c) && !Cached(c, lba)
    ensures View(WriteMiss(c, lba, data, f), l) ==
            if l == lba then data
            else if DropsSector(c, f) && l == c.slots[|c.slots| - 1].lba then At(c.disk, l)
            else View(c, l)
  {
    var s := Full(lba, data, true);
    EvictFor(c, f, s);
    EvictView(c, f, l);
    InsertView(Evict(c, f), s, l);
  }

  lemma WriteView(c: Cache, lba: Lba, data: Sector, f: Faults, l: Lba)
    requires Valid(c)
    ensures View(Write(c, lba, data, f), l) ==
            if l == lba then data
            else if LosesSector(c, lba, f) && l == c.slots[|c.slots| - 1].lba then At(c.disk, l)
            else View(c, l)
  {
    var c1 := c.(stats := c.stats.(logicalWrites := c.stats.logicalWrites + 1));
    var p := Position(c.slots, lba);
    assert View(c1, l) == View(c, l);
    if p < |c.slots| {
      WriteHitView(c1, p, data, l);
    } else {
      WriteMissView(c1, lba, data, f, l);
    }
  }

  /** A write sets the view of its own sector and leaves every other view alone exactly when it does
      not evict a dirty sector whose writeback fails. */
  lemma WriteIsTransparentIff(c: Cache, lba: Lba, data: Sector, f: Faults)
    requires Valid(c)
    ensures View(Write(c, lba, data, f), lba) == data
    ensures (forall l :: l != lba ==> View(Write(c, lba, data, f), l) == View(c, l)) <==> !LosesSector(c, lba, f)
  {
    forall l ensures View(Write(c, lba, data, f), l) ==
                     if l == lba then data
                     else if LosesSector(c, lba, f) && l == c.slots[|c.slots| - 1].lba then At(c.disk, l)
                     else View(c, l)
    {
      WriteView(c, lba, data, f, l);
    }
    if LosesSector(c, lba, f) {
      ViewOfMember(c, c.slots[|c.slots| - 1]);
    }
  }

  // ---- sync --------------------------------------------------------------------------------

  lemma CleanMembers(slots: seq<Slot>, f: Faults, x: Slot)
    ensures x in CleanSlots(slots, f) <==> exists s :: s in slots && x == CleanSlot(s, f)
  {
    var t := CleanSlots(slots, f);
    if x in t {
      var i :| 0 <= i < |t| && t[i] == x;
      assert slots[i] in slots;
    }
    if s :| s in slots && x == CleanSlot(s, f) {
      var i :| 0 <= i < |slots| && slots[i] == s;
      assert t[i] == x;
    }
  }

  lemma CleanDirty(slots: seq<Slot>, f: Faults)
    ensures DirtyLbas(CleanSlots(slots, f)) == DirtyLbas(slots) * f.badWrites
  {
    var t := CleanSlots(slots, f);
    forall l ensures l in DirtyLbas(t) <==> l in DirtyLbas(slots) && l in f.badWrites {
      if l in DirtyLbas(slots) && l in f.badWrites {
        var s :| s in slots && IsDirty(s) && s.lba == l;
        CleanMembers(slots, f, CleanSlot(s, f));
      }
      if l in DirtyLbas(t) {
        var x :| x in t && IsDirty(x) && x.lba == l;
        CleanMembers(slots, f, x);
      }
    }
  }

  lemma FlushedDiskAt(c: Cache, out: set<Lba>, l: Lba)
    ensures At(FlushedDisk(c, out), l) == if l in out then View(c, l) else At(c.disk, l)
  {
  }

  lemma CleanShape(slots: seq<Slot>, f: Faults)
    requires slots != [] && UniqueLbas(slots) && EmptiesLast(slots)
    ensures CleanSlots(slots, f) != [] && UniqueLbas(CleanSlots(slots, f)) && EmptiesLast(CleanSlots(slots, f))
  {
  }

  lemma CleanPosition(slots: seq<Slot>, f: Faults, l: Lba)
    requires UniqueLbas(slots)
    ensures Position(CleanSlots(slots, f), l) == Position(slots, l)
  {
    var t := CleanSlots(slots, f);
    var p := Position(slots, l);
    assert p < |slots| ==> Holds(t[p], l);
    var q := Position(t, l);
    assert q < |slots| ==> Holds(slots[q], l);
  }

  lemma SyncView(c: Cache, f: Faults, l: Lba)
    requires Consistent(c)
    ensures View(Sync(c, f).0, l) == View(c, l)
  {
    CleanPosition(c.slots, f, l);
    if !Cached(c, l) {
      FlushedDiskAt(c, Flushed(c.slots, f), l);
    }
  }

  lemma SyncConsistent(c: Cache, f: Faults)
    requires Consistent(c)
    ensures Consistent(Sync(c, f).0)
  {
    CleanShape(c.slots, f);
    var disk := FlushedDisk(c, Flushed(c.slots, f));
    forall x: Slot | x in CleanSlots(c.slots, f) && x.Full? && !x.dirty ensures x.data == At(disk, x.lba) {
      CleanMembers(c.slots, f, x);
      var s :| s in c.slots && x == CleanSlot(s, f);
      ViewOfMember(c, s);
      FlushedDiskAt(c, Flushed(c.slots, f), s.lba);
      if IsDirty(s) {
        assert s.lba in Flushed(c.slots, f);
      }
    }
  }

  lemma SyncValid(c: Cache, f: Faults)
    requires Valid(c)
    ensures Valid(Sync(c, f).0)
  {
    SyncConsistent(c, f);
    CleanDirty(c.slots, f);
    var dirty := DirtyLbas(c.slots);
    assert dirty == (dirty - f.badWrites) + dirty * f.badWrites;
    assert |dirty| == |dirty - f.badWrites| + |dirty * f.badWrites|;
  }

  /** For every pattern of failing writes, a sync changes no view, writes every other dirty sector to the disk
      and nothing else, says how many, and leaves exactly the sectors whose writes failed dirty. */
  lemma SyncKeepsViews(c: Cache, f: Faults)
    requires Valid(c)
    ensures Valid(Sync(c, f).0)
    ensures forall l :: View(Sync(c, f).0, l) == View(c, l)
    ensures DirtyLbas(Sync(c, f).0.slots) == DirtyLbas(c.slots) * f.badWrites
    ensures Sync(c, f).1 == |DirtyLbas(c.slots) - f.badWrites|
    ensures forall l :: At(Sync(c, f).0.disk, l) ==
                        if l in DirtyLbas(c.slots) && l !in f.badWrites then View(c, l) else At(c.disk, l)
  {
    SyncValid(c, f);
    CleanDirty(c.slots, f);
    forall l ensures At(Sync(c, f).0.disk, l) ==
                     if l in DirtyLbas(c.slots) && l !in f.badWrites then View(c, l) else At(c.disk, l)
    {
      FlushedDiskAt(c, Flushed(c.slots, f), l);
    }
    forall l ensures View(Sync(c, f).0, l) == View(c, l) {
      SyncView(c, f, l);
    }
  }

  lemma CleanViewIsDisk(c: Cache, l: Lba)
    requires Consistent(c) && l !in DirtyLbas(c.slots)
    ensures View(c, l) == At(c.disk, l)
  {
    var p := Position(c.slots, l);
    if p < |c.slots| {
      assert c.slots[p] in c.slots;
      assert !IsDirty(c.slots[p]);
    }
  }

  /** When no dirty sector's write fails, the disk afterwards holds what clients see, everywhere, and
      the next sync has nothing to write. */
  lemma SyncIsDurable(c: Cache, f: Faults)
    requires Valid(c) && DirtyLbas(c.slots) !! f.badWrites
    ensures forall l :: At(Sync(c, f).0.disk, l) == View(c, l)
    ensures forall g :: Sync(Sync(c, f).0, g).1 == 0
    ensures Sync(c, f).1 == |DirtyLbas(c.slots)|
  {
    SyncKeepsViews(c, f);
    assert Flushed(c.slots, f) == DirtyLbas(c.slots);
    var r := Sync(c, f).0;
    NothingToFlush(r);
    hide View, Sync;
    forall l ensures At(r.disk, l) == View(c, l) {
      CleanViewIsDisk(r, l);
    }
  }

  lemma NothingToFlush(c: Cache)
    requires DirtyLbas(c.slots) == {}
    ensures forall g :: Sync(c, g).1 == 0
  {
    forall g ensures Sync(c, g).1 == 0 {
      assert Flushed(c.slots, g) == {};
    }
  }
}
