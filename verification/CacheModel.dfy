/** The block cache on values: slots in recency order, the disk behind them, and the counters.
    BlockCache (the linked-list implementation) is proved equal to these functions. */
module CacheModel {
  import opened Bytes

  type Lba = uint32

  const BLOCK_SIZE := 512

  /** The contents of one disk sector. The cache copies whole sectors and never looks inside one. */
  datatype Sector = Sector(bytes: seq<byte>)

  function BlankSector(): Sector {
    Sector(Zeros(BLOCK_SIZE))
  }

  type Disk = map<Lba, Sector>

  /** The sector stored at `lba`; sectors a disk does not list read as zeros. */
  function At(disk: Disk, lba: Lba): Sector {
    if lba in disk then disk[lba] else BlankSector()
  }

  /** A slot is empty, or holds a sector that may be newer than the disk. */
  datatype Slot = Empty | Full(lba: Lba, data: Sector, dirty: bool)

  datatype Counters = Counters(hits: nat, misses: nat, logicalWrites: nat, diskWrites: nat)

  /** `slots[0]` is the most recently used slot. */
  datatype Cache = Cache(slots: seq<Slot>, disk: Disk, stats: Counters)

  /** The sectors whose disk reads and disk writes fail during one call. */
  datatype Faults = Faults(badReads: set<Lba>, badWrites: set<Lba>)

  function Initial(n: nat, disk: Disk): Cache {
    Cache(seq(n, _ => Empty), disk, Counters(0, 0, 0, 0))
  }

  // ---- lookup ------------------------------------------------------------------------------

  predicate Holds(s: Slot, lba: Lba) {
    s.Full? && s.lba == lba
  }

  /** The first position from `i` on that holds `lba`; the number of slots when none does. */
  function PositionFrom(slots: seq<Slot>, lba: Lba, i: nat): (p: nat)
    requires i <= |slots|
    ensures i <= p <= |slots|
    ensures p < |slots| ==> Holds(slots[p], lba)
    ensures forall j :: i <= j < p ==> !Holds(slots[j], lba)
    decreases |slots| - i
  {
    if i == |slots| || Holds(slots[i], lba) then i else PositionFrom(slots, lba, i + 1)
  }

  /** Where `lba` is cached; the number of slots when it is not. */
  function Position(slots: seq<Slot>, lba: Lba): (p: nat)
    ensures p <= |slots|
    ensures p < |slots| ==> Holds(slots[p], lba)
    ensures forall j :: 0 <= j < p ==> !Holds(slots[j], lba)
  {
    PositionFrom(slots, lba, 0)
  }

  predicate Cached(c: Cache, lba: Lba) {
    Position(c.slots, lba) < |c.slots|
  }

  /** What a reader of `lba` is meant to see. */
  function View(c: Cache, lba: Lba): Sector {
    var p := Position(c.slots, lba);
    if p < |c.slots| then c.slots[p].data else At(c.disk, lba)
  }

  // ---- the operations ----------------------------------------------------------------------

  /** `s` with its element at `k` moved to the front. */
  function ToFront<T>(s: seq<T>, k: nat): (r: seq<T>)
    requires k < |s|
    ensures |r| == |s|
    ensures forall i {:trigger r[i]} :: 0 <= i < |s| ==> r[i] == s[if i == 0 then k else if i <= k then i - 1 else i]
  {
    seq(|s|, i requires 0 <= i < |s| => s[if i == 0 then k else if i <= k then i - 1 else i])
  }

  /** Writeback of one slot: the disk afterwards and the number of sectors written. */
  function WriteBack(s: Slot, disk: Disk, f: Faults): (r: (Disk, nat)) {
    if s.Full? && s.dirty && s.lba !in f.badWrites then (disk[s.lba := s.data], 1) else (disk, 0)
  }

  /** Empty the last slot. Its sector is lost if the writeback fails. */
  function Evict(c: Cache, f: Faults): (r: Cache)
    requires c.slots != []
    ensures |r.slots| == |c.slots|
  {
    var n := |c.slots| - 1;
    var (disk, written) := WriteBack(c.slots[n], c.disk, f);
    Cache(c.slots[n := Empty], disk, c.stats.(diskWrites := c.stats.diskWrites + written))
  }

  /** Put a slot at the front in place of the (empty) last one. */
  function Insert(c: Cache, s: Slot): (r: Cache)
    requires c.slots != []
    ensures |r.slots| == |c.slots|
  {
    var n := |c.slots| - 1;
    c.(slots := ToFront(c.slots[n := s], n))
  }

  function ReadHit(c: Cache, p: nat): (r: Cache)
    requires p < |c.slots|
    ensures |r.slots| == |c.slots|
  {
    c.(slots := ToFront(c.slots, p), stats := c.stats.(hits := c.stats.hits + 1))
  }

  /** A slot is given up before the disk is read, so a failed read still costs one. */
  function ReadMiss(c: Cache, lba: Lba, f: Faults): (r: (Cache, Option<Sector>))
    requires c.slots != []
    ensures |r.0.slots| == |c.slots|
  {
    var e := Evict(c, f);
    if lba in f.badReads then (e, None)
    else
      var data := At(e.disk, lba);
      (Insert(e, Full(lba, data, false)).(stats := e.stats.(misses := e.stats.misses + 1)), Some(data))
  }

  function Read(c: Cache, lba: Lba, f: Faults): (r: (Cache, Option<Sector>))
    requires c.slots != []
    ensures |r.0.slots| == |c.slots|
  {
    var p := Position(c.slots, lba);
    if p < |c.slots| then (ReadHit(c, p), Some(c.slots[p].data)) else ReadMiss(c, lba, f)
  }

  function WriteHit(c: Cache, p: nat, data: Sector): (r: Cache)
    requires p < |c.slots| && c.slots[p].Full?
    ensures |r.slots| == |c.slots|
  {
    c.(slots := ToFront(c.slots[p := Full(c.slots[p].lba, data, true)], p))
  }

  function WriteMiss(c: Cache, lba: Lba, data: Sector, f: Faults): (r: Cache)
    requires c.slots != []
    ensures |r.slots| == |c.slots|
  {
    Insert(Evict(c, f), Full(lba, data, true))
  }

  function Write(c: Cache, lba: Lba, data: Sector, f: Faults): (r: Cache)
    requires c.slots != []
    ensures |r.slots| == |c.slots|
  {
    var c1 := c.(stats := c.stats.(logicalWrites := c.stats.logicalWrites + 1));
    var p := Position(c.slots, lba);
    if p < |c.slots| then WriteHit(c1, p, data) else WriteMiss(c1, lba, data, f)
  }

  predicate IsDirty(s: Slot) {
    s.Full? && s.dirty
  }

  /** The sectors that exist only in the cache. */
  function DirtyLbas(slots: seq<Slot>): set<Lba> {
    set s | s in slots && IsDirty(s) :: s.lba
  }

  /** The sectors a sync writes out under the given faults. */
  function Flushed(slots: seq<Slot>, f: Faults): set<Lba> {
    DirtyLbas(slots) - f.badWrites
  }

  function CleanSlot(s: Slot, f: Faults): Slot {
    if IsDirty(s) && s.lba !in f.badWrites then s.(dirty := false) else s
  }

  function CleanSlots(slots: seq<Slot>, f: Faults): (r: seq<Slot>)
    ensures |r| == |slots|
    ensures forall i {:trigger r[i]} :: 0 <= i < |slots| ==> r[i] == CleanSlot(slots[i], f)
  {
    seq(|slots|, i requires 0 <= i < |slots| => CleanSlot(slots[i], f))
  }

  /** The disk after every sector in `out` was written from the cache. */
  function FlushedDisk(c: Cache, out: set<Lba>): Disk {
    map l | l in c.disk.Keys + out :: if l in out then View(c, l) else c.disk[l]
  }

  function Sync(c: Cache, f: Faults): (r: (Cache, nat)) {
    var out := Flushed(c.slots, f);
    (Cache(CleanSlots(c.slots, f), FlushedDisk(c, out), c.stats.(diskWrites := c.stats.diskWrites + |out|)), |out|)
  }

  // ---- the invariant -----------------------------------------------------------------------

  ghost predicate UniqueLbas(slots: seq<Slot>) {
    forall i, j :: 0 <= i < j < |slots| && slots[i].Full? && slots[j].Full? ==> slots[i].lba != slots[j].lba
  }

  /** Empty slots come last, so no valid block is evicted while a slot is empty. */
  ghost predicate EmptiesLast(slots: seq<Slot>) {
    forall i, j :: 0 <= i < j < |slots| && slots[j].Full? ==> slots[i].Full?
  }

  ghost predicate CleanMatchesDisk(c: Cache) {
    forall s :: s in c.slots && s.Full? && !s.dirty ==> s.data == At(c.disk, s.lba)
  }

  ghost predicate Valid(c: Cache) {
    && c.slots != []
    && UniqueLbas(c.slots)
    && EmptiesLast(c.slots)
    && CleanMatchesDisk(c)
    && c.stats.diskWrites + |DirtyLbas(c.slots)| <= c.stats.logicalWrites
  }
}
