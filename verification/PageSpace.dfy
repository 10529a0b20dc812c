/** Physical pages and the page directory of a process under construction (kernel/pmm.c and
    kernel/paging.c), with an account of who owns every page. */
module PageSpace {
  import opened Bytes

  const PAGE_SIZE := 4096
  const TABLE_ENTRIES := 1024
  const DIRECTORY_ENTRIES := 1024
  const FIRST_USER_TABLE := 8
  const FIRST_MIRRORED := 256

  /** A physical page, by number. */
  type Frame = nat

  datatype Pte = Pte(frame: Frame, writable: bool, user: bool)

  /** The kernel's page tables that are mirrored into every directory, by directory index, and their entries,
      by virtual page number. */
  datatype Kernel = Kernel(tables: map<nat, Frame>, pages: map<nat, Pte>)

  /** A page directory: its own page, its own page tables by directory index, the pages those tables map, by
      virtual page number, and the mirrored tables whose directory entry got the user bit. */
  datatype Dir = Dir(root: Frame, tables: map<nat, Frame>, pages: map<nat, Pte>, exposed: set<nat>)

  function TableOf(n: nat): nat {
    n / TABLE_ENTRIES
  }

  /** Can the process reach page `n`: both levels must allow it. */
  predicate Maps(d: Dir, k: Kernel, n: nat) {
    n in d.pages || (n in k.pages && k.pages[n].user && TableOf(n) in d.exposed)
  }

  function EntryOf(d: Dir, k: Kernel, n: nat): Pte
    requires Maps(d, k, n)
  {
    if n in d.pages then d.pages[n] else k.pages[n]
  }

  /** What a directory uses a physical page for. */
  datatype Place = Root | Table(index: nat) | Page(number: nat)

  predicate Has(d: Dir, k: Kernel, p: Place) {
    match p
    case Root => true
    case Table(i) => i in d.tables
    case Page(n) => Maps(d, k, n)
  }

  function FrameAt(d: Dir, k: Kernel, p: Place): Frame
    requires Has(d, k, p)
  {
    match p
    case Root => d.root
    case Table(i) => d.tables[i]
    case Page(n) => EntryOf(d, k, n).frame
  }

  /** `owner` is the inverse of the directory: no physical page serves two places. */
  ghost predicate Owns(d: Dir, k: Kernel, owner: map<Frame, Place>) {
    && (forall p :: Has(d, k, p) ==> FrameAt(d, k, p) in owner && owner[FrameAt(d, k, p)] == p)
    && (forall f :: f in owner ==> Has(d, k, owner[f]) && FrameAt(d, k, owner[f]) == f)
  }

  /** Every page lies in a page table that is there; a mirrored table has user pages only if it was exposed. */
  ghost predicate Shaped(d: Dir, k: Kernel) {
    && (forall n :: n in d.pages ==> TableOf(n) in d.tables)
    && (forall i :: i in d.tables ==> FIRST_USER_TABLE <= i < DIRECTORY_ENTRIES && i !in k.tables)
    && (forall i :: i in k.tables ==> FIRST_MIRRORED <= i < DIRECTORY_ENTRIES)
    && (forall n :: n in k.pages ==> TableOf(n) in k.tables && (k.pages[n].user ==> TableOf(n) in d.exposed))
    && d.exposed <= k.tables.Keys
  }

  /** The tables as the kernel makes them: for itself only, on pages that are not for hire. */
  ghost predicate KernelReady(k: Kernel, all: set<Frame>, total: nat) {
    && (forall i :: i in k.tables ==> FIRST_MIRRORED <= i < DIRECTORY_ENTRIES)
    && (forall i :: i in k.tables ==> k.tables[i] < total && k.tables[i] !in all)
    && (forall n :: n in k.pages ==> TableOf(n) in k.tables && !k.pages[n].user)
  }

  /** How many pages a set holds. */
  function Pages(s: set<Frame>): nat {
    |s|
  }

  /** No gap in the free pages. */
  ghost predicate OneRun(s: set<Frame>) {
    forall a, b: Frame, c :: a in s && c in s && a <= b <= c ==> b in s
  }

  /** Taking the lowest page leaves one run, which goes on right behind it. */
  lemma RunGoesOn(s: set<Frame>, p: Frame)
    requires OneRun(s) && p in s && forall q :: q in s ==> p <= q
    ensures OneRun(s - {p}) && (s - {p} != {} ==> p + 1 in s)
  {
    if s - {p} != {} {
      var q :| q in s - {p};
      assert p <= p + 1 <= q;
    }
  }

  lemma NoPages(s: set<Frame>)
    requires Pages(s) == 0
    ensures s == {}
  {
  }

  /** Page 0 is never handed out. */
  ghost predicate Tracked(s: set<Frame>, total: nat) {
    forall f :: f in s ==> 1 <= f < total
  }

  /** Every page of `all` is in exactly one of four places. */
  ghost predicate Partition(all: set<Frame>, free: set<Frame>, owned: set<Frame>, lost: set<Frame>, held: set<Frame>) {
    all == free + owned + lost + held && free !! owned !! lost !! held
  }

  datatype Shown = Shown(bytes: seq<byte>, writable: bool)

  /** What a process in this address space sees, page by page. */
  function View(d: Dir, k: Kernel, ram: map<Frame, seq<byte>>): map<nat, Shown> {
    map n | n in d.pages.Keys + k.pages.Keys && Maps(d, k, n) ::
      var e := EntryOf(d, k, n); Shown(if e.frame in ram then ram[e.frame] else [], e.writable)
  }

  // ---- the pages mapped so far -------------------------------------------------------------

  predicate Unmirrored(ns: seq<nat>, mirrored: set<nat>) {
    forall n :: n in ns ==> TableOf(n) !in mirrored
  }

  /** No page is mapped twice, and none in a mirrored table. */
  ghost predicate Clean(ns: seq<nat>, mirrored: set<nat>) {
    Distinct(ns) && Unmirrored(ns, mirrored)
  }

  /** What the page numbers mapped so far, in order, say about the directory, the pages lost and the kernel's
      tables, which were `boot` at first. */
  ghost predicate Traced(d: Dir, k: Kernel, boot: Kernel, trace: seq<nat>, lost: set<Frame>) {
    && (forall n :: n in trace <==> Maps(d, k, n))
    && (lost == {} <==> Distinct(trace))
    && (d.exposed == {} <==> Unmirrored(trace, k.tables.Keys))
    && (k == boot <==> d.exposed == {})
    && k.tables == boot.tables
    && (forall n :: n in boot.pages ==> !boot.pages[n].user)
  }

  lemma TracedTables(d: Dir, k: Kernel, boot: Kernel, trace: seq<nat>, lost: set<Frame>)
    requires Traced(d, k, boot, trace, lost)
    ensures k.tables == boot.tables
  {
  }

  lemma EmptyDir(root: Frame, k: Kernel, ram: map<Frame, seq<byte>>)
    requires forall i :: i in k.tables ==> FIRST_MIRRORED <= i < DIRECTORY_ENTRIES
    requires forall n :: n in k.pages ==> TableOf(n) in k.tables && !k.pages[n].user
    ensures var d := Dir(root, map[], map[], {});
            && Owns(d, k, map[root := Root]) && Shaped(d, k)
            && Traced(d, k, k, [], {}) && View(d, k, ram) == map[]
  {
    hide TableOf;
    var d := Dir(root, map[], map[], {});
    forall n ensures !Maps(d, k, n) {
    }
    hide Maps;
    assert forall p :: Has(d, k, p) ==> p == Root;
    assert Has(d, k, Root);
  }

  lemma PrefixClean(s: seq<nat>, t: seq<nat>, mirrored: set<nat>)
    requires s <= t && Clean(t, mirrored)
    ensures Clean(s, mirrored)
  {
    forall n | n in s ensures n in t {
      var i :| 0 <= i < |s| && s[i] == n;
      assert t[i] == n;
    }
  }

  // ---- one mapping more --------------------------------------------------------------------

  /** `d1` and `k1` map page `n` by `e`, and all else as `d` and `k` do. */
  ghost predicate Remapped(d: Dir, k: Kernel, d1: Dir, k1: Kernel, n: nat, e: Pte) {
    && d1.root == d.root && d1.tables == d.tables
    && Maps(d1, k1, n) && EntryOf(d1, k1, n) == e
    && (forall m :: m != n ==> (Maps(d1, k1, m) <==> Maps(d, k, m)))
    && (forall m :: m != n && Maps(d, k, m) ==> EntryOf(d1, k1, m) == EntryOf(d, k, m))
  }

  /** Every page but `n` is mapped as before. */
  ghost predicate SameBut(d: Dir, k: Kernel, d1: Dir, k1: Kernel, n: nat) {
    && (forall m :: m != n ==> (Maps(d1, k1, m) <==> Maps(d, k, m)))
    && (forall m :: m != n && Maps(d, k, m) ==> EntryOf(d1, k1, m) == EntryOf(d, k, m))
  }

  lemma RemappedSame(d: Dir, k: Kernel, d0: Dir, d1: Dir, k1: Kernel, n: nat, e: Pte)
    requires Remapped(d0, k, d1, k1, n, e)
    requires forall m :: Maps(d0, k, m) <==> Maps(d, k, m)
    requires forall m :: Maps(d0, k, m) ==> EntryOf(d0, k, m) == EntryOf(d, k, m)
    ensures SameBut(d, k, d1, k1, n)
  {
    hide Maps, EntryOf;
  }

  /** Is there a page table for directory index `i`. */
  predicate HasTable(d: Dir, k: Kernel, i: nat) {
    i in d.tables || i in k.tables
  }

  /** The state after the entry for page `n` is written. */
  function WithEntry(d: Dir, k: Kernel, n: nat, e: Pte): (Dir, Kernel) {
    if TableOf(n) in k.tables then (d, k.(pages := k.pages[n := e])) else (d.(pages := d.pages[n := e]), k)
  }

  lemma EntryRemaps(d: Dir, k: Kernel, n: nat, e: Pte)
    requires Shaped(d, k) && e.user && (TableOf(n) in d.tables || TableOf(n) in d.exposed)
    ensures var (d1, k1) := WithEntry(d, k, n, e); Remapped(d, k, d1, k1, n, e) && Shaped(d1, k1)
    ensures var (d1, k1) := WithEntry(d, k, n, e); Maps(d1, k1, n) && EntryOf(d1, k1, n) == e
  {
    hide TableOf;
  }

  function OwnerWith(d: Dir, k: Kernel, owner: map<Frame, Place>, n: nat, f: Frame): map<Frame, Place> {
    (if Maps(d, k, n) then owner - {EntryOf(d, k, n).frame} else owner)[f := Page(n)]
  }

  lemma RemapOwns(d: Dir, k: Kernel, d1: Dir, k1: Kernel, owner: map<Frame, Place>, n: nat, e: Pte)
    requires Owns(d, k, owner) && e.frame !in owner && Remapped(d, k, d1, k1, n, e)
    ensures Owns(d1, k1, OwnerWith(d, k, owner, n, e.frame))
    ensures Maps(d, k, n) ==> EntryOf(d, k, n).frame in owner
  {
    hide Maps, EntryOf;
    var owner1 := OwnerWith(d, k, owner, n, e.frame);
    assert Maps(d, k, n) <==> Has(d, k, Page(n));
    forall p | Has(d1, k1, p) ensures FrameAt(d1, k1, p) in owner1 && owner1[FrameAt(d1, k1, p)] == p {
      if p != Page(n) {
        assert Has(d, k, p) && FrameAt(d1, k1, p) == FrameAt(d, k, p);
        if Maps(d, k, n) { assert owner[FrameAt(d, k, Page(n))] == Page(n); }
      }
    }
    forall g | g in owner1 ensures Has(d1, k1, owner1[g]) && FrameAt(d1, k1, owner1[g]) == g {
      if g != e.frame { assert owner1[g] == owner[g] && Has(d, k, owner[g]); }
    }
  }

  lemma RemapPartition(d: Dir, k: Kernel, owner: map<Frame, Place>, n: nat, f: Frame, all: set<Frame>, free: set<Frame>,
                       lost: set<Frame>)
    requires Partition(all, free, owner.Keys, lost, {f}) && (Maps(d, k, n) ==> EntryOf(d, k, n).frame in owner)
    ensures Partition(all, free, OwnerWith(d, k, owner, n, f).Keys,
                      if Maps(d, k, n) then lost + {EntryOf(d, k, n).frame} else lost, {})
  {
    hide Maps, EntryOf;
  }

  lemma HeldIsNotOwned(owner: map<Frame, Place>, f: Frame, all: set<Frame>, free: set<Frame>, lost: set<Frame>)
    requires Partition(all, free, owner.Keys, lost, {f})
    ensures f !in owner
  {
  }

  lemma RemapView(d: Dir, k: Kernel, d1: Dir, k1: Kernel, ram: map<Frame, seq<byte>>, n: nat, e: Pte)
    requires Remapped(d, k, d1, k1, n, e) && e.frame in ram
    ensures View(d1, k1, ram) == View(d, k, ram)[n := Shown(ram[e.frame], e.writable)]
  {
    hide EntryOf;
  }

  /** From `d`, with a table made or exposed in `d0`, to `d1` and `k1` with the entry written. */
  lemma RemapTraced(d: Dir, k: Kernel, d0: Dir, boot: Kernel, trace: seq<nat>, lost: set<Frame>, n: nat, e: Pte)
    requires Traced(d, k, boot, trace, lost) && e.user
    requires forall m :: Maps(d0, k, m) <==> Maps(d, k, m)
    requires d0.exposed == if TableOf(n) in k.tables then d.exposed + {TableOf(n)} else d.exposed
    requires var (d1, k1) := WithEntry(d0, k, n, e); Remapped(d0, k, d1, k1, n, e)
    ensures var (d1, k1) := WithEntry(d0, k, n, e);
            Traced(d1, k1, boot, trace + [n], if Maps(d, k, n) then lost + {EntryOf(d, k, n).frame} else lost)
  {
    hide Maps, EntryOf, TableOf;
    var (d1, k1) := WithEntry(d0, k, n, e);
    forall m ensures m in trace + [n] <==> m in trace || m == n {
    }
    DistinctMore(trace, n);
    if TableOf(n) in k.tables {
      assert TableOf(n) in d1.exposed && k1.pages[n].user;
      assert n in trace + [n];
    }
  }

  lemma DistinctMore(s: seq<nat>, n: nat)
    ensures Distinct(s + [n]) <==> Distinct(s) && n !in s
  {
    if Distinct(s + [n]) {
      forall i, j | 0 <= i < j < |s| ensures s[i] != s[j] {
        assert (s + [n])[i] != (s + [n])[j];
      }
      forall i | 0 <= i < |s| ensures s[i] != n {
        assert (s + [n])[i] != (s + [n])[|s|];
      }
    }
  }

  /** Exposing a mirrored table shows nothing yet: its entries are the kernel's. */
  lemma ExposeKeeps(d: Dir, k: Kernel, owner: map<Frame, Place>, i: nat)
    requires Owns(d, k, owner) && Shaped(d, k) && i in k.tables
    ensures var d1 := d.(exposed := d.exposed + {i});
            && Owns(d1, k, owner) && Shaped(d1, k)
            && (forall n :: Maps(d1, k, n) <==> Maps(d, k, n))
            && (forall n :: Maps(d, k, n) ==> EntryOf(d1, k, n) == EntryOf(d, k, n))
  {
    hide TableOf;
    var d1 := d.(exposed := d.exposed + {i});
    assert forall p :: Has(d1, k, p) <==> Has(d, k, p);
    assert forall p :: Has(d, k, p) ==> FrameAt(d1, k, p) == FrameAt(d, k, p);
  }

  lemma TableOwns(d: Dir, k: Kernel, owner: map<Frame, Place>, i: nat, f: Frame)
    requires Owns(d, k, owner) && Shaped(d, k) && f !in owner && FIRST_USER_TABLE <= i < DIRECTORY_ENTRIES
    requires i !in d.tables && i !in k.tables
    ensures var d1 := d.(tables := d.tables[i := f]); Owns(d1, k, owner[f := Table(i)]) && Shaped(d1, k)
    ensures forall n :: Maps(d.(tables := d.tables[i := f]), k, n) <==> Maps(d, k, n)
  {
    hide TableOf;
    var d1 := d.(tables := d.tables[i := f]);
    forall p | Has(d1, k, p)
      ensures FrameAt(d1, k, p) in owner[f := Table(i)] && owner[f := Table(i)][FrameAt(d1, k, p)] == p
    {
      if p != Table(i) { assert Has(d, k, p); }
    }
  }

  /** Writing a page the directory does not map changes no view. */
  lemma ViewFrame(d: Dir, k: Kernel, owner: map<Frame, Place>, ram: map<Frame, seq<byte>>, f: Frame, b: seq<byte>)
    requires Owns(d, k, owner) && (f in owner ==> !owner[f].Page?)
    ensures View(d, k, ram[f := b]) == View(d, k, ram)
  {
    hide EntryOf;
    forall n | Maps(d, k, n) ensures EntryOf(d, k, n).frame != f {
      assert Has(d, k, Page(n));
    }
  }

  /** Writing a mapped page changes what is seen there and nowhere else. */
  lemma ViewWrite(d: Dir, k: Kernel, owner: map<Frame, Place>, ram: map<Frame, seq<byte>>, n: nat, b: seq<byte>)
    requires Owns(d, k, owner) && Maps(d, k, n)
    ensures var e := EntryOf(d, k, n); View(d, k, ram[e.frame := b]) == View(d, k, ram)[n := Shown(b, e.writable)]
  {
    hide EntryOf;
    forall m | Maps(d, k, m) && m != n ensures EntryOf(d, k, m).frame != EntryOf(d, k, n).frame {
      assert Has(d, k, Page(m)) && Has(d, k, Page(n));
    }
  }

  lemma ViewSame(d: Dir, d1: Dir, k: Kernel, ram: map<Frame, seq<byte>>)
    requires d1.pages == d.pages && forall n :: Maps(d1, k, n) <==> Maps(d, k, n)
    ensures View(d1, k, ram) == View(d, k, ram)
  {
  }

  // ---- tearing down ------------------------------------------------------------------------

  /** The pages paging_destroy_user_pd gives to the allocator: an exposed mirrored table no longer equals the
      kernel's directory entry, so it is taken for the process's own. */
  predicate Reached(d: Dir, k: Kernel, p: Place)
  {
    match p
    case Root => true
    case Table(i) => i in d.tables || (i in k.tables && i in d.exposed)
    case Page(n) => n in d.pages || (n in k.pages && TableOf(n) in d.exposed)
  }

  function ReachedFrame(d: Dir, k: Kernel, p: Place): Frame
    requires Reached(d, k, p)
  {
    match p
    case Root => d.root
    case Table(i) => if i in d.tables then d.tables[i] else k.tables[i]
    case Page(n) => if n in d.pages then d.pages[n].frame else k.pages[n].frame
  }

  /** Is this page freed when the loop is about to look at entry `j` of table `i`? */
  predicate Visited(p: Place, i: nat, j: nat) {
    match p
    case Root => false
    case Table(t) => t < i
    case Page(n) => n < i * TABLE_ENTRIES + j
  }

  ghost predicate FreedBy(d: Dir, k: Kernel, total: nat, f: Frame, i: nat, j: nat) {
    f < total && exists p :: Reached(d, k, p) && ReachedFrame(d, k, p) == f && Visited(p, i, j)
  }

  lemma NextEntry(d: Dir, k: Kernel, total: nat, f: Frame, i: nat, j: nat)
    requires j < TABLE_ENTRIES
    ensures var p := Page(i * TABLE_ENTRIES + j);
            FreedBy(d, k, total, f, i, j + 1) <==>
            FreedBy(d, k, total, f, i, j) || (f < total && Reached(d, k, p) && ReachedFrame(d, k, p) == f)
  {
    hide Reached, ReachedFrame;
    var p := Page(i * TABLE_ENTRIES + j);
    if FreedBy(d, k, total, f, i, j + 1) {
      var q :| Reached(d, k, q) && ReachedFrame(d, k, q) == f && Visited(q, i, j + 1);
      assert q == p || Visited(q, i, j);
    }
    assert Visited(p, i, j + 1);
  }

  lemma TableReached(d: Dir, k: Kernel, i: nat)
    ensures Reached(d, k, Table(i)) <==> i in d.tables || (i in k.tables && i in d.exposed)
  {
  }

  lemma NextTable(d: Dir, k: Kernel, total: nat, f: Frame, i: nat)
    requires Shaped(d, k)
    ensures var p := Table(i);
            FreedBy(d, k, total, f, i + 1, 0) <==>
            FreedBy(d, k, total, f, i, TABLE_ENTRIES) || (f < total && Reached(d, k, p) && ReachedFrame(d, k, p) == f)
    ensures !Reached(d, k, Table(i)) ==> (FreedBy(d, k, total, f, i + 1, 0) <==> FreedBy(d, k, total, f, i, 0))
  {
    if FreedBy(d, k, total, f, i + 1, 0) {
      var q :| Reached(d, k, q) && ReachedFrame(d, k, q) == f && Visited(q, i + 1, 0);
      assert q == Table(i) || Visited(q, i, TABLE_ENTRIES);
      if !Reached(d, k, Table(i)) { assert Visited(q, i, 0); }
    }
    assert Visited(Table(i), i + 1, 0);
    hide Reached, ReachedFrame;
  }

  lemma FirstTable(d: Dir, k: Kernel, total: nat, f: Frame)
    requires Shaped(d, k)
    ensures !FreedBy(d, k, total, f, FIRST_USER_TABLE, 0)
  {
  }

  lemma LastTable(d: Dir, k: Kernel, total: nat, f: Frame)
    requires Shaped(d, k)
    ensures Reached(d, k, Root) && ReachedFrame(d, k, Root) == d.root
    ensures (exists p :: Reached(d, k, p) && ReachedFrame(d, k, p) == f && f < total) <==>
            FreedBy(d, k, total, f, DIRECTORY_ENTRIES, 0) || (f == d.root && f < total)
  {
    assert Reached(d, k, Root) && ReachedFrame(d, k, Root) == d.root;
    forall p | Reached(d, k, p) && p != Root ensures Visited(p, DIRECTORY_ENTRIES, 0) {
    }
    hide Reached, ReachedFrame;
  }

  /** Without an exposed table, what is torn down is what the directory owns, each page for one reason. */
  lemma ReachedIsOwned(d: Dir, k: Kernel, owner: map<Frame, Place>, p: Place)
    requires Owns(d, k, owner) && Shaped(d, k) && d.exposed == {}
    ensures Reached(d, k, p) <==> Has(d, k, p)
    ensures Reached(d, k, p) ==> ReachedFrame(d, k, p) == FrameAt(d, k, p)
    ensures Reached(d, k, p) ==> ReachedFrame(d, k, p) in owner && owner[ReachedFrame(d, k, p)] == p
  {
  }

  lemma NotYetFreed(d: Dir, k: Kernel, owner: map<Frame, Place>, total: nat, p: Place, i: nat, j: nat)
    requires Owns(d, k, owner) && Shaped(d, k) && d.exposed == {} && Reached(d, k, p) && !Visited(p, i, j)
    ensures ReachedFrame(d, k, p) in owner && !FreedBy(d, k, total, ReachedFrame(d, k, p), i, j)
  {
    hide Owns, Shaped, Reached, ReachedFrame, Visited;
    ReachedIsOwned(d, k, owner, p);
    forall q | Reached(d, k, q) && Visited(q, i, j) ensures ReachedFrame(d, k, q) != ReachedFrame(d, k, p) {
      ReachedIsOwned(d, k, owner, q);
    }
  }

  ghost predicate AllReached(d: Dir, k: Kernel, total: nat, was: set<Frame>, free: set<Frame>) {
    forall f :: f in free <==> f in was || (f < total && exists p :: Reached(d, k, p) && ReachedFrame(d, k, p) == f)
  }

  lemma OwnedFreed(d: Dir, k: Kernel, owner: map<Frame, Place>, total: nat, was: set<Frame>, free: set<Frame>)
    requires Owns(d, k, owner) && Shaped(d, k) && d.exposed == {} && AllReached(d, k, total, was, free)
    requires forall f :: f in owner ==> f < total
    ensures free == was + owner.Keys
  {
    hide Owns, Shaped, Reached, ReachedFrame;
    forall p ensures Reached(d, k, p) ==> ReachedFrame(d, k, p) in owner {
      ReachedIsOwned(d, k, owner, p);
    }
    forall f | f in owner ensures f in free {
      OwnerReached(d, k, owner, f);
    }
  }

  lemma OwnerReached(d: Dir, k: Kernel, owner: map<Frame, Place>, f: Frame)
    requires Owns(d, k, owner) && Shaped(d, k) && d.exposed == {} && f in owner
    ensures Reached(d, k, owner[f]) && ReachedFrame(d, k, owner[f]) == f
  {
    assert Has(d, k, owner[f]);
    ReachedIsOwned(d, k, owner, owner[f]);
  }

  /** The kernel's table behind an exposed directory entry is freed, although the kernel still uses it. */
  lemma ExposedFreed(d: Dir, k: Kernel, boot: Kernel, total: nat, all: set<Frame>, was: set<Frame>, free: set<Frame>,
                     i: nat)
    requires Shaped(d, k) && KernelReady(boot, all, total) && k.tables == boot.tables && i in d.exposed
    requires AllReached(d, k, total, was, free)
    ensures i in k.tables && k.tables[i] in free && k.tables[i] !in all
  {
    assert Reached(d, k, Table(i)) && ReachedFrame(d, k, Table(i)) == k.tables[i];
  }

  /** After the tear-down the free pages are all pages exactly when no page was mapped twice, and none in a
      mirrored table. */
  lemma CleanIff(d: Dir, k: Kernel, boot: Kernel, owner: map<Frame, Place>, total: nat, all: set<Frame>,
                 was: set<Frame>, free: set<Frame>, trace: seq<nat>, lost: set<Frame>)
    requires Owns(d, k, owner) && Shaped(d, k) && Partition(all, was, owner.Keys, lost, {})
    requires Tracked(all, total) && KernelReady(boot, all, total) && Traced(d, k, boot, trace, lost)
    requires AllReached(d, k, total, was, free)
    ensures d.exposed == {} ==> free == all - lost
    ensures free == all <==> Clean(trace, boot.tables.Keys)
  {
    if d.exposed == {} {
      OwnedFreed(d, k, owner, total, was, free);
    } else {
      var i :| i in d.exposed;
      ExposedFreed(d, k, boot, total, all, was, free, i);
    }
    hide Owns, Shaped, KernelReady, AllReached, Maps;
  }

  class Memory {
    /** The allocator's bitmap covers pages below `total`. */
    const total: nat
    /** The kernel's tables as the kernel made them. */
    ghost const boot: Kernel
    /** Were the free pages one run when the directory was made. */
    ghost const unbroken: bool
    var free: set<Frame>
    var ram: map<Frame, seq<byte>>
    var kernel: Kernel
    var dir: Dir
    /** The inverse of `dir`. */
    ghost var owner: map<Frame, Place>
    /** Pages whose only mapping was overwritten: nothing refers to them, and nobody will free them. */
    ghost var lost: set<Frame>
    /** The numbers of the pages mapped so far, in order. */
    ghost var trace: seq<nat>
    /** How often, since the directory was made, a page was freed that was free already. */
    ghost var ignored: nat

    /** The directory is sound, and free, owned and lost pages are `all` pages but those in `held`. */
    ghost predicate Sound(all: set<Frame>, held: set<Frame>)
      reads this
    {
      && Owns(dir, kernel, owner) && Shaped(dir, kernel)
      && Partition(all, free, owner.Keys, lost, held)
      && Tracked(all, total) && KernelReady(boot, all, total) && ignored == 0
      && (unbroken ==> OneRun(free))
    }

    ghost predicate Accounts(all: set<Frame>, held: set<Frame>)
      reads this
    {
      Sound(all, held) && Traced(dir, kernel, boot, trace, lost)
    }

    /** pmm_alloc_page: the lowest free page; fails exactly when no page is free. */
    method AllocPage() returns (f: Option<Frame>)
      requires Tracked(free, total)
      modifies `free
      ensures f.None? <==> Pages(old(free)) == 0
      ensures f.Some? ==> f.value in old(free) && free == old(free) - {f.value} && Pages(free) == Pages(old(free)) - 1
      ensures f.Some? ==> forall p :: p in old(free) ==> f.value <= p
      ensures f.None? ==> free == old(free)
    {
      var p := 1;
      while p < total
        invariant p >= 1 && free == old(free)
        invariant forall q :: q in free ==> q >= p
      {
        if p in free {
          free := free - {p};
          return Some(p);
        }
        p := p + 1;
      }
      assert forall q :: q !in free;
      f := None;
    }

    /** pmm_free_page: a page outside the bitmap, or free already, is ignored. */
    method FreePage(f: Frame)
      modifies `free, `ignored
      ensures free == if f < total then old(free) + {f} else old(free)
      ensures ignored == old(ignored) + if f in old(free) then 1 else 0
      ensures f !in old(free) && f < total ==> Pages(free) == Pages(old(free)) + 1
    {
      if f < total && f !in free {
        free := free + {f};
      } else if f in free {
        ignored := ignored + 1;
      }
    }

    /** paging_create_user_pd: no page of its own, and the kernel's tables; or a failure when no page is free. */
    method CreateDir(ghost all: set<Frame>) returns (ok: bool)
      requires free == all && Tracked(all, total) && KernelReady(boot, all, total) && kernel == boot
      requires unbroken ==> OneRun(all)
      modifies `free, `ram, `dir, `owner, `lost, `trace, `ignored
      ensures trace == [] && ignored == 0 && (!ok ==> free == all)
      ensures ok ==> Accounts(all, {}) && View(dir, kernel, ram) == map[]
      ensures if ok then Pages(free) == Pages(all) - 1 else Pages(all) == 0
    {
      hide Pages, TableOf, Owns, Shaped, Traced, View, OneRun;
      trace, ignored := [], 0;
      var p := AllocPage();
      if p.None? { return false; }
      if unbroken { RunGoesOn(all, p.value); }
      ram := ram[p.value := Zeros(PAGE_SIZE)];
      EmptyDir(p.value, kernel, ram);
      dir := Dir(p.value, map[], map[], {});
      owner, lost := map[p.value := Root], {};
      ok := true;
    }

    /** The part of do_map_pd that makes sure there is a page table and that the process may use it. A mirrored
        table is there already, and gets the user bit. */
    method EnsureTable(i: nat, ghost all: set<Frame>, ghost held: set<Frame>) returns (ok: bool)
      requires Sound(all, held) && FIRST_USER_TABLE <= i < DIRECTORY_ENTRIES
      modifies `free, `ram, `dir, `owner
      ensures ok ==> Sound(all, held) && Pages(free) >= Pages(old(free)) - 1 && HasTable(dir, kernel, i)
      ensures free <= old(free) && (old(HasTable(dir, kernel, i)) ==> free == old(free))
      ensures ok ==> dir.pages == old(dir.pages) && dir.root == old(dir.root)
      ensures ok ==> if i in kernel.tables then i in dir.exposed && dir.exposed == old(dir.exposed) + {i}
                     else i in dir.tables && dir.exposed == old(dir.exposed)
      ensures forall n :: Maps(dir, kernel, n) <==> Maps(old(dir), kernel, n)
      ensures forall n :: Maps(dir, kernel, n) ==> EntryOf(dir, kernel, n) == EntryOf(old(dir), kernel, n)
      ensures !ok ==> Pages(old(free)) == Pages(free) == 0 && free == old(free)
      ensures ok <==> old(HasTable(dir, kernel, i)) || Pages(old(free)) > 0
      ensures !ok ==> dir == old(dir) && owner == old(owner) && ram == old(ram)
      ensures forall f :: f in held ==> (f in ram <==> f in old(ram)) && (f in ram ==> ram[f] == old(ram)[f])
      ensures View(dir, kernel, ram) == old(View(dir, kernel, ram))
    {
      hide Pages, Owns, Shaped, View, KernelReady, OneRun;
      assert Tracked(free, total);
      if i in kernel.tables {
        ExposeKeeps(dir, kernel, owner, i);
        ViewSame(dir, dir.(exposed := dir.exposed + {i}), kernel, ram);
        dir := dir.(exposed := dir.exposed + {i});
        return true;
      }
      if i in dir.tables {
        return true;
      }
      var t := AllocPage();
      if t.None? { return false; }
      if unbroken { RunGoesOn(old(free), t.value); }
      ViewFrame(dir, kernel, owner, ram, t.value, Zeros(PAGE_SIZE));
      TableOwns(dir, kernel, owner, i, t.value);
      ViewSame(dir, dir.(tables := dir.tables[i := t.value]), kernel, ram[t.value := Zeros(PAGE_SIZE)]);
      ram := ram[t.value := Zeros(PAGE_SIZE)];
      dir := dir.(tables := dir.tables[i := t.value]);
      owner := owner[t.value := Table(i)];
      ok := true;
    }

    /** paging_map_in, for a page of the process. A mapping that was there before is overwritten without a
        word; the entry in a mirrored table is seen in every directory. */
    method MapIn(n: nat, f: Frame, writable: bool, ghost all: set<Frame>) returns (ok: bool)
      requires Accounts(all, {f}) && f in ram && FIRST_USER_TABLE <= TableOf(n) < DIRECTORY_ENTRIES
      modifies this
      ensures ok ==> Accounts(all, {}) && trace == old(trace) + [n] && f in ram
      ensures ok ==> View(dir, kernel, ram) == old(View(dir, kernel, ram))[n := Shown(old(ram)[f], writable)]
      ensures ok ==> Maps(dir, kernel, n) && EntryOf(dir, kernel, n) == Pte(f, writable, true)
      ensures ok ==> kernel == if TableOf(n) in old(kernel).tables
                               then old(kernel).(pages := old(kernel).pages[n := Pte(f, writable, true)])
                               else old(kernel)
      ensures ok ==> lost == if Maps(old(dir), old(kernel), n)
                             then old(lost) + {EntryOf(old(dir), old(kernel), n).frame} else old(lost)
      ensures !ok ==> Accounts(all, {f}) && trace == old(trace) && Pages(old(free)) == Pages(free) == 0
      ensures ok ==> Pages(free) >= Pages(old(free)) - 1
      ensures ok ==> SameBut(old(dir), old(kernel), dir, kernel, n) && HasTable(dir, kernel, TableOf(n))
      ensures free <= old(free) && (old(HasTable(dir, kernel, TableOf(n))) ==> free == old(free))
      ensures ok <==> old(HasTable(dir, kernel, TableOf(n))) || Pages(old(free)) > 0
    {
      hide Pages, Owns, Shaped, View, Traced, KernelReady, TableOf, Maps, EntryOf, Remapped, OneRun, SameBut,
           Partition, OwnerWith;
      ok := EnsureTable(TableOf(n), all, {f});
      if !ok { return; }
      ghost var e, d := Pte(f, writable, true), dir;
      ghost var (d1, k1) := WithEntry(d, kernel, n, e);
      EntryRemaps(d, kernel, n, e);
      HeldIsNotOwned(owner, f, all, free, lost);
      RemapOwns(d, kernel, d1, k1, owner, n, e);
      RemapPartition(d, kernel, owner, n, f, all, free, lost);
      RemapView(d, kernel, d1, k1, ram, n, e);
      RemappedSame(old(dir), kernel, d, d1, k1, n, e);
      RemapTraced(old(dir), kernel, d, boot, trace, lost, n, e);
      owner, trace := OwnerWith(d, kernel, owner, n, f), trace + [n];
      lost := if Maps(d, kernel, n) then lost + {EntryOf(d, kernel, n).frame} else lost;
      if TableOf(n) in kernel.tables {
        kernel := kernel.(pages := kernel.pages[n := Pte(f, writable, true)]);
      } else {
        dir := dir.(pages := dir.pages[n := Pte(f, writable, true)]);
      }
    }

    ghost predicate FreedTo(was: set<Frame>, i: nat, j: nat)
      reads this
    {
      forall f :: f in free <==> f in was || FreedBy(dir, kernel, total, f, i, j)
    }

    ghost predicate NoneTwice()
      reads this
    {
      dir.exposed == {} ==> ignored == 0
    }

    /** One step of the tear-down: the page for place `p`, if it is there. */
    method Release(p: Place, ghost was: set<Frame>, ghost i: nat, ghost j: nat)
      requires Owns(dir, kernel, owner) && Shaped(dir, kernel) && owner.Keys !! was
      requires FreedTo(was, i, j) && !Visited(p, i, j) && Reached(dir, kernel, p)
      modifies `free, `ignored
      ensures var f := ReachedFrame(dir, kernel, p); free == if f < total then old(free) + {f} else old(free)
      ensures dir.exposed == {} ==> ignored == old(ignored)
    {
      hide Owns, Shaped, Reached, ReachedFrame, FreedBy, Visited;
      if dir.exposed == {} { NotYetFreed(dir, kernel, owner, total, p, i, j); }
      FreePage(ReachedFrame(dir, kernel, p));
    }

    /** paging_destroy_user_pd frees what it reaches. With no mirrored table exposed that is every page of the
        directory, each once; otherwise live tables of the kernel are among it. */
    method Destroy(ghost all: set<Frame>)
      requires Accounts(all, {})
      modifies `free, `ignored
      ensures AllReached(dir, kernel, total, old(free), free)
      ensures dir.exposed == {} ==> free == all - lost && ignored == 0
      ensures forall i :: i in dir.exposed ==> i in kernel.tables && kernel.tables[i] in free
      ensures free == all <==> Clean(trace, boot.tables.Keys)
    {
      hide Pages, Owns, Shaped, KernelReady, Traced, TableOf, Reached, ReachedFrame, FreedBy;
      ghost var was := free;
      forall f ensures !FreedBy(dir, kernel, total, f, FIRST_USER_TABLE, 0) {
        FirstTable(dir, kernel, total, f);
      }
      for i := FIRST_USER_TABLE to DIRECTORY_ENTRIES
        invariant FreedTo(was, i, 0) && NoneTwice()
      {
        TableReached(dir, kernel, i);
        forall f { NextTable(dir, kernel, total, f, i); }
        if i in dir.tables || (i in kernel.tables && i in dir.exposed) {
          for j := 0 to TABLE_ENTRIES
            invariant FreedTo(was, i, j) && NoneTwice()
          {
            forall f { NextEntry(dir, kernel, total, f, i, j); }
            var p := Page(i * TABLE_ENTRIES + j);
            if Reached(dir, kernel, p) { Release(p, was, i, j); }
          }
          Release(Table(i), was, i, TABLE_ENTRIES);
        }
      }
      forall f { LastTable(dir, kernel, total, f); }
      LastTable(dir, kernel, total, dir.root);
      Release(Root, was, DIRECTORY_ENTRIES, 0);
      CleanIff(dir, kernel, boot, owner, total, all, was, free, trace, lost);
      forall i | i in dir.exposed ensures i in kernel.tables && kernel.tables[i] in free {
        TracedTables(dir, kernel, boot, trace, lost);
        ExposedFreed(dir, kernel, boot, total, all, was, free, i);
      }
    }
  }
}
