/** The resolver's TTL cache on values (kernel/dns.c), and what it promises over whole runs. */
module DnsCacheModel {
  import opened Bytes

  const SLOTS := 16
  const NAME_MAX := 63
  const MIN_TTL := 30
  const MAX_TTL := 3600

  type Ip = seq<byte>

  datatype Entry = Entry(inUse: bool, name: CString, ip: Ip, expires: uint32)

  datatype Cache = Cache(entries: seq<Entry>, lookups: nat, hits: nat, misses: nat)

  function Empty(): (c: Cache)
    ensures |c.entries| == SLOTS
  {
    Cache(seq(SLOTS, _ => Entry(false, [], [], 0)), 0, 0, 0)
  }

  predicate Live(e: Entry, now: uint32) {
    e.inUse && e.expires > now
  }

  /** The first live entry for `name` from `i` on; the number of entries when there is none. */
  function Find(es: seq<Entry>, name: CString, now: uint32, i: nat): (k: nat)
    requires i <= |es|
    ensures i <= k <= |es|
    ensures k < |es| ==> Live(es[k], now) && es[k].name == name
    ensures forall j :: i <= j < k ==> !(Live(es[j], now) && es[j].name == name)
    decreases |es| - i
  {
    if i == |es| || (Live(es[i], now) && es[i].name == name) then i else Find(es, name, now, i + 1)
  }

  /** The first slot that is unused or expired; the number of slots when all are live. */
  function FreeSlot(es: seq<Entry>, now: uint32, i: nat): (k: nat)
    requires i <= |es|
    ensures i <= k <= |es|
    ensures k < |es| ==> !Live(es[k], now)
    ensures forall j :: i <= j < k ==> Live(es[j], now)
    decreases |es| - i
  {
    if i == |es| || !Live(es[i], now) then i else FreeSlot(es, now, i + 1)
  }

  /** What the 64-byte name field keeps. */
  function Cut(name: CString): CString {
    if |name| <= NAME_MAX then name else name[..NAME_MAX]
  }

  function Clamp(ttl: uint32): uint32 {
    if ttl < MIN_TTL then MIN_TTL else if ttl > MAX_TTL then MAX_TTL else ttl
  }

  /** cache_store: a full table drops the new entry. */
  function Store(es: seq<Entry>, name: CString, ip: Ip, ttl: uint32, now: uint32): (r: seq<Entry>)
    ensures |r| == |es|
  {
    var k := FreeSlot(es, now, 0);
    if k == |es| then es else es[k := Entry(true, Cut(name), ip, Wrap32(now + Clamp(ttl)))]
  }

  /** What the network said, if a lookup got that far: the address and its TTL. */
  datatype Answer = Answer(ip: Ip, ttl: uint32)

  /** One call of dns_resolve: the clock when the cache is searched and when an answer is stored. */
  datatype Call = Call(name: CString, searched: uint32, stored: uint32, network: Option<Answer>)

  predicate Hits(es: seq<Entry>, c: Call) {
    Find(es, c.name, c.searched, 0) < |es|
  }

  /** dns_resolve around the network: the new cache, and the address if there is one. */
  function Resolve(m: Cache, c: Call): (Cache, Option<Ip>) {
    var m1 := m.(lookups := m.lookups + 1);
    var k := Find(m.entries, c.name, c.searched, 0);
    if k < |m.entries| then (m1.(hits := m.hits + 1), Some(m.entries[k].ip))
    else if c.network.None? then (m1.(misses := m.misses + 1), None)
    else
      (m1.(misses := m.misses + 1,
           entries := Store(m.entries, c.name, c.network.value.ip, c.network.value.ttl, c.stored)),
       Some(c.network.value.ip))
  }

  function Run(cs: seq<Call>): Cache {
    if cs == [] then Empty() else Resolve(Run(cs[..|cs| - 1]), cs[|cs| - 1]).0
  }

  // ---- runs the statements are about -------------------------------------------------------

  /** When the last call of a run was over. */
  function Clock(cs: seq<Call>): uint32 {
    if cs == [] then 0 else cs[|cs| - 1].stored
  }

  /** The clock never goes back and is far from wrapping. */
  predicate Ordered(cs: seq<Call>) {
    cs == [] ||
    (Ordered(cs[..|cs| - 1]) && Clock(cs[..|cs| - 1]) <= cs[|cs| - 1].searched <= cs[|cs| - 1].stored
     && cs[|cs| - 1].stored < 0x1_0000_0000 - MAX_TTL)
  }

  /** The network answered only for names that fit their field. */
  predicate ShortAnswers(cs: seq<Call>) {
    forall i :: 0 <= i < |cs| && cs[i].network.Some? ==> |cs[i].name| <= NAME_MAX
  }

  /** The last call of the run that got an address for `name` from the network; -1 if none did. */
  function LastFetch(cs: seq<Call>, name: CString): (i: int)
    ensures -1 <= i < |cs|
    ensures i >= 0 ==> cs[i].name == name && cs[i].network.Some?
  {
    if cs == [] then -1
    else
      var c, before := cs[|cs| - 1], cs[..|cs| - 1];
      if c.name == name && c.network.Some? && !Hits(Run(before).entries, c) then |cs| - 1 else LastFetch(before, name)
  }

  // ---- the invariant -----------------------------------------------------------------------

  /** A live entry holds what the last fetch of its name brought. */
  ghost predicate Fetched(cs: seq<Call>, e: Entry) {
    var i := LastFetch(cs, e.name);
    && i >= 0
    && e.ip == cs[i].network.value.ip
    && e.expires == cs[i].stored + Clamp(cs[i].network.value.ttl)
  }

  ghost predicate Sound(cs: seq<Call>, now: uint32) {
    var es := Run(cs).entries;
    && |es| == SLOTS
    && (forall i :: 0 <= i < |es| && Live(es[i], now) ==> Fetched(cs, es[i]))
    && (forall i, j :: 0 <= i < j < |es| && Live(es[i], now) && Live(es[j], now) ==> es[i].name != es[j].name)
  }

  /** Time only makes entries die. */
  lemma SoundLater(cs: seq<Call>, now: uint32, later: uint32)
    requires Sound(cs, now) && now <= later
    ensures Sound(cs, later)
  {
  }

  lemma FetchedStep(cs: seq<Call>, c: Call, e: Entry)
    requires Fetched(cs, e)
    requires !(c.name == e.name && c.network.Some? && !Hits(Run(cs).entries, c))
    ensures Fetched(cs + [c], e)
  {
    assert (cs + [c])[..|cs|] == cs;
  }

  lemma RunStep(cs: seq<Call>, c: Call)
    ensures Run(cs + [c]) == Resolve(Run(cs), c).0
  {
    assert (cs + [c])[..|cs|] == cs;
  }

  lemma NoFetchKeeps(cs: seq<Call>, c: Call)
    requires Sound(cs, c.searched) && c.searched <= c.stored
    requires Hits(Run(cs).entries, c) || c.network.None?
    ensures Sound(cs + [c], c.stored)
  {
    RunStep(cs, c);
    var es := Run(cs).entries;
    assert Run(cs + [c]).entries == es;
    forall i | 0 <= i < |es| && Live(es[i], c.stored) ensures Fetched(cs + [c], es[i]) {
      FetchedStep(cs, c, es[i]);
    }
    hide Run, Fetched, Hits;
  }

  lemma NewEntry(cs: seq<Call>, c: Call)
    requires c.network.Some? && !Hits(Run(cs).entries, c) && |c.name| <= NAME_MAX
    requires c.stored < 0x1_0000_0000 - MAX_TTL
    ensures var a := c.network.value;
            var e := Entry(true, Cut(c.name), a.ip, Wrap32(c.stored + Clamp(a.ttl)));
            Fetched(cs + [c], e) && e.name == c.name
  {
    FetchIsLast(cs, c);
    hide LastFetch, Run, Hits;
  }

  lemma {:induction false} FetchIsLast(cs: seq<Call>, c: Call)
    requires c.network.Some? && !Hits(Run(cs).entries, c)
    ensures LastFetch(cs + [c], c.name) == |cs|
  {
    assert (cs + [c])[..|cs|] == cs;
    hide Run, Hits;
  }

  /** On a miss, no entry that is still live when the answer is stored has the name. */
  lemma OldEntry(cs: seq<Call>, c: Call, i: nat)
    requires Sound(cs, c.searched) && c.searched <= c.stored && !Hits(Run(cs).entries, c)
    requires i < |Run(cs).entries| && Live(Run(cs).entries[i], c.stored)
    ensures Run(cs).entries[i].name != c.name && Fetched(cs + [c], Run(cs).entries[i])
  {
    assert Live(Run(cs).entries[i], c.searched);
    hide Run, Fetched;
    FetchedStep(cs, c, Run(cs).entries[i]);
  }

  lemma FetchKeeps(cs: seq<Call>, c: Call)
    requires Sound(cs, c.searched) && c.searched <= c.stored < 0x1_0000_0000 - MAX_TTL
    requires !Hits(Run(cs).entries, c) && c.network.Some? && |c.name| <= NAME_MAX
    ensures Sound(cs + [c], c.stored)
  {
    hide Run, Fetched, LastFetch, Hits;
    RunStep(cs, c);
    NewEntry(cs, c);
    var es, rs := Run(cs).entries, Run(cs + [c]).entries;
    forall i | 0 <= i < |es| && Live(es[i], c.stored) ensures es[i].name != c.name && Fetched(cs + [c], es[i]) {
      OldEntry(cs, c, i);
    }
    assert rs == Store(es, c.name, c.network.value.ip, c.network.value.ttl, c.stored) by { MissStores(Run(cs), c); }
    hide FreeSlot, Resolve;
  }

  lemma MissStores(m: Cache, c: Call)
    requires !Hits(m.entries, c) && c.network.Some?
    ensures Resolve(m, c).0.entries == Store(m.entries, c.name, c.network.value.ip, c.network.value.ttl, c.stored)
  {
  }

  lemma {:induction false} RunSound(cs: seq<Call>)
    requires Ordered(cs) && ShortAnswers(cs)
    ensures Sound(cs, Clock(cs))
  {
    if cs != [] {
      var n := |cs| - 1;
      var before, c := cs[..n], cs[n];
      assert cs == before + [c];
      RunSound(before);
      SoundLater(before, Clock(before), c.searched);
      hide Sound, Run, Hits;
      if Hits(Run(before).entries, c) || c.network.None? {
        NoFetchKeeps(before, c);
      } else {
        FetchKeeps(before, c);
      }
    }
  }

  // ---- the statements ----------------------------------------------------------------------

  /** At time `now`, not before it was stored, the answer of call `c` is younger than 30 seconds, or than both its
      own TTL and an hour. */
  predicate Young(c: Call, now: uint32)
    requires c.network.Some?
  {
    var age := now - c.stored;
    age < 30 || (age < c.network.value.ttl && age < 3600)
  }

  lemma YoungIs(c: Call, now: uint32)
    requires c.network.Some?
    ensures Young(c, now) <==> now < c.stored + Clamp(c.network.value.ttl)
  {
  }

  /** At any time after a run there is at most one live entry for a name, and a lookup that hits returns the
      address the most recent successful network lookup of that name got, which is still young. */
  lemma HitIsFreshAndLast(cs: seq<Call>, c: Call)
    requires Ordered(cs) && ShortAnswers(cs) && Clock(cs) <= c.searched && Hits(Run(cs).entries, c)
    ensures var i := LastFetch(cs, c.name);
            && i >= 0
            && Resolve(Run(cs), c).1 == Some(cs[i].network.value.ip)
            && Young(cs[i], c.searched)
    ensures var es, k := Run(cs).entries, Find(Run(cs).entries, c.name, c.searched, 0);
            forall j :: 0 <= j < |es| && j != k && Live(es[j], c.searched) ==> es[j].name != c.name
  {
    RunSound(cs);
    SoundLater(cs, Clock(cs), c.searched);
    hide Run, LastFetch;
    YoungIs(cs[LastFetch(cs, c.name)], c.searched);
  }

  // ---- how long an answer is served --------------------------------------------------------

  /** Call `k` asked the network, got an answer, and found room for it among the 16 entries. */
  ghost predicate Stores(cs: seq<Call>, k: nat)
    requires k < |cs|
  {
    && !Hits(Run(cs[..k]).entries, cs[k]) && cs[k].network.Some?
    && exists i :: 0 <= i < |Run(cs[..k]).entries| && i < 16 && !Live(Run(cs[..k]).entries[i], cs[k].stored)
  }

  /** The first 63 characters. */
  function FirstPart(name: CString): CString {
    if |name| > 63 then name[..63] else name
  }

  /** The entry a fetch makes. */
  function EntryFor(c: Call): Entry
    requires c.network.Some?
  {
    Entry(true, Cut(c.name), c.network.value.ip, Wrap32(c.stored + Clamp(c.network.value.ttl)))
  }

  ghost predicate MadeBy(cs: seq<Call>, e: Entry) {
    exists k :: 0 <= k < |cs| && Stores(cs, k) && e == EntryFor(cs[k])
  }

  /** Every entry comes from a call that stored it, and every stored answer is there while it is young. */
  ghost predicate Traced(cs: seq<Call>) {
    var es := Run(cs).entries;
    && |es| == 16
    && (forall i :: 0 <= i < |es| && es[i].inUse ==> MadeBy(cs, es[i]))
    && (forall k :: 0 <= k < |cs| && Stores(cs, k) && Young(cs[k], Clock(cs)) ==> EntryFor(cs[k]) in es)
  }

  lemma StoresBefore(cs: seq<Call>, c: Call, k: nat)
    requires k < |cs|
    ensures Stores(cs + [c], k) <==> Stores(cs, k)
  {
    assert (cs + [c])[..k] == cs[..k];
    hide Run, Hits;
  }

  lemma MadeEarlier(cs: seq<Call>, c: Call, e: Entry)
    requires MadeBy(cs, e)
    ensures MadeBy(cs + [c], e)
  {
    hide Run, Hits, EntryFor;
    var k :| 0 <= k < |cs| && Stores(cs, k) && e == EntryFor(cs[k]);
    StoresBefore(cs, c, k);
  }

  /** What one call does to the table: nothing, or a new entry in a slot that was not live. */
  lemma CallStores(cs: seq<Call>, c: Call) returns (i: nat)
    requires |Run(cs).entries| == 16
    ensures Stores(cs + [c], |cs|) ==>
              && i < 16 && !Live(Run(cs).entries[i], c.stored)
              && Run(cs + [c]).entries == Run(cs).entries[i := EntryFor(c)]
    ensures !Stores(cs + [c], |cs|) ==> Run(cs + [c]).entries == Run(cs).entries
  {
    assert (cs + [c])[..|cs|] == cs;
    RunStep(cs, c);
    i := FreeSlot(Run(cs).entries, c.stored, 0);
    hide Run;
  }

  lemma OrderedMore(cs: seq<Call>, c: Call)
    requires Ordered(cs + [c])
    ensures Ordered(cs) && Clock(cs) <= c.searched <= c.stored == Clock(cs + [c]) && c.stored < 0x1_0000_0000 - MAX_TTL
  {
    assert (cs + [c])[..|cs|] == cs;
  }

  lemma {:induction false} StoredInOrder(cs: seq<Call>, k: nat)
    requires Ordered(cs) && k < |cs|
    ensures cs[k].stored <= Clock(cs) && cs[k].stored < 0x1_0000_0000 - MAX_TTL
  {
    if k < |cs| - 1 { StoredInOrder(cs[..|cs| - 1], k); }
  }

  /** A young answer's entry is live, and one that is not young is not. */
  lemma LiveWhileYoung(c: Call, now: uint32)
    requires c.network.Some? && c.stored < 0x1_0000_0000 - MAX_TTL
    ensures Live(EntryFor(c), now) <==> Young(c, now)
  {
    YoungIs(c, now);
  }

  lemma TracedOld(cs: seq<Call>, c: Call, k: nat, i: nat)
    requires Ordered(cs + [c]) && Traced(cs) && k < |cs| && Stores(cs + [c], k) && Young(cs[k], c.stored)
    requires i < 16 && |Run(cs).entries| == 16 && !Live(Run(cs).entries[i], c.stored) && c.network.Some?
    ensures EntryFor(cs[k]) in Run(cs).entries && EntryFor(cs[k]) in Run(cs).entries[i := EntryFor(c)]
  {
    hide Run, EntryFor, Live, Hits;
    StoresBefore(cs, c, k);
    OrderedMore(cs, c);
    StoredInOrder(cs, k);
    LiveWhileYoung(cs[k], c.stored);
    var es := Run(cs).entries;
    var j :| 0 <= j < |es| && es[j] == EntryFor(cs[k]);
    assert es[i := EntryFor(c)][j] == es[j];
  }

  lemma TracedMore(cs: seq<Call>, c: Call)
    requires Ordered(cs + [c]) && Traced(cs)
    ensures Traced(cs + [c])
  {
    hide Run, Stores, EntryFor, Live, Ordered, MadeBy, Young, Clock;
    var i := CallStores(cs, c);
    if i >= 16 { i := 0; }
    OrderedMore(cs, c);
    TracedEntries(cs, c, i);
    TracedStores(cs, c, i);
  }

  lemma NothingTraced()
    ensures Traced([])
  {
  }

  lemma {:induction false} RunTraced(cs: seq<Call>)
    requires Ordered(cs)
    ensures Traced(cs)
  {
    hide *;
    if cs == [] {
      NothingTraced();
    } else {
      var n := |cs| - 1;
      assert cs == cs[..n] + [cs[n]];
      OrderedMore(cs[..n], cs[n]);
      RunTraced(cs[..n]);
      TracedMore(cs[..n], cs[n]);
    }
  }

  lemma TracedEntries(cs: seq<Call>, c: Call, i: nat)
    requires Traced(cs) && i < 16
    requires Stores(cs + [c], |cs|) ==> Run(cs + [c]).entries == Run(cs).entries[i := EntryFor(c)]
    requires !Stores(cs + [c], |cs|) ==> Run(cs + [c]).entries == Run(cs).entries
    ensures var es := Run(cs + [c]).entries;
            |es| == 16 && forall j :: 0 <= j < |es| && es[j].inUse ==> MadeBy(cs + [c], es[j])
  {
    hide Run, EntryFor;
    var es := Run(cs + [c]).entries;
    forall j | 0 <= j < |es| && es[j].inUse ensures MadeBy(cs + [c], es[j]) {
      if Stores(cs + [c], |cs|) && j == i {
        assert es[j] == EntryFor((cs + [c])[|cs|]);
      } else {
        MadeEarlier(cs, c, es[j]);
      }
    }
  }

  lemma TracedStores(cs: seq<Call>, c: Call, i: nat)
    requires Ordered(cs + [c]) && Traced(cs) && i < 16
    requires Stores(cs + [c], |cs|) ==>
               !Live(Run(cs).entries[i], c.stored) && Run(cs + [c]).entries == Run(cs).entries[i := EntryFor(c)]
    requires !Stores(cs + [c], |cs|) ==> Run(cs + [c]).entries == Run(cs).entries
    ensures forall k :: 0 <= k < |cs| + 1 && Stores(cs + [c], k) && Young((cs + [c])[k], c.stored) ==>
                          EntryFor((cs + [c])[k]) in Run(cs + [c]).entries
  {
    hide Run, EntryFor, Live;
    OrderedMore(cs, c);
    forall k | 0 <= k < |cs| + 1 && Stores(cs + [c], k) && Young((cs + [c])[k], c.stored)
      ensures EntryFor((cs + [c])[k]) in Run(cs + [c]).entries
    {
      if k == |cs| {
        assert Run(cs + [c]).entries[i] == EntryFor(c);
      } else if Stores(cs + [c], |cs|) {
        TracedOld(cs, c, k, i);
      } else {
        StoresBefore(cs, c, k);
      }
    }
  }

  lemma EntryName(c: Call)
    requires c.network.Some?
    ensures EntryFor(c).name == FirstPart(c.name) && EntryFor(c).ip == c.network.value.ip && EntryFor(c).inUse
  {
  }

  lemma FoundEntry(es: seq<Entry>, q: Call) returns (i: nat)
    requires Hits(es, q)
    ensures i < |es| && Live(es[i], q.searched) && es[i].inUse && es[i].name == q.name
    ensures forall m: Cache :: m.entries == es ==> Resolve(m, q).1 == Some(es[i].ip)
  {
    i := Find(es, q.name, q.searched, 0);
  }

  lemma LiveEntryHits(es: seq<Entry>, q: Call, e: Entry)
    requires e in es && Live(e, q.searched) && e.name == q.name
    ensures Hits(es, q)
  {
    var i :| 0 <= i < |es| && es[i] == e;
  }

  lemma StoredCall(cs: seq<Call>, k: nat)
    requires k < |cs| && Stores(cs, k)
    ensures cs[k].network.Some?
  {
    hide Run, Hits;
  }

  /** The call whose answer a lookup returns. */
  lemma HitComesFrom(cs: seq<Call>, q: Call) returns (k: nat)
    requires Ordered(cs) && Hits(Run(cs).entries, q)
    ensures k < |cs| && Stores(cs, k) && cs[k].network.Some? && FirstPart(cs[k].name) == q.name
    ensures Young(cs[k], q.searched) && Resolve(Run(cs), q).1 == Some(cs[k].network.value.ip)
  {
    hide *;
    RunTraced(cs);
    var i := FoundEntry(Run(cs).entries, q);
    k := Maker(cs, i);
    StoredCall(cs, k);
    StoredInOrder(cs, k);
    LiveWhileYoung(cs[k], q.searched);
    EntryName(cs[k]);
  }

  lemma Maker(cs: seq<Call>, i: nat) returns (k: nat)
    requires Traced(cs) && i < |Run(cs).entries| && Run(cs).entries[i].inUse
    ensures k < |cs| && Stores(cs, k) && cs[k].network.Some? && Run(cs).entries[i] == EntryFor(cs[k])
  {
    hide Run, Hits, EntryFor, Young, Clock;
    assert MadeBy(cs, Run(cs).entries[i]);
    k :| 0 <= k < |cs| && Stores(cs, k) && Run(cs).entries[i] == EntryFor(cs[k]);
  }

  lemma StillThere(cs: seq<Call>, k: nat, now: uint32)
    requires Traced(cs) && k < |cs| && Stores(cs, k) && cs[k].network.Some? && Young(cs[k], now) && Clock(cs) <= now
    ensures EntryFor(cs[k]) in Run(cs).entries
  {
    assert Young(cs[k], Clock(cs));
    hide Run, Stores, EntryFor, MadeBy, Young;
  }

  lemma YoungHits(cs: seq<Call>, q: Call, k: nat)
    requires Ordered(cs) && Clock(cs) <= q.searched && k < |cs| && Stores(cs, k) && cs[k].network.Some?
    requires FirstPart(cs[k].name) == q.name && Young(cs[k], q.searched)
    ensures Hits(Run(cs).entries, q)
  {
    hide *;
    RunTraced(cs);
    StillThere(cs, k, q.searched);
    StoredInOrder(cs, k);
    LiveWhileYoung(cs[k], q.searched);
    EntryName(cs[k]);
    LiveEntryHits(Run(cs).entries, q, EntryFor(cs[k]));
  }

  /** The lookup is answered by call `k`. */
  ghost predicate Answers(cs: seq<Call>, k: nat, q: Call)
    requires k < |cs|
  {
    Stores(cs, k) && FirstPart(cs[k].name) == q.name && Young(cs[k], q.searched)
  }

  /** After any run a lookup hits exactly when some earlier call stored an answer for a name with these first 63
      characters and that answer is still young; and it returns the address of such an answer. */
  lemma HitIff(cs: seq<Call>, q: Call)
    requires Ordered(cs) && Clock(cs) <= q.searched
    ensures Hits(Run(cs).entries, q) <==> exists k :: 0 <= k < |cs| && Answers(cs, k, q)
    ensures Hits(Run(cs).entries, q) ==>
              exists k :: 0 <= k < |cs| && Answers(cs, k, q) && Resolve(Run(cs), q).1 == Some(cs[k].network.value.ip)
  {
    hide Run, Ordered, Hits, Resolve, FirstPart, Young, Clock;
    if Hits(Run(cs).entries, q) {
      var k := HitComesFrom(cs, q);
      assert Answers(cs, k, q);
    }
    if k :| 0 <= k < |cs| && Answers(cs, k, q) { YoungHits(cs, q, k); }
  }

  /** A lookup that misses returns what the network says, if it says anything. */
  lemma MissIsFetched(m: Cache, c: Call)
    requires !Hits(m.entries, c)
    ensures Resolve(m, c).1 == if c.network.Some? then Some(c.network.value.ip) else None
  {
  }

  lemma {:induction false} JustFetched(cs: seq<Call>, c: Call)
    requires Stores(cs + [c], |cs|)
    ensures c.network.Some? && Young(c, c.stored) && LastFetch(cs + [c], c.name) == |cs|
    ensures |c.name| <= 63 ==> FirstPart(c.name) == c.name
    ensures |c.name| <= 63 && ShortAnswers(cs) ==> ShortAnswers(cs + [c])
  {
    assert (cs + [c])[..|cs|] == cs;
    hide Run, Hits;
  }

  /** When an answer was stored, the same name is answered from the cache at once, with the same address, exactly if
      it has no more than 63 characters. */
  lemma StoredAnswersAgain(cs: seq<Call>, c: Call, again: Call)
    requires Ordered(cs + [c]) && Stores(cs + [c], |cs|) && again.name == c.name && again.searched == c.stored
    ensures c.network.Some? && (Hits(Run(cs + [c]).entries, again) <==> |c.name| <= 63)
    ensures |c.name| <= 63 && ShortAnswers(cs) ==> Resolve(Run(cs + [c]), again).1 == Some(c.network.value.ip)
  {
    hide *;
    JustFetched(cs, c);
    OrderedMore(cs, c);
    if |c.name| <= 63 {
      YoungHits(cs + [c], again, |cs|);
      if ShortAnswers(cs) { HitIsFreshAndLast(cs + [c], again); }
    } else {
      LongNamesMiss(cs + [c], again);
    }
  }

  // ---- the counters ------------------------------------------------------------------------

  function HitCalls(cs: seq<Call>): nat {
    if cs == [] then 0
    else
      var before := cs[..|cs| - 1];
      HitCalls(before) + if Hits(Run(before).entries, cs[|cs| - 1]) then 1 else 0
  }

  /** Every call is a lookup; those that hit are counted as hits and all others as misses. */
  lemma {:induction false} CountersTieUp(cs: seq<Call>)
    ensures var m := Run(cs); m.lookups == |cs| && m.hits == HitCalls(cs) && m.misses == |cs| - HitCalls(cs)
  {
    if cs != [] { CountersTieUp(cs[..|cs| - 1]); }
  }

  // ---- names of 64 characters and more -----------------------------------------------------

  ghost predicate NameIsLive(es: seq<Entry>, name: CString, now: uint32) {
    exists i :: 0 <= i < |es| && Live(es[i], now) && es[i].name == name
  }

  /** By chance the cut name was fetched before, with the same address and the same expiry, and is not in the
      table because that was full then. */
  ghost predicate Coincides(cs: seq<Call>, c: Call)
    requires c.network.Some?
  {
    Fetched(cs, EntryFor(c)) && !NameIsLive(Run(cs).entries, Cut(c.name), c.stored)
  }

  ghost predicate TableFull(cs: seq<Call>, c: Call) {
    forall i :: 0 <= i < |Run(cs).entries| ==> Live(Run(cs).entries[i], c.stored)
  }

  /** Storing a fetched answer keeps the cache sound exactly when the name fits its field; a long name does no
      harm only if nothing is stored, or by coincidence. */
  lemma FetchKeepsIff(cs: seq<Call>, c: Call)
    requires Sound(cs, c.searched) && c.searched <= c.stored < 0x1_0000_0000 - MAX_TTL
    requires !Hits(Run(cs).entries, c) && c.network.Some?
    ensures Sound(cs + [c], c.stored) <==> |c.name| <= 63 || TableFull(cs, c) || Coincides(cs, c)
  {
    if |c.name| <= NAME_MAX {
      FetchKeeps(cs, c);
    } else if TableFull(cs, c) {
      FullTableKeeps(cs, c);
    } else if Coincides(cs, c) {
      CoincidenceKeeps(cs, c);
    } else {
      LongNameBreaks(cs, c);
    }
  }

  lemma FullTableKeeps(cs: seq<Call>, c: Call)
    requires Sound(cs, c.searched) && c.searched <= c.stored && !Hits(Run(cs).entries, c) && c.network.Some?
    requires TableFull(cs, c)
    ensures Sound(cs + [c], c.stored)
  {
    hide Run, Fetched, LastFetch, Hits;
    RunStep(cs, c);
    MissStores(Run(cs), c);
    var es := Run(cs).entries;
    assert Run(cs + [c]).entries == es;
    forall i | 0 <= i < |es| && Live(es[i], c.stored) ensures Fetched(cs + [c], es[i]) {
      OldEntry(cs, c, i);
    }
    hide Resolve;
  }

  /** Where the new entry goes when the table has room. */
  lemma Stored(cs: seq<Call>, c: Call) returns (k: nat)
    requires Sound(cs, c.searched) && !Hits(Run(cs).entries, c) && c.network.Some? && !TableFull(cs, c)
    ensures k < SLOTS && |Run(cs).entries| == SLOTS && !Live(Run(cs).entries[k], c.stored)
    ensures Run(cs + [c]).entries == Run(cs).entries[k := EntryFor(c)]
  {
    hide Run, Fetched, LastFetch, Hits;
    RunStep(cs, c);
    MissStores(Run(cs), c);
    k := FreeSlot(Run(cs).entries, c.stored, 0);
    hide Resolve;
  }

  /** The call itself is a fetch of the long name, not of the cut one. */
  lemma CutNotFetched(cs: seq<Call>, c: Call, e: Entry)
    requires e.name != c.name
    ensures Fetched(cs + [c], e) <==> Fetched(cs, e)
  {
    assert (cs + [c])[..|cs|] == cs;
  }

  lemma CoincidenceKeeps(cs: seq<Call>, c: Call)
    requires Sound(cs, c.searched) && c.searched <= c.stored && !Hits(Run(cs).entries, c) && c.network.Some?
    requires |c.name| > NAME_MAX && !TableFull(cs, c) && Coincides(cs, c)
    ensures Sound(cs + [c], c.stored)
  {
    var k := Stored(cs, c);
    var es := Run(cs).entries;
    CutNotFetched(cs, c, EntryFor(c));
    hide Run, Fetched, LastFetch, Hits, TableFull;
    forall i | 0 <= i < |es| && Live(es[i], c.stored)
      ensures Fetched(cs + [c], es[i]) && es[i].name != Cut(c.name)
    {
      OldEntry(cs, c, i);
    }
  }

  lemma NewIsLive(c: Call)
    requires c.network.Some? && c.stored < 0x1_0000_0000 - MAX_TTL
    ensures Live(EntryFor(c), c.stored) && EntryFor(c).name == Cut(c.name)
    ensures |c.name| > NAME_MAX ==> EntryFor(c).name != c.name
  {
  }

  lemma NotFetchedBreaks(cs: seq<Call>, now: uint32, k: nat)
    requires k < |Run(cs).entries| && Live(Run(cs).entries[k], now) && !Fetched(cs, Run(cs).entries[k])
    ensures !Sound(cs, now)
  {
    hide Run, Fetched;
  }

  lemma TwiceBreaks(cs: seq<Call>, now: uint32, i: nat, k: nat)
    requires i < |Run(cs).entries| && k < |Run(cs).entries| && i != k
    requires Live(Run(cs).entries[i], now) && Live(Run(cs).entries[k], now)
    requires Run(cs).entries[i].name == Run(cs).entries[k].name
    ensures !Sound(cs, now)
  {
    hide Run, Fetched;
  }

  lemma LongNameBreaks(cs: seq<Call>, c: Call)
    requires Sound(cs, c.searched) && c.searched <= c.stored < 0x1_0000_0000 - MAX_TTL
    requires !Hits(Run(cs).entries, c) && c.network.Some?
    requires |c.name| > NAME_MAX && !TableFull(cs, c) && !Coincides(cs, c)
    ensures !Sound(cs + [c], c.stored)
  {
    hide Run, Fetched, LastFetch, Hits, TableFull, Sound, Live, Find, FreeSlot, Cut, Resolve, Clamp, Wrap32;
    var k := Stored(cs, c);
    var es := Run(cs).entries;
    NewIsLive(c);
    CutNotFetched(cs, c, EntryFor(c));
    if Fetched(cs, EntryFor(c)) {
      var i :| 0 <= i < |es| && Live(es[i], c.stored) && es[i].name == Cut(c.name);
      TwiceBreaks(cs + [c], c.stored, i, k);
    } else {
      NotFetchedBreaks(cs + [c], c.stored, k);
    }
  }

  /** A long name fetched twice leaves two live entries of one name. */
  lemma FetchedTwiceIsTwice(c: Call, again: Call)
    requires |c.name| > 63 && again.name == c.name && c.network.Some? && again.network.Some?
    requires c.stored <= again.searched <= again.stored && Young(c, again.stored)
    requires again.stored < 0x1_0000_0000 - MAX_TTL
    ensures var es := Run([c, again]).entries;
            && |es| == SLOTS && Live(es[0], again.stored) && Live(es[1], again.stored)
            && es[0].name == es[1].name == c.name[..63]
  {
    assert [c, again][..1] == [c] && [c][..0] == [];
    YoungIs(c, again.stored);
    var es := Empty().entries;
    var e1 := Run([c]).entries;
    assert Run([c]) == Resolve(Empty(), c).0;
    assert FreeSlot(es, c.stored, 0) == 0;
    assert e1 == es[0 := EntryFor(c)];
    assert FreeSlot(e1, again.stored, 0) == FreeSlot(e1, again.stored, 1) == 1;
    LongNamesMiss([c], again);
    assert Run([c, again]) == Resolve(Run([c]), again).0;
  }

  lemma {:induction false} NamesFit(cs: seq<Call>, i: nat)
    requires i < |Run(cs).entries|
    ensures |Run(cs).entries[i].name| <= NAME_MAX
  {
    if cs != [] {
      var n := |cs| - 1;
      if i < |Run(cs[..n]).entries| { NamesFit(cs[..n], i); }
    }
  }

  /** After any run, a lookup of a long name misses: it is fetched again every time. */
  lemma LongNamesMiss(cs: seq<Call>, c: Call)
    requires |c.name| >= 64
    ensures !Hits(Run(cs).entries, c)
  {
    hide Run;
    var k := Find(Run(cs).entries, c.name, c.searched, 0);
    if k < |Run(cs).entries| { NamesFit(cs, k); }
  }

  /** After the first fetch of a run, a lookup before the entry expires hits for the cut name and no other: so
      its cut gets an address that is not its own. */
  lemma FirstFetchAnswersCut(c: Call, q: Call)
    requires c.network.Some? && c.stored < 0x1_0000_0000 - MAX_TTL
    requires Young(c, q.searched)
    ensures Hits(Run([c]).entries, q) <==> q.name == FirstPart(c.name)
    ensures q.name == FirstPart(c.name) ==> Resolve(Run([c]), q).1 == Some(c.network.value.ip)
  {
    assert [c][..0] == [];
    YoungIs(c, q.searched);
    var es, rs := Empty().entries, Run([c]).entries;
    assert Run([c]) == Resolve(Empty(), c).0;
    assert FreeSlot(es, c.stored, 0) == 0;
    assert rs[0].name == Cut(c.name) && Live(rs[0], q.searched);
    assert forall i :: 1 <= i < |rs| ==> !Live(rs[i], q.searched);
  }
}
