/** The resolver's cache table and counters (kernel/dns.c). Each method is proved equal to its function in
    DnsCacheModel. */
module DnsCache {
  import opened Bytes
  import opened DnsCacheModel

  /** name_eq: compare up to the first difference or NUL. */
  method NameEq(a: CString, b: CString) returns (eq: bool)
    ensures eq <==> a == b
  {
    var i := 0;
    while i < |a| && i < |b| && a[i] == b[i]
      invariant 0 <= i <= |a| && i <= |b|
      invariant forall j :: 0 <= j < i ==> a[j] == b[j]
    {
      i := i + 1;
    }
    eq := CharAt(a, i) == CharAt(b, i);
  }

  class Resolver {
    const table: array<Entry>
    var lookups: nat
    var hits: nat
    var misses: nat

    ghost predicate Valid()
      reads this
    {
      table.Length == SLOTS
    }

    ghost function Abs(): Cache
      reads this, table
    {
      Cache(table[..], lookups, hits, misses)
    }

    constructor ()
      ensures Valid() && fresh(table) && Abs() == Empty()
    {
      table := new Entry[SLOTS](_ => Entry(false, [], [], 0));
      lookups, hits, misses := 0, 0, 0;
    }

    /** cache_lookup. */
    method CacheLookup(name: CString, now: uint32) returns (ip: Option<Ip>)
      requires Valid()
      ensures var k := Find(table[..], name, now, 0);
              ip == if k < SLOTS then Some(table[k].ip) else None
    {
      for i := 0 to SLOTS
        invariant Find(table[..], name, now, 0) == Find(table[..], name, now, i)
      {
        if table[i].inUse {
          if table[i].expires > now {
            var eq := NameEq(table[i].name, name);
            if eq { return Some(table[i].ip); }
          }
        }
      }
      return None;
    }

    /** The name loop of cache_store: at most NAME_MAX characters fit. */
    method CopyName(name: CString) returns (kept: CString)
      ensures kept == Cut(name)
    {
      kept := [];
      var j := 0;
      while j < |name| && j < NAME_MAX
        invariant 0 <= j <= |name| && j <= NAME_MAX && kept == name[..j]
      {
        kept := kept + [name[j]];
        j := j + 1;
      }
    }

    /** cache_store. */
    method CacheStore(name: CString, ip: Ip, ttl: uint32, now: uint32)
      requires Valid()
      modifies table
      ensures table[..] == Store(old(table[..]), name, ip, ttl, now)
      ensures forall i :: 0 <= i < 16 && table[i] != old(table[i]) ==>
                            && !Live(old(table[i]), now) && table[i].inUse && table[i].ip == ip
                            && table[i].name == (if |name| > 63 then name[..63] else name)
                            && table[i].expires ==
                               Wrap32(now + if ttl < 30 then 30 else if ttl > 3600 then 3600 else ttl)
    {
      var slot := 0;
      while slot < SLOTS && table[slot].inUse && table[slot].expires > now
        invariant 0 <= slot <= SLOTS
        invariant FreeSlot(table[..], now, 0) == FreeSlot(table[..], now, slot)
      {
        slot := slot + 1;
      }
      if slot == SLOTS { return; }
      var kept := CopyName(name);
      var life := ttl;
      if life < MIN_TTL { life := MIN_TTL; }
      if life > MAX_TTL { life := MAX_TTL; }
      table[slot] := Entry(true, kept, ip, Wrap32(now + life));
    }

    /** dns_resolve around the network, which is asked only after a miss. */
    method DnsResolve(c: Call) returns (ip: Option<Ip>)
      requires Valid()
      modifies this, table
      ensures Valid() && Abs() == Resolve(old(Abs()), c).0 && ip == Resolve(old(Abs()), c).1
    {
      lookups := lookups + 1;
      ip := CacheLookup(c.name, c.searched);
      if ip.Some? {
        hits := hits + 1;
        return;
      }
      misses := misses + 1;
      if c.network.None? { return None; }
      CacheStore(c.name, c.network.value.ip, c.network.value.ttl, c.stored);
      ip := Some(c.network.value.ip);
    }
  }
}
