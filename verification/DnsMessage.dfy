/** Reading a DNS response (skip_name and the answer walk of dns_resolve in kernel/dns.c; sections 4.1.1 to
    4.1.4 of RFC 1035). */
module DnsMessage {
  import opened Bytes
  import opened DnsName

  const HEADER := 12
  const TYPE_A := 1

  function Be16(x: uint16): (s: seq<byte>)
    ensures |s| == 2
  {
    [x / 0x100, x % 0x100]
  }

  function Be32(x: uint32): (s: seq<byte>)
    ensures |s| == 4
  {
    [x / 0x100_0000, x / 0x1_0000 % 0x100, x / 0x100 % 0x100, x % 0x100]
  }

  function Read16(m: seq<byte>, p: nat): uint16
    requires p + 2 <= |m|
  {
    (m[p] as int) * 0x100 + m[p + 1] as int
  }

  function Read32(m: seq<byte>, p: nat): uint32
    requires p + 4 <= |m|
  {
    (m[p] as int) * 0x100_0000 + (m[p + 1] as int) * 0x1_0000 + (m[p + 2] as int) * 0x100 + m[p + 3] as int
  }

  // ---- messages, as their sender means them ------------------------------------------------

  /** A name ends with the root label or with a compression pointer. */
  datatype End = RootEnd | PointerEnd(hi: byte, lo: byte)

  datatype Name = Name(labels: seq<Label>, end: End)

  predicate GoodName(n: Name) {
    GoodLabels(n.labels) && (n.end.PointerEnd? ==> n.end.hi >= 0xC0)
  }

  function EndBytes(e: End): seq<byte> {
    match e
    case RootEnd => [0]
    case PointerEnd(hi, lo) => [hi, lo]
  }

  function NameBytes(n: Name): seq<byte>
    requires GoodName(n)
  {
    LabelBytes(n.labels) + EndBytes(n.end)
  }

  datatype Record = Record(name: Name, rtype: uint16, rclass: uint16, ttl: uint32, rdata: seq<byte>)

  predicate GoodRecord(r: Record) {
    GoodName(r.name) && |r.rdata| < 0x1_0000
  }

  function RecordBytes(r: Record): seq<byte>
    requires GoodRecord(r)
  {
    NameBytes(r.name) + (Be16(r.rtype) + (Be16(r.rclass) + (Be32(r.ttl) + (Be16(|r.rdata|) + r.rdata))))
  }

  predicate GoodRecords(rs: seq<Record>) {
    rs == [] || (GoodRecord(rs[0]) && GoodRecords(rs[1..]))
  }

  function RecordsBytes(rs: seq<Record>): seq<byte>
    requires GoodRecords(rs)
  {
    if rs == [] then [] else RecordBytes(rs[0]) + RecordsBytes(rs[1..])
  }

  /** A response with one question. `lead` is the header up to ancount and `counts` the rest of it; `extra` is
      the authority and additional sections, which nobody reads. */
  datatype Message = Message(lead: seq<byte>, counts: seq<byte>, qname: Name, qtype: uint16, qclass: uint16,
                             answers: seq<Record>, extra: seq<byte>)

  predicate GoodMessage(m: Message) {
    |m.lead| == 6 && |m.counts| == 4 && GoodName(m.qname) && |m.answers| < 0x1_0000 && GoodRecords(m.answers)
  }

  function MessageBytes(m: Message): seq<byte>
    requires GoodMessage(m)
  {
    m.lead + (Be16(|m.answers|) + (m.counts + (NameBytes(m.qname) + (Be16(m.qtype) + (Be16(m.qclass) +
    (RecordsBytes(m.answers) + m.extra))))))
  }

  datatype Answer = Answer(ip: seq<byte>, ttl: uint32)

  /** The first answer that is an IPv4 address. */
  function FirstAddress(rs: seq<Record>): Option<Answer> {
    if rs == [] then None
    else if rs[0].rtype == TYPE_A && |rs[0].rdata| == 4 then Some(Answer(rs[0].rdata, rs[0].ttl))
    else FirstAddress(rs[1..])
  }

  // ---- the kernel's reader, on values ------------------------------------------------------

  /** skip_name: the position after the name at `p`, or -1. A pointer ends a name. */
  function SkipFrom(m: seq<byte>, p: nat): (e: int)
    ensures e == -1 || p < e <= |m| + 1
    decreases |m| - p
  {
    if p >= |m| then -1
    else if m[p] == 0 then p + 1
    else if m[p] >= 0xC0 then p + 2
    else if p + 1 + m[p] >= |m| then -1
    else SkipFrom(m, p + 1 + m[p])
  }

  /** The answer at `p`: where its fixed fields start, if all of it lies inside the message. */
  function AnswerAt(m: seq<byte>, p: nat): (e: int)
    ensures e == -1 || (p < e && e + 10 <= |m| && e + 10 + Read16(m, e + 8) <= |m|)
  {
    var e := SkipFrom(m, p);
    if e == -1 || e + 10 > |m| || e + 10 + Read16(m, e + 8) > |m| then -1 else e
  }

  /** The walk over `k` answers from `p`. */
  function WalkFrom(m: seq<byte>, p: nat, k: nat): Option<Answer>
    decreases k
  {
    if k == 0 then None
    else
      var e := AnswerAt(m, p);
      if e == -1 then None
      else if Read16(m, e) == TYPE_A && Read16(m, e + 8) == 4 then Some(Answer(m[e + 10..e + 14], Read32(m, e + 4)))
      else WalkFrom(m, e + 10 + Read16(m, e + 8), k - 1)
  }

  function Parse(m: seq<byte>): Option<Answer> {
    if |m| < HEADER || Read16(m, 6) < 1 then None
    else
      var e := SkipFrom(m, HEADER);
      if e == -1 || e + 4 > |m| then None else WalkFrom(m, e + 4, Read16(m, 6))
  }

  // ---- the loops ---------------------------------------------------------------------------

  /** skip_name: how many bytes the name at `at` takes, or -1. */
  method SkipName(msg: array<byte>, len: nat, at: nat) returns (n: int)
    requires len <= msg.Length
    ensures n == -1 <==> SkipFrom(msg[..len], at) == -1
    ensures n != -1 ==> n == SkipFrom(msg[..len], at) - at
  {
    ghost var m := msg[..len];
    var p := at;
    while p < len
      invariant at <= p && SkipFrom(m, p) == SkipFrom(m, at)
    {
      var b := msg[p];
      assert b == m[p];
      if b == 0 { return p - at + 1; }
      if b >= 0xC0 { return p - at + 2; }
      if p + 1 + b >= len { return -1; }
      p := p + 1 + b;
    }
    return -1;
  }

  /** The start of the walk's loop body: where the fixed fields of the answer at `p` start, and what they say. */
  method ReadAnswer(msg: array<byte>, len: nat, p: nat) returns (e: int, rtype: uint16, ttl: uint32, rdlen: uint16)
    requires len <= msg.Length
    ensures e == AnswerAt(msg[..len], p)
    ensures e != -1 ==>
              rtype == Read16(msg[..len], e) && ttl == Read32(msg[..len], e + 4) && rdlen == Read16(msg[..len], e + 8)
  {
    hide SkipFrom;
    e, rtype, ttl, rdlen := -1, 0, 0, 0;
    var n := SkipName(msg, len, p);
    if n == -1 { return; }
    var q := p + n;
    if q + 10 > len { return; }
    rtype := (msg[q] as int) * 0x100 + msg[q + 1] as int;
    ttl := (msg[q + 4] as int) * 0x100_0000 + (msg[q + 5] as int) * 0x1_0000 + (msg[q + 6] as int) * 0x100 +
           msg[q + 7] as int;
    rdlen := (msg[q + 8] as int) * 0x100 + msg[q + 9] as int;
    if q + 10 + rdlen > len { return; }
    e := q;
  }

  /** The header and the question: where the answers start and how many there are. */
  method SkipQuestion(msg: array<byte>, len: nat) returns (p: int, ancount: nat)
    requires len <= msg.Length
    ensures p >= -1 && Parse(msg[..len]) == if p == -1 then None else WalkFrom(msg[..len], p, ancount)
  {
    hide SkipFrom, WalkFrom;
    if len < HEADER { return -1, 0; }
    ancount := (msg[6] as int) * 0x100 + msg[7] as int;
    if ancount < 1 { return -1, 0; }
    var n := SkipName(msg, len, HEADER);
    if n == -1 { return -1, 0; }
    p := HEADER + n + 4;
    if p > len { return -1, 0; }
  }

  lemma WalkStep(m: seq<byte>, p: nat, k: nat)
    requires k > 0
    ensures var e := AnswerAt(m, p);
            WalkFrom(m, p, k) ==
            if e == -1 then None
            else if Read16(m, e) == TYPE_A && Read16(m, e + 8) == 4
            then Some(Answer([m[e + 10], m[e + 11], m[e + 12], m[e + 13]], Read32(m, e + 4)))
            else WalkFrom(m, e + 10 + Read16(m, e + 8), k - 1)
  {
    var e := AnswerAt(m, p);
    if e != -1 && Read16(m, e + 8) == 4 {
      assert m[e + 10..e + 14] == [m[e + 10], m[e + 11], m[e + 12], m[e + 13]];
    }
  }

  /** The answer walk of dns_resolve over the bytes received; every index is inside them. */
  method ParseResponse(msg: array<byte>, len: nat) returns (r: Option<Answer>)
    requires len <= msg.Length
    ensures r == Parse(msg[..len])
  {
    hide SkipFrom, AnswerAt, Read16, Read32, WalkFrom, Parse;
    var start, ancount := SkipQuestion(msg, len);
    if start == -1 { return None; }
    var p: nat := start;
    for a := 0 to ancount
      invariant Parse(msg[..len]) == WalkFrom(msg[..len], p, ancount - a)
    {
      WalkStep(msg[..len], p, ancount - a);
      var e, rtype, ttl, rdlen := ReadAnswer(msg, len, p);
      if e == -1 { return None; }
      p := e + 10;
      if rtype == TYPE_A && rdlen == 4 {
        return Some(Answer([msg[p], msg[p + 1], msg[p + 2], msg[p + 3]], ttl));
      }
      p := p + rdlen;
    }
    WalkEnds(msg[..len], p);
    return None;
  }

  lemma WalkEnds(m: seq<byte>, p: nat)
    ensures WalkFrom(m, p, 0) == None
  {
  }
}
