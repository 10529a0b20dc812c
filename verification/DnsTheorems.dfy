/** The kernel's DNS reader agrees with the messages as their senders mean them, and its encoder can be
    decoded. */
module DnsTheorems {
  import opened Bytes
  import opened DnsName
  import opened DnsMessage

  // ---- skip_name ---------------------------------------------------------------------------

  lemma LabelPeels(m: seq<byte>, p: nat, ls: seq<Label>, tail: seq<byte>)
    requires ls != [] && GoodLabels(ls) && p <= |m| && m[p..] == LabelBytes(ls) + tail
    ensures var n := |ls[0]|;
            && p + 1 + n <= |m| && m[p] == n && m[p + 1..p + 1 + n] == ls[0]
            && m[p + 1 + n..] == LabelBytes(ls[1..]) + tail
  {
    var n, rest := |ls[0]|, LabelBytes(ls[1..]);
    hide LabelBytes;
    assert LabelBytes(ls) == [n as byte] + (ls[0] + rest) by { LabelBytesStep(ls); }
    assert m[p..] == [n as byte] + (ls[0] + (rest + tail)) by {
      assert ([n as byte] + (ls[0] + rest)) + tail == [n as byte] + (ls[0] + (rest + tail));
    }
    Peel(m, p, [n as byte], ls[0] + (rest + tail));
    assert m[p] == m[p..p + 1][0];
    Peel(m, p + 1, ls[0], rest + tail);
  }

  lemma LabelBytesStep(ls: seq<Label>)
    requires ls != [] && GoodLabels(ls)
    ensures LabelBytes(ls) == [|ls[0]| as byte] + (ls[0] + LabelBytes(ls[1..]))
  {
  }

  lemma NoLabelBytes()
    ensures LabelBytes([]) == []
  {
  }

  lemma {:induction false} SkipLabels(m: seq<byte>, p: nat, ls: seq<Label>, tail: seq<byte>)
    requires GoodLabels(ls) && p <= |m| && m[p..] == LabelBytes(ls) + tail && tail != []
    ensures p + |LabelBytes(ls)| <= |m| && m[p + |LabelBytes(ls)|..] == tail
    ensures SkipFrom(m, p) == SkipFrom(m, p + |LabelBytes(ls)|)
    decreases ls
  {
    hide LabelBytes, SkipFrom;
    if ls != [] {
      LabelPeels(m, p, ls, tail);
      LabelBytesStep(ls);
      var q := p + 1 + |ls[0]|;
      SkipLabels(m, q, ls[1..], tail);
      SkipOne(m, p, |ls[0]|);
    } else {
      NoLabelBytes();
      Peel(m, p, [], tail);
    }
  }

  lemma SkipOne(m: seq<byte>, p: nat, n: nat)
    requires p < |m| && m[p] == n && 1 <= n <= MAX_LABEL && p + 1 + n < |m|
    ensures SkipFrom(m, p) == SkipFrom(m, p + 1 + n)
  {
  }

  /** skip_name returns the end of any well-formed name, wherever it stands. */
  lemma SkipsName(m: seq<byte>, p: nat, n: Name, rest: seq<byte>)
    requires GoodName(n) && p <= |m| && m[p..] == NameBytes(n) + rest
    ensures SkipFrom(m, p) == p + |NameBytes(n)| <= |m| && m[p + |NameBytes(n)|..] == rest
  {
    hide LabelBytes, SkipFrom, GoodLabels;
    var l, e := LabelBytes(n.labels), EndBytes(n.end);
    assert (l + e) + rest == l + (e + rest);
    SkipLabels(m, p, n.labels, e + rest);
    Peel(m, p + |l|, e, rest);
    SkipEnd(m, p + |l|, n.end);
    assert m[p + |l| + |e|..] == rest;
  }

  /** skip_name stops behind the root or a compression pointer. */
  lemma SkipEnd(m: seq<byte>, p: nat, end: End)
    requires (end.PointerEnd? ==> end.hi >= 0xC0) && p + |EndBytes(end)| <= |m| &&
             m[p..p + |EndBytes(end)|] == EndBytes(end)
    ensures SkipFrom(m, p) == p + |EndBytes(end)|
  {
    assert m[p] == m[p..p + |EndBytes(end)|][0];
  }

  lemma Beyond(before: seq<byte>, tail: seq<byte>)
    ensures (before + tail)[|before|..] == tail
  {
  }

  /** The length skip_name reports for a name encode_name wrote is the length encode_name returned. */
  lemma SkipUndoesEncode(name: CString, before: seq<byte>, after: seq<byte>)
    requires GoodLabels(Labels(name))
    ensures SkipFrom(before + (Wire(Labels(name)) + after), |before|) - |before| == |Wire(Labels(name))|
  {
    var n, m := Name(Labels(name), RootEnd), before + (Wire(Labels(name)) + after);
    hide LabelBytes, SkipFrom;
    Beyond(before, Wire(Labels(name)) + after);
    SkipsName(m, |before|, n, after);
  }

  // ---- decoding what encode_name wrote -----------------------------------------------------

  /** The labels of the uncompressed name at `p`. */
  function Decode(m: seq<byte>, p: nat): Option<seq<Label>>
    decreases |m| - p
  {
    if p >= |m| || m[p] > MAX_LABEL || p + 1 + m[p] > |m| then None
    else if m[p] == 0 then Some([])
    else
      var rest := Decode(m, p + 1 + m[p]);
      if rest.None? then None else Some([m[p + 1..p + 1 + m[p]]] + rest.value)
  }

  /** Decoding a wire form, in any message that contains it, gives back the labels. */
  lemma {:induction false} DecodesWire(m: seq<byte>, p: nat, ls: seq<Label>, rest: seq<byte>)
    requires GoodLabels(ls) && p <= |m| && m[p..] == LabelBytes(ls) + ([0] + rest)
    ensures Decode(m, p) == Some(ls)
    decreases ls
  {
    if ls == [] {
      assert m[p] == m[p..][0] == 0;
    } else {
      LabelPeels(m, p, ls, [0] + rest);
      hide LabelBytes;
      DecodesWire(m, p + 1 + |ls[0]|, ls[1..], rest);
      assert ls == [ls[0]] + ls[1..];
    }
  }

  /** A host name survives the trip through its wire form, except for a trailing dot. */
  lemma NameRoundTrip(name: CString, before: seq<byte>, after: seq<byte>)
    requires GoodLabels(Labels(name))
    ensures Decode(before + (Wire(Labels(name)) + after), |before|) == Some(Labels(name))
    ensures Join(Labels(name)) == name || Join(Labels(name)) + [DOT] == name
  {
    hide Labels, GoodLabels, LabelBytes, Decode, Join;
    JoinLabels(name);
    var l, m := LabelBytes(Labels(name)), before + (Wire(Labels(name)) + after);
    Beyond(before, Wire(Labels(name)) + after);
    assert (l + [0]) + after == l + ([0] + after);
    DecodesWire(m, |before|, Labels(name), after);
  }

  // ---- what can be encoded -----------------------------------------------------------------

  lemma {:induction false} LabelsGood(ls: seq<seq<byte>>)
    ensures GoodLabels(ls) <==> forall i :: 0 <= i < |ls| ==> 1 <= |ls[i]| <= 63
  {
    if ls != [] {
      LabelsGood(ls[1..]);
      assert forall i :: 1 <= i < |ls| ==> ls[i] == ls[1..][i - 1];
    }
  }

  lemma {:induction false} NoDots(name: CString, i: nat)
    requires i < |Labels(name)|
    ensures 46 !in Labels(name)[i]
    decreases |name|
  {
    if i > 0 { NoDots(AfterLabel(name), i - 1); }
  }

  /** How long a name is in wire form. */
  function WireSize(name: CString): nat {
    |name| + if name == [] then 1 else if name[|name| - 1] == 46 then 1 else 2
  }

  /** One label and what follows. */
  lemma SizeStep(name: CString)
    requires name != []
    ensures WireSize(name) == 1 + LabelEnd(name) + WireSize(AfterLabel(name))
  {
    var k, rest := LabelEnd(name), AfterLabel(name);
    hide LabelEnd;
    if k < |name| {
      assert rest == name[k + 1..];
      if rest == [] { assert name[|name| - 1] == name[k]; }
    } else {
      assert name[|name| - 1] != 46;
    }
  }

  lemma {:induction false} WireLength(name: CString)
    requires GoodLabels(Labels(name))
    ensures |Wire(Labels(name))| == WireSize(name)
    decreases |name|
  {
    hide Labels, Wire, GoodLabels, LabelEnd, WireSize;
    if name != [] {
      LabelStep(name);
      SizeStep(name);
      WireLength(AfterLabel(name));
    } else {
      NoLabels();
    }
  }

  lemma NoLabels()
    ensures |Wire(Labels([]))| == WireSize([])
  {
  }

  lemma EncodesIs(name: CString, cap: nat)
    ensures Encodes(name, cap) <==> GoodLabels(Labels(name)) && |Wire(Labels(name))| <= cap
  {
  }

  /** encode_name succeeds exactly when every stretch between dots has 1 to 63 characters and the name and two bytes
      more, or one more after a trailing dot or for the empty name, fit. */
  lemma EncodesIff(name: CString, cap: nat)
    ensures Encodes(name, cap) <==>
            && (forall i :: 0 <= i < |Labels(name)| ==> 1 <= |Labels(name)[i]| <= 63)
            && WireSize(name) <= cap
    ensures forall i :: 0 <= i < |Labels(name)| ==> 46 !in Labels(name)[i]
  {
    hide *;
    EncodesIs(name, cap);
    LabelsGood(Labels(name));
    if GoodLabels(Labels(name)) { WireLength(name); }
    forall i | 0 <= i < |Labels(name)| ensures 46 !in Labels(name)[i] {
      NoDots(name, i);
    }
  }

  // ---- the answer walk ---------------------------------------------------------------------

  lemma Read16Of(m: seq<byte>, p: nat, x: uint16)
    requires p + 2 <= |m| && m[p..p + 2] == Be16(x)
    ensures Read16(m, p) == x
  {
    assert m[p] == m[p..p + 2][0] && m[p + 1] == m[p..p + 2][1];
  }

  lemma Read32Of(m: seq<byte>, p: nat, x: uint32)
    requires p + 4 <= |m| && m[p..p + 4] == Be32(x)
    ensures Read32(m, p) == x
  {
    assert m[p] == m[p..p + 4][0] && m[p + 1] == m[p..p + 4][1];
    assert m[p + 2] == m[p..p + 4][2] && m[p + 3] == m[p..p + 4][3];
    Digits(x);
  }

  lemma Digits(x: uint32)
    ensures x == x / 0x100_0000 * 0x100_0000 + x / 0x1_0000 % 0x100 * 0x1_0000 + x / 0x100 % 0x100 * 0x100 + x % 0x100
  {
    var a, b := x / 0x100, x / 0x1_0000;
    assert x == a * 0x100 + x % 0x100;
    assert a == b * 0x100 + a % 0x100;
    assert b == x / 0x100_0000 * 0x100 + b % 0x100;
  }

  lemma RecordSplits(r: Record, rest: seq<byte>)
    requires GoodRecord(r)
    ensures RecordBytes(r) + rest ==
            NameBytes(r.name) + (Be16(r.rtype) + (Be16(r.rclass) + (Be32(r.ttl) + 
            (Be16(|r.rdata|) + (r.rdata + rest)))))
  {
    hide NameBytes, Be16, Be32;
    var a, b, c, d, f := NameBytes(r.name), Be16(r.rtype), Be16(r.rclass), Be32(r.ttl), Be16(|r.rdata|);
    assert (f + r.rdata) + rest == f + (r.rdata + rest);
    assert (d + (f + r.rdata)) + rest == d + (f + (r.rdata + rest));
    assert (c + (d + (f + r.rdata))) + rest == c + (d + (f + (r.rdata + rest)));
    assert (b + (c + (d + (f + r.rdata)))) + rest == b + (c + (d + (f + (r.rdata + rest))));
    assert (a + (b + (c + (d + (f + r.rdata))))) + rest == a + (b + (c + (d + (f + (r.rdata + rest)))));
  }

  lemma FixedPeels(m: seq<byte>, e: nat, b: seq<byte>, c: seq<byte>, d: seq<byte>, f: seq<byte>, data: seq<byte>,
                   rest: seq<byte>)
    requires |b| == |c| == |f| == 2 && |d| == 4 && e <= |m| && m[e..] == b + (c + (d + (f + (data + rest))))
    ensures e + 10 + |data| <= |m|
    ensures m[e..e + 2] == b && m[e + 4..e + 8] == d && m[e + 8..e + 10] == f
    ensures m[e + 10..e + 10 + |data|] == data && m[e + 10 + |data|..] == rest
  {
    var t4 := f + (data + rest);
    var t3 := d + t4;
    Peel(m, e, b, c + t3);
    Peel(m, e + 2, c, t3);
    Peel(m, e + 4, d, t4);
    Peel(m, e + 8, f, data + rest);
    Peel(m, e + 10, data, rest);
  }

  /** The fields of a record, where the walk looks for them. */
  lemma RecordFields(m: seq<byte>, p: nat, r: Record, rest: seq<byte>)
    requires GoodRecord(r) && p <= |m| && m[p..] == RecordBytes(r) + rest
    ensures var e := p + |NameBytes(r.name)|;
            && AnswerAt(m, p) == e && e + 10 + |r.rdata| <= |m|
            && Read16(m, e) == r.rtype && Read32(m, e + 4) == r.ttl && Read16(m, e + 8) == |r.rdata|
            && m[e + 10..e + 10 + |r.rdata|] == r.rdata && m[e + 10 + |r.rdata|..] == rest
  {
    hide NameBytes, Be16, Be32, Read16, Read32, SkipFrom, RecordBytes;
    RecordSplits(r, rest);
    var b, c, d, f := Be16(r.rtype), Be16(r.rclass), Be32(r.ttl), Be16(|r.rdata|);
    SkipsName(m, p, r.name, b + (c + (d + (f + (r.rdata + rest)))));
    var e := p + |NameBytes(r.name)|;
    FixedPeels(m, e, b, c, d, f, r.rdata, rest);
    Read16Of(m, e, r.rtype);
    Read32Of(m, e + 4, r.ttl);
    Read16Of(m, e + 8, |r.rdata|);
  }

  lemma WalkRecord(m: seq<byte>, p: nat, k: nat, r: Record, rest: seq<byte>)
    requires GoodRecord(r) && p <= |m| && m[p..] == RecordBytes(r) + rest && k > 0
    ensures p + |NameBytes(r.name)| + 10 + |r.rdata| <= |m|
    ensures m[p + |NameBytes(r.name)| + 10 + |r.rdata|..] == rest
    ensures WalkFrom(m, p, k) ==
            if r.rtype == TYPE_A && |r.rdata| == 4 then Some(Answer(r.rdata, r.ttl))
            else WalkFrom(m, p + |NameBytes(r.name)| + 10 + |r.rdata|, k - 1)
  {
    hide RecordBytes, NameBytes, AnswerAt, Read16, Read32, SkipFrom;
    RecordFields(m, p, r, rest);
  }

  lemma RecordsStep(rs: seq<Record>)
    requires rs != [] && GoodRecords(rs)
    ensures RecordsBytes(rs) == RecordBytes(rs[0]) + RecordsBytes(rs[1..])
  {
  }

  /** The walk over the bytes of a list of records finds the first address in the list. */
  lemma {:induction false} WalkFindsFirst(m: seq<byte>, p: nat, rs: seq<Record>, rest: seq<byte>)
    requires GoodRecords(rs) && p <= |m| && m[p..] == RecordsBytes(rs) + rest
    ensures WalkFrom(m, p, |rs|) == FirstAddress(rs)
    decreases rs
  {
    hide RecordBytes, RecordsBytes, NameBytes, WalkFrom;
    if rs != [] {
      var r, more := RecordBytes(rs[0]), RecordsBytes(rs[1..]);
      RecordsStep(rs);
      assert (r + more) + rest == r + (more + rest);
      WalkRecord(m, p, |rs|, rs[0], more + rest);
      WalkFindsFirst(m, p + |NameBytes(rs[0].name)| + 10 + |rs[0].rdata|, rs[1..], rest);
    } else {
      WalkEnds(m, p);
    }
  }

  /** The bytes before the answers, at their places. */
  lemma HeadPeels(m: seq<byte>, lead: seq<byte>, count: seq<byte>, counts: seq<byte>, tail: seq<byte>)
    requires |lead| == 6 && |count| == 2 && |counts| == 4 && m == lead + (count + (counts + tail))
    ensures HEADER <= |m| && m[6..8] == count && m[HEADER..] == tail
  {
    assert m[0..] == m;
    Peel(m, 0, lead, count + (counts + tail));
    Peel(m, 6, count, counts + tail);
    Peel(m, 8, counts, tail);
  }

  lemma TypePeels(m: seq<byte>, e: nat, t: seq<byte>, c: seq<byte>, tail: seq<byte>)
    requires |t| == |c| == 2 && e <= |m| && m[e..] == t + (c + tail)
    ensures e + 4 <= |m| && m[e + 4..] == tail
  {
    Peel(m, e, t, c + tail);
    Peel(m, e + 2, c, tail);
  }

  lemma MessageFields(msg: Message, m: seq<byte>)
    requires GoodMessage(msg) && m == MessageBytes(msg)
    ensures HEADER <= |m| && Read16(m, 6) == |msg.answers|
    ensures var e := SkipFrom(m, HEADER);
            e != -1 && e + 4 <= |m| && m[e + 4..] == RecordsBytes(msg.answers) + msg.extra
  {
    hide NameBytes, RecordsBytes, Read16, SkipFrom, Be16, GoodRecords;
    var n, t, c := NameBytes(msg.qname), Be16(msg.qtype), Be16(msg.qclass);
    var tail := t + (c + (RecordsBytes(msg.answers) + msg.extra));
    HeadPeels(m, msg.lead, Be16(|msg.answers|), msg.counts, n + tail);
    Read16Of(m, 6, |msg.answers|);
    SkipsName(m, HEADER, msg.qname, tail);
    TypePeels(m, HEADER + |n|, t, c, RecordsBytes(msg.answers) + msg.extra);
  }

  /** An IPv4 address: TYPE 1 and four bytes of data. */
  predicate IsAddress(r: Record) {
    r.rtype == 1 && |r.rdata| == 4
  }

  lemma {:induction false} FirstAddressIs(rs: seq<Record>)
    ensures FirstAddress(rs).None? ==> forall i :: 0 <= i < |rs| ==> !IsAddress(rs[i])
    ensures FirstAddress(rs).Some? ==>
              exists i :: 0 <= i < |rs| && IsAddress(rs[i]) &&
                          FirstAddress(rs).value == Answer(rs[i].rdata, rs[i].ttl) &&
                          forall j :: 0 <= j < i ==> !IsAddress(rs[j])
  {
    if rs != [] && !IsAddress(rs[0]) {
      FirstAddressIs(rs[1..]);
      if FirstAddress(rs).Some? {
        var more := rs[1..];
        var i :| 0 <= i < |more| && IsAddress(more[i]) &&
                 FirstAddress(more).value == Answer(more[i].rdata, more[i].ttl) &&
                 forall j :: 0 <= j < i ==> !IsAddress(more[j]);
        assert rs[i + 1] == more[i];
        assert forall j :: 0 < j < i + 1 ==> rs[j] == more[j - 1];
      }
    }
  }

  /** For every well-formed response with one question, the kernel returns the data and the TTL of the first answer
      of TYPE A (1) with four bytes of data, or nothing when there is none. */
  lemma ParseIsFirstAddress(msg: Message)
    requires GoodMessage(msg)
    ensures var r, rs := Parse(MessageBytes(msg)), msg.answers;
            && (r.None? ==> forall i :: 0 <= i < |rs| ==> !IsAddress(rs[i]))
            && (r.Some? ==>
                  exists i :: 0 <= i < |rs| && IsAddress(rs[i]) && r.value == Answer(rs[i].rdata, rs[i].ttl) &&
                              forall j :: 0 <= j < i ==> !IsAddress(rs[j]))
  {
    var m := MessageBytes(msg);
    MessageFields(msg, m);
    FirstAddressIs(msg.answers);
    hide MessageBytes, SkipFrom, Read16, RecordsBytes, GoodRecords, FirstAddress, IsAddress;
    WalkFindsFirst(m, SkipFrom(m, HEADER) + 4, msg.answers, msg.extra);
  }
}
