/** Host names in DNS messages (encode_name and skip_name in kernel/dns.c; sections 3.1 and 4.1.4 of RFC 1035). */
module DnsName {
  import opened Bytes

  const DOT: char8 := 46
  const MAX_LABEL := 63

  type Label = seq<byte>

  /** Where the label that starts the string ends. */
  function LabelEnd(name: CString): (k: nat)
    ensures k <= |name|
    ensures forall i :: 0 <= i < k ==> name[i] != DOT
    ensures k < |name| ==> name[k] == DOT
  {
    if name == [] || name[0] == DOT then 0 else 1 + LabelEnd(name[1..])
  }

  /** What follows the first label and its dot. */
  function AfterLabel(name: CString): (rest: CString)
    requires name != []
    ensures |rest| < |name|
  {
    var k := LabelEnd(name);
    if k < |name| then name[k + 1..] else []
  }

  /** The dot-separated labels; one trailing dot adds none. */
  function Labels(name: CString): seq<CString>
    decreases |name|
  {
    if name == [] then [] else [name[..LabelEnd(name)]] + Labels(AfterLabel(name))
  }

  predicate GoodLabel(l: seq<byte>) {
    1 <= |l| <= MAX_LABEL
  }

  predicate GoodLabels(ls: seq<seq<byte>>) {
    ls == [] || (GoodLabel(ls[0]) && GoodLabels(ls[1..]))
  }

  /** Labels in wire form, without the root. */
  function LabelBytes(ls: seq<seq<byte>>): seq<byte>
    requires GoodLabels(ls)
  {
    if ls == [] then [] else [|ls[0]| as byte] + (ls[0] + LabelBytes(ls[1..]))
  }

  /** A whole name in wire form. */
  function Wire(ls: seq<seq<byte>>): seq<byte>
    requires GoodLabels(ls)
  {
    LabelBytes(ls) + [0]
  }

  /** Labels back to a string. */
  function Join(ls: seq<CString>): CString {
    if ls == [] then [] else if |ls| == 1 then ls[0] else ls[0] + [DOT] + Join(ls[1..])
  }

  lemma SplitAtDot(name: CString)
    requires name != []
    ensures var k := LabelEnd(name);
            if k == |name| then name[..k] == name && AfterLabel(name) == []
            else name[..k] + ([DOT] + AfterLabel(name)) == name
  {
    hide LabelEnd;
    var k := LabelEnd(name);
    if k < |name| { SplitAt(name, k); }
  }

  lemma SplitAt<T>(s: seq<T>, k: nat)
    requires k < |s|
    ensures s[..k] + ([s[k]] + s[k + 1..]) == s
  {
  }

  lemma JoinMore(first: CString, ls: seq<CString>, rest: CString)
    requires ls != [] && (Join(ls) == rest || Join(ls) + [DOT] == rest)
    ensures var j, n := Join([first] + ls), first + ([DOT] + rest); j == n || j + [DOT] == n
  {
    assert ([first] + ls)[1..] == ls;
    assert Join([first] + ls) == first + [DOT] + Join(ls);
    hide Join;
    assert first + [DOT] + Join(ls) == first + ([DOT] + Join(ls));
    assert first + [DOT] + Join(ls) + [DOT] == first + ([DOT] + (Join(ls) + [DOT]));
  }

  /** The labels spell the name; only a trailing dot is forgotten. */
  lemma {:induction false} JoinLabels(name: CString)
    ensures Join(Labels(name)) == name || Join(Labels(name)) + [DOT] == name
    decreases |name|
  {
    if name != [] {
      var first, rest := name[..LabelEnd(name)], AfterLabel(name);
      SplitAtDot(name);
      JoinLabels(rest);
      assert Labels(name) == [first] + Labels(rest);
      if rest == [] {
        assert Labels(name) == [first] && Join([first]) == first;
      } else {
        assert Labels(rest) != [];
        hide LabelEnd, AfterLabel, Labels, Join;
        JoinMore(first, Labels(rest), rest);
      }
    }
  }

  // ---- encode_name -------------------------------------------------------------------------

  /** encode_name succeeds exactly when every label has 1 to 63 bytes and the wire form fits. */
  predicate Encodes(name: CString, cap: nat) {
    GoodLabels(Labels(name)) && |Wire(Labels(name))| <= cap
  }

  lemma OneMoreLabel(first: CString, rest: seq<CString>)
    ensures GoodLabels([first] + rest) <==> GoodLabel(first) && GoodLabels(rest)
    ensures GoodLabels([first] + rest) ==> Wire([first] + rest) == [|first| as byte] + (first + Wire(rest))
  {
    var all := [first] + rest;
    assert all[1..] == rest;
    hide GoodLabel;
    assert forall i :: 0 <= i < |rest| ==> all[i + 1] == rest[i];
  }

  lemma LabelStep(name: CString)
    requires name != []
    ensures var first, rest := name[..LabelEnd(name)], AfterLabel(name);
            && (GoodLabels(Labels(name)) <==> GoodLabel(first) && GoodLabels(Labels(rest)))
            && (GoodLabels(Labels(name)) ==> Wire(Labels(name)) == [|first| as byte] + (first + Wire(Labels(rest))))
  {
    var first, rest := name[..LabelEnd(name)], AfterLabel(name);
    assert Labels(name) == [first] + Labels(rest);
    hide LabelEnd, AfterLabel, Labels;
    OneMoreLabel(first, Labels(rest));
  }

  lemma {:induction false} LabelEndIs(name: CString, k: nat)
    requires k <= |name| && (k < |name| ==> name[k] == DOT)
    requires forall i :: 0 <= i < k ==> name[i] != DOT
    ensures LabelEnd(name) == k
  {
    if k > 0 { LabelEndIs(name[1..], k - 1); }
  }

  /** Scan for the end of the label at `p`. */
  method FindEnd(name: CString, p: nat) returns (q: nat)
    requires p <= |name|
    ensures q == p + LabelEnd(name[p..]) && p <= q <= |name|
  {
    q := p;
    while q < |name| && name[q] != DOT
      invariant p <= q <= |name|
      invariant forall i :: p <= i < q ==> name[i] != DOT
    {
      q := q + 1;
    }
    LabelEndIs(name[p..], q - p);
  }

  /** The length byte and the bytes of one label. */
  method PutLabel(dst: array<byte>, at: nat, text: CString)
    requires |text| <= MAX_LABEL && at + 1 + |text| <= dst.Length
    modifies dst
    ensures dst[..at] == old(dst[..at]) && dst[at + 1 + |text|..] == old(dst[at + 1 + |text|..])
    ensures dst[at..at + 1 + |text|] == [|text| as byte] + text
  {
    ghost var was := dst[..];
    dst[at] := |text|;
    for i := 0 to |text|
      invariant dst[..at] == was[..at] && dst[at] == |text| && dst[at + 1 + |text|..] == was[at + 1 + |text|..]
      invariant forall j :: 0 <= j < i ==> dst[at + 1 + j] == text[j]
    {
      dst[at + 1 + i] := text[i];
    }
  }

  /** `rest` is left to encode, and `out` has been written for the labels before it. */
  ghost predicate Encoding(name: CString, rest: CString, out: seq<byte>) {
    && (GoodLabels(Labels(name)) <==> GoodLabels(Labels(rest)))
    && (GoodLabels(Labels(name)) ==> Wire(Labels(name)) == out + Wire(Labels(rest)))
  }

  lemma EncodingStep(name: CString, rest: CString, first: CString, after: CString, out: seq<byte>)
    requires Encoding(name, rest, out) && rest != [] && first == rest[..LabelEnd(rest)] && after == AfterLabel(rest)
    ensures GoodLabels(Labels(name)) ==> GoodLabel(first) && |Wire(Labels(name))| >= |out| + 1 + |first| + 1
    ensures GoodLabel(first) ==> Encoding(name, after, out + ([|first| as byte] + first))
  {
    hide LabelEnd, AfterLabel, Labels, GoodLabels, Wire;
    LabelStep(rest);
    if GoodLabels(Labels(name)) {
      var l, t := [|first| as byte] + first, Wire(Labels(after));
      assert [|first| as byte] + (first + t) == l + t;
      assert out + (l + t) == (out + l) + t;
      WireLong(Labels(after));
    }
  }

  /** The label and the rest, by position. */
  lemma RestAt(name: CString, p: nat, q: nat)
    requires p < |name| && q == p + LabelEnd(name[p..]) <= |name|
    ensures name[p..][..LabelEnd(name[p..])] == name[p..q]
    ensures AfterLabel(name[p..]) == name[if q < |name| then q + 1 else q..]
  {
    hide LabelEnd;
  }

  lemma WireLong(ls: seq<seq<byte>>)
    requires GoodLabels(ls)
    ensures |Wire(ls)| >= 1
  {
  }

  lemma EncodingEnds(name: CString, out: seq<byte>)
    requires Encoding(name, [], out)
    ensures GoodLabels(Labels(name)) && Wire(Labels(name)) == out + [0]
  {
    assert Labels([]) == [];
  }

  /** Everything outside the `cap` bytes at `base` is as it was. */
  predicate Outside(a: seq<byte>, b: seq<byte>, base: nat, cap: nat)
    requires |a| == |b| && base + cap <= |a|
  {
    b[..base] == a[..base] && b[base + cap..] == a[base + cap..]
  }

  /** One turn of encode_name's loop: the label at `p` goes to offset `o`, unless it is refused. */
  method EncodeTurn(name: CString, p: nat, dst: array<byte>, base: nat, cap: nat, o: nat)
    returns (ok: bool, o1: nat, p1: nat)
    requires p < |name| && o <= cap && base + cap <= dst.Length && Encoding(name, name[p..], dst[base..base + o])
    modifies dst
    ensures Outside(old(dst[..]), dst[..], base, cap)
    ensures !ok ==> !Encodes(name, cap)
    ensures ok ==> p < p1 <= |name| && o1 <= cap && Encoding(name, name[p1..], dst[base..base + o1])
  {
    hide Labels, GoodLabels, Wire, LabelEnd, Encoding, LabelBytes, AfterLabel;
    ghost var was, written := dst[..], dst[base..base + o];
    o1, p1 := o, p;
    var q := FindEnd(name, p);
    var len := q - p;
    RestAt(name, p, q);
    EncodingStep(name, name[p..], name[p..q], name[if q < |name| then q + 1 else q..], written);
    if len == 0 || len > MAX_LABEL { return false, o, p; }
    if o + 1 + len + 1 > cap { return false, o, p; }
    PutLabel(dst, base + o, name[p..q]);
    Written(was, dst[..], base, cap, o, 1 + len);
    ok, o1, p1 := true, o + 1 + len, if q < |name| then q + 1 else q;
  }

  /** encode_name into `cap` bytes at `base`: the length of the wire form, or -1 when a label is empty or too
      long or the name does not fit. */
  method EncodeName(name: CString, dst: array<byte>, base: nat, cap: nat) returns (n: int)
    requires base + cap <= dst.Length
    modifies dst
    ensures n == -1 <==> !Encodes(name, cap)
    ensures n != -1 ==> n == |Wire(Labels(name))| && dst[base..base + n] == Wire(Labels(name))
    ensures Outside(old(dst[..]), dst[..], base, cap)
  {
    hide Labels, GoodLabels, Wire, LabelEnd, Encoding, LabelBytes;
    var o: nat, p: nat := 0, 0;
    EncodingStarts(name);
    assert dst[base..base + o] == [];
    while p < |name|
      invariant o <= cap && p <= |name|
      invariant Encoding(name, name[p..], dst[base..base + o])
      invariant Outside(old(dst[..]), dst[..], base, cap)
    {
      var ok;
      ok, o, p := EncodeTurn(name, p, dst, base, cap, o);
      if !ok { return -1; }
    }
    assert name[p..] == [];
    ghost var written := dst[base..base + o];
    EncodingEnds(name, written);
    if o + 1 > cap { return -1; }
    dst[base + o] := 0;
    o := o + 1;
    assert dst[base..base + o] == written + [0];
    n := o;
  }

  lemma EncodingStarts(name: CString)
    ensures Encoding(name, name[0..], [])
  {
    assert name[0..] == name;
  }

  lemma Written(a: seq<byte>, b: seq<byte>, base: nat, cap: nat, o: nat, n: nat)
    requires |a| == |b| && o + n <= cap && base + cap <= |a|
    requires b[..base + o] == a[..base + o] && b[base + o + n..] == a[base + o + n..]
    ensures Outside(a, b, base, cap)
    ensures b[base..base + o + n] == a[base..base + o] + b[base + o..base + o + n]
  {
    assert b[..base] == b[..base + o][..base] && a[..base] == a[..base + o][..base];
    assert b[base + cap..] == b[base + o + n..][cap - o - n..] && a[base + cap..] == a[base + o + n..][cap - o - n..];
    assert b[base..base + o] == b[..base + o][base..] && a[base..base + o] == a[..base + o][base..];
  }
}
