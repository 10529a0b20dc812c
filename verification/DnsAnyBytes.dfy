/** The kernel's DNS reader on bytes that need not be a well-formed response: exactly what it accepts. */
module DnsAnyBytes {
  import opened Bytes
  import opened DnsName
  import opened DnsMessage

  // ---- names -------------------------------------------------------------------------------

  /** A name from `p` to `e`: length bytes at the places `ps`, each of 1 to 191 and followed by that many bytes,
      and at the last place the root, or two bytes of a compression pointer, the second of which may be missing. */
  ghost predicate NameSpan(m: seq<byte>, ps: seq<nat>, p: nat, e: nat) {
    && ps != [] && ps[0] == p
    && (forall i :: 0 <= i < |ps| ==> ps[i] < |m|)
    && (forall i :: 0 <= i < |ps| - 1 ==> 1 <= m[ps[i]] < 0xC0 && ps[i + 1] == ps[i] + 1 + m[ps[i]])
    && var last := ps[|ps| - 1];
       (m[last] == 0 && e == last + 1) || (m[last] >= 0xC0 && e == last + 2)
  }

  lemma {:induction false} SkipFindsSpan(m: seq<byte>, p: nat) returns (ps: seq<nat>)
    requires SkipFrom(m, p) != -1
    ensures SkipFrom(m, p) >= 0 && NameSpan(m, ps, p, SkipFrom(m, p))
    decreases |m| - p
  {
    ps := [p];
    if 1 <= m[p] < 0xC0 {
      var more := SkipFindsSpan(m, p + 1 + m[p]);
      ps := [p] + more;
    }
  }

  lemma {:induction false} SpanIsSkipped(m: seq<byte>, ps: seq<nat>, p: nat, e: nat)
    requires NameSpan(m, ps, p, e)
    ensures SkipFrom(m, p) == e
    decreases |ps|
  {
    if |ps| > 1 {
      assert NameSpan(m, ps[1..], ps[1], e);
      SpanIsSkipped(m, ps[1..], ps[1], e);
    }
  }

  /** skip_name accepts exactly such names, and returns their end; a length byte of 64 to 191, which RFC 1035 does
      not allow, is taken for a length like any other. */
  lemma SkipIff(m: seq<byte>, p: nat, e: nat)
    ensures SkipFrom(m, p) == e <==> exists ps :: NameSpan(m, ps, p, e)
  {
    hide NameSpan;
    if SkipFrom(m, p) == e {
      hide SkipFrom;
      var ps := SkipFindsSpan(m, p);
    }
    if ps :| NameSpan(m, ps, p, e) { SpanIsSkipped(m, ps, p, e); }
  }

  // ---- answers -----------------------------------------------------------------------------

  /** Two bytes as a number, highest first. */
  function Two(m: seq<byte>, o: nat): nat
    requires o + 2 <= |m|
  {
    m[o] as int * 256 + m[o + 1] as int
  }

  /** The ten bytes of fixed fields at `e` and the data behind them are inside the message. */
  predicate Inside(m: seq<byte>, e: int) {
    0 <= e && e + 10 <= |m| && e + 10 + Two(m, e + 8) <= |m|
  }

  /** Where the answer with fixed fields at `e` ends. */
  function Behind(m: seq<byte>, e: nat): nat
    requires Inside(m, e)
  {
    e + 10 + Two(m, e + 8)
  }

  /** TYPE is 1 and RDLENGTH is 4. */
  predicate AddressAt(m: seq<byte>, e: nat)
    requires Inside(m, e)
  {
    m[e] == 0 && m[e + 1] == 1 && m[e + 8] == 0 && m[e + 9] == 4
  }

  /** The four bytes of the address at `e`, and its TTL. */
  predicate Tells(m: seq<byte>, e: nat, a: Answer)
    requires Inside(m, e) && AddressAt(m, e)
  {
    && a.ip == [m[e + 10], m[e + 11], m[e + 12], m[e + 13]]
    && a.ttl == Two(m, e + 4) * 0x1_0000 + Two(m, e + 6)
  }

  /** The fixed fields of consecutive answers from `p` on are at `es`; the last is the only address, and says
      `a`. */
  ghost predicate Trail(m: seq<byte>, p: nat, es: seq<nat>, a: Answer) {
    && es != [] && es[0] == SkipFrom(m, p)
    && (forall i :: 0 <= i < |es| ==> Inside(m, es[i]) && (AddressAt(m, es[i]) <==> i == |es| - 1))
    && (forall i :: 0 <= i < |es| - 1 ==> es[i + 1] == SkipFrom(m, Behind(m, es[i])))
    && Tells(m, es[|es| - 1], a)
  }

  lemma TrailOne(m: seq<byte>, p: nat, e: nat, a: Answer)
    requires e == SkipFrom(m, p) && Inside(m, e) && AddressAt(m, e) && Tells(m, e, a)
    ensures Trail(m, p, [e], a)
  {
  }

  lemma TrailMore(m: seq<byte>, p: nat, e: nat, es: seq<nat>, a: Answer)
    requires e == SkipFrom(m, p) && Inside(m, e) && !AddressAt(m, e)
    ensures Trail(m, Behind(m, e), es, a) ==> Trail(m, p, [e] + es, a)
  {
    hide Inside, AddressAt, Behind, Tells, SkipFrom;
  }

  /** A trail is one address, or one answer more than a trail. */
  lemma TrailParts(m: seq<byte>, p: nat, es: seq<nat>, a: Answer)
    requires Trail(m, p, es, a)
    ensures es[0] == SkipFrom(m, p) && Inside(m, es[0])
    ensures AddressAt(m, es[0]) ==> |es| == 1 && Tells(m, es[0], a)
    ensures !AddressAt(m, es[0]) ==> |es| > 1 && Trail(m, Behind(m, es[0]), es[1..], a)
  {
    hide Inside, AddressAt, Behind, Tells, SkipFrom;
    if |es| > 1 {
      var more := es[1..];
      assert forall i :: 0 <= i < |more| ==> more[i] == es[i + 1];
    }
  }

  /** One turn of the walk. */
  lemma TurnIs(m: seq<byte>, p: nat, k: nat)
    requires k > 0
    ensures var e := SkipFrom(m, p);
            if !Inside(m, e) then WalkFrom(m, p, k).None?
            else if AddressAt(m, e) then WalkFrom(m, p, k).Some? && Tells(m, e, WalkFrom(m, p, k).value)
            else WalkFrom(m, p, k) == WalkFrom(m, Behind(m, e), k - 1)
  {
    WalkStep(m, p, k);
    hide SkipFrom, WalkFrom;
    var e := SkipFrom(m, p);
    if e >= 0 && e + 10 <= |m| { assert Read16(m, e + 8) == Two(m, e + 8); }
  }

  lemma TellsOne(m: seq<byte>, e: nat, a: Answer, b: Answer)
    requires Inside(m, e) && AddressAt(m, e) && Tells(m, e, a) && Tells(m, e, b)
    ensures a == b
  {
  }

  lemma {:induction false} WalkFindsTrail(m: seq<byte>, p: nat, k: nat) returns (es: seq<nat>)
    requires WalkFrom(m, p, k).Some?
    ensures |es| <= k && Trail(m, p, es, WalkFrom(m, p, k).value)
    decreases k
  {
    assert k > 0;
    hide AddressAt, Inside, Behind, SkipFrom, WalkFrom, Trail, Tells;
    TurnIs(m, p, k);
    var e, a := SkipFrom(m, p), WalkFrom(m, p, k).value;
    if AddressAt(m, e) {
      es := [e];
      InsideIsIn(m, e);
      TrailOne(m, p, e, a);
    } else {
      InsideIsIn(m, e);
      es := WalkFindsTrail(m, Behind(m, e), k - 1);
      TrailMore(m, p, e, es, a);
      es := [e] + es;
    }
  }

  lemma InsideIsIn(m: seq<byte>, e: int)
    requires Inside(m, e)
    ensures 0 <= e < |m|
  {
  }

  lemma {:induction false} TrailIsWalked(m: seq<byte>, p: nat, k: nat, es: seq<nat>, a: Answer)
    requires |es| <= k && Trail(m, p, es, a)
    ensures WalkFrom(m, p, k) == Some(a)
    decreases k
  {
    assert es != [];
    hide AddressAt, Inside, Behind, SkipFrom, WalkFrom, Trail, Tells;
    TurnIs(m, p, k);
    TrailParts(m, p, es, a);
    if AddressAt(m, es[0]) {
      TellsOne(m, es[0], a, WalkFrom(m, p, k).value);
    } else {
      TrailIsWalked(m, Behind(m, es[0]), k - 1, es[1..], a);
    }
  }

  /** From any bytes received, an address is taken exactly when there is a header, a count of at least one answer,
      a question whose name can be skipped, and then, within the count, answers that lie inside the message, of
      which the last is the first address; and it is that one with its TTL. */
  lemma ParseIff(m: seq<byte>, a: Answer)
    ensures Parse(m) == Some(a) <==>
            && |m| >= 12 && SkipFrom(m, 12) >= 0 && SkipFrom(m, 12) + 4 <= |m|
            && exists es :: |es| <= Two(m, 6) && Trail(m, SkipFrom(m, 12) + 4, es, a)
  {
    hide SkipFrom, WalkFrom, Trail;
    if |m| >= 12 && SkipFrom(m, 12) >= 0 && SkipFrom(m, 12) + 4 <= |m| {
      var p: nat, k: nat := SkipFrom(m, 12) + 4, Two(m, 6);
      assert Read16(m, 6) == k;
      if Parse(m) == Some(a) { var es := WalkFindsTrail(m, p, k); }
      if es :| |es| <= k && Trail(m, p, es, a) {
        TrailHasOne(m, p, es, a);
        TrailIsWalked(m, p, k, es, a);
      }
    }
  }

  lemma TrailHasOne(m: seq<byte>, p: nat, es: seq<nat>, a: Answer)
    requires Trail(m, p, es, a)
    ensures |es| >= 1
  {
  }
}
