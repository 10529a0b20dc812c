/** Fixed-width integers, byte strings and the little- and big-endian encodings the kernel uses. */
module Bytes {

  type byte = x: int | 0 <= x < 0x100
  type uint16 = x: int | 0 <= x < 0x1_0000
  type uint32 = x: int | 0 <= x < 0x1_0000_0000

  datatype Option<+T> = None | Some(value: T)

  type char8 = x: int | 0 < x < 0x100 witness 1

  /** A C string, without its terminating NUL. */
  type CString = seq<char8>

  /** Character `k` of a C string in memory. */
  function CharAt(s: CString, k: nat): byte
    requires k <= |s|
  {
    if k < |s| then s[k] else 0
  }

  // ---- 32-bit unsigned arithmetic, as C does it --------------------------------------------

  function Wrap32(x: int): uint32 {
    x % 0x1_0000_0000
  }

  // ---- numbers as bytes ----------------------------------------------------------------------

  function Power256(n: nat): (r: nat)
    ensures r >= 1
  {
    if n == 0 then 1 else 0x100 * Power256(n - 1)
  }

  /** The `n` lowest bytes of `x`, lowest first. */
  function Le(x: nat, n: nat): (s: seq<byte>)
    ensures |s| == n
  {
    if n == 0 then [] else [x % 0x100] + Le(x / 0x100, n - 1)
  }

  /** The number a string of bytes spells, lowest byte first. */
  function FromLe(s: seq<byte>): (x: nat)
  {
    if s == [] then 0 else s[0] + 0x100 * FromLe(s[1..])
  }

  lemma MulMonotone(a: nat, b: nat, d: nat)
    requires a <= b
    ensures a * d <= b * d
  {
  }

  lemma DivModUnique(x: nat, d: nat, q: nat, r: nat)
    requires d >= 1 && x == q * d + r && r < d
    ensures x % d == r && x / d == q
  {
    if x / d < q {
      MulMonotone(x / d + 1, q, d);
    } else if q < x / d {
      MulMonotone(q + 1, x / d, d);
    }
  }

  lemma ModSplit(x: nat, p: nat)
    requires p >= 1
    ensures x % (0x100 * p) == x % 0x100 + 0x100 * ((x / 0x100) % p)
  {
    var q, r := x / 0x100, x % 0x100;
    var a, b := q / p, q % p;
    assert x == 0x100 * (a * p + b) + r;
    assert x == a * (0x100 * p) + (0x100 * b + r);
    DivModUnique(x, 0x100 * p, a, 0x100 * b + r);
  }

  lemma {:induction false} FromLeBound(s: seq<byte>)
    ensures FromLe(s) < Power256(|s|)
  {
    if s != [] {
      FromLeBound(s[1..]);
    }
  }

  lemma {:induction false} LeRoundTrip(x: nat, n: nat)
    ensures FromLe(Le(x, n)) == x % Power256(n)
  {
    if n > 0 {
      LeRoundTrip(x / 0x100, n - 1);
      ModSplit(x, Power256(n - 1));
      assert Le(x, n)[1..] == Le(x / 0x100, n - 1);
    }
  }

  lemma FourBytes(x: uint32)
    ensures Le(x, 4) == [x % 0x100, x / 0x100 % 0x100, x / 0x1_0000 % 0x100, x / 0x100_0000 % 0x100]
  {
    var a := x / 0x100;
    var b := a / 0x100;
    var c := b / 0x100;
    assert b == x / 0x1_0000 && c == x / 0x100_0000;
    assert Le(c, 1) == [c % 0x100];
    assert Le(b, 2) == [b % 0x100] + Le(c, 1);
    assert Le(a, 3) == [a % 0x100] + Le(b, 2);
  }

  lemma TwoBytes(x: uint16)
    ensures Le(x, 2) == [x % 0x100, x / 0x100]
  {
    assert Le(x / 0x100, 1) == [x / 0x100];
  }

  /** The 16- and 32-bit little-endian fields of a structure. */
  function U16(s: seq<byte>, o: nat): uint16
    requires o + 2 <= |s|
  {
    s[o] as int + 0x100 * (s[o + 1] as int)
  }

  function U32(s: seq<byte>, o: nat): uint32
    requires o + 4 <= |s|
  {
    s[o] as int + 0x100 * (s[o + 1] as int) + 0x1_0000 * (s[o + 2] as int) + 0x100_0000 * (s[o + 3] as int)
  }

  lemma U16Of(s: seq<byte>, o: nat, x: uint16)
    requires o + 2 <= |s| && s[o..o + 2] == Le(x, 2)
    ensures U16(s, o) == x
  {
    TwoBytes(x);
    assert s[o] == s[o..o + 2][0] && s[o + 1] == s[o..o + 2][1];
    hide Le;
  }

  lemma U32Of(s: seq<byte>, o: nat, x: uint32)
    requires o + 4 <= |s| && s[o..o + 4] == Le(x, 4)
    ensures U32(s, o) == x
  {
    FourBytes(x);
    assert s[o] == s[o..o + 4][0] && s[o + 1] == s[o..o + 4][1];
    assert s[o + 2] == s[o..o + 4][2] && s[o + 3] == s[o..o + 4][3];
    hide Le;
  }

  // ---- sequences ---------------------------------------------------------------------------

  function Zeros(n: nat): (s: seq<byte>)
    ensures |s| == n && forall i :: 0 <= i < n ==> s[i] == 0
  {
    seq(n, _ => 0)
  }

  /** What lies at `off` when the rest of `s` from there is `head + rest`. */
  lemma Peel<T>(s: seq<T>, off: nat, head: seq<T>, rest: seq<T>)
    requires off <= |s| && s[off..] == head + rest
    ensures off + |head| <= |s| && s[off..off + |head|] == head && s[off + |head|..] == rest
  {
    assert s[off..off + |head|] == s[off..][..|head|];
    assert s[off + |head|..] == s[off..][|head|..];
  }

  ghost predicate Distinct<T>(s: seq<T>) {
    forall i, j :: 0 <= i < j < |s| ==> s[i] != s[j]
  }

  /** The elements of a sequence. */
  ghost function Elems<T>(s: seq<T>): set<T> {
    set x | x in s
  }

  lemma {:induction false} DistinctCard<T>(s: seq<T>)
    requires Distinct(s)
    ensures |Elems(s)| == |s|
  {
    if s == [] {
      assert Elems(s) == {};
    } else {
      var n := |s| - 1;
      DistinctCard(s[..n]);
      assert Elems(s) == Elems(s[..n]) + {s[n]};
    }
  }
}
