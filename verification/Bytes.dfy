// Bytes, and little-endian integers of any width (byte_convert.c).

module Bytes {
  type byte = x: int | 0 <= x < 256

  /** A value that may be missing: a null pointer, or a refused decryption. */
  datatype Option<+T> = None | Some(value: T)

  function Repeat(b: byte, n: nat): (s: seq<byte>)
    ensures |s| == n
    ensures forall i :: 0 <= i < n ==> s[i] == b
  {
    seq(n, _ => b)
  }

  function Pow256(n: nat): (p: nat)
    ensures p > 0
  {
    if n == 0 then 1 else 256 * Pow256(n - 1)
  }

  /** The first `n` bytes of `v`, least significant first. */
  function PutLe(v: nat, n: nat): (s: seq<byte>)
    ensures |s| == n
    decreases n
  {
    if n == 0 then [] else [v % 256] + PutLe(v / 256, n - 1)
  }

  function GetLe(s: seq<byte>): nat {
    if s == [] then 0 else s[0] + 256 * GetLe(s[1..])
  }

  /** Writing `n` bytes and reading them back truncates to `n` bytes. */
  lemma {:induction false} GetPut(v: nat, n: nat)
    ensures GetLe(PutLe(v, n)) == v % Pow256(n)
    decreases n
  {
    if n > 0 {
      var p := Pow256(n - 1);
      GetPut(v / 256, n - 1);
      assert PutLe(v, n)[1..] == PutLe(v / 256, n - 1);
      DivModNested(v, p);
    }
  }

  lemma DivModNested(v: nat, p: nat)
    requires p > 0
    ensures v % (256 * p) == v % 256 + 256 * ((v / 256) % p)
  {
    var q, r := (v / 256) / p, (v / 256) % p;
    var low := v % 256 + 256 * r;
    assert v == (256 * p) * q + low by {
      assert v / 256 == p * q + r;
      assert 256 * (p * q) == (256 * p) * q;
    }
    assert 0 <= low < 256 * p by { assert r <= p - 1; }
    DivModUnique(v, 256 * p, q, low);
  }

  lemma DivModUnique(v: int, d: int, q: int, r: int)
    requires 0 <= r < d && v == d * q + r
    ensures v / d == q && v % d == r
  {
    var q', r' := v / d, v % d;
    FundamentalDivMod(v, d);
    var k := q - q';
    assert d * k == d * q - d * q' == r' - r;
    if k >= 1 { MulAtLeast(d, k); assert false; }
    if k <= -1 { assert d * -k == r - r'; MulAtLeast(d, -k); assert false; }
  }

  lemma FundamentalDivMod(v: int, d: int)
    requires d > 0
    ensures v == d * (v / d) + v % d && 0 <= v % d < d
  {}

  lemma MulAtLeast(d: int, k: int)
    requires d > 0 && k >= 1
    ensures d * k >= d
  {}

  /** Reading bytes and writing them back is the identity, so numbers below the bound and byte strings
      of that width are in one-to-one correspondence. */
  lemma {:induction false} PutGet(s: seq<byte>)
    ensures GetLe(s) < Pow256(|s|)
    ensures PutLe(GetLe(s), |s|) == s
  {
    if s != [] {
      PutGet(s[1..]);
      DivModUnique(GetLe(s), 256, GetLe(s[1..]), s[0]);
      assert s == [s[0]] + s[1..];
    }
  }

  lemma SliceOfSlice<T>(s: seq<T>, lo: int, hi: int, a: int, b: int)
    requires 0 <= lo <= hi <= |s| && 0 <= a <= b <= hi - lo
    ensures s[lo..hi][a..b] == s[lo + a..lo + b]
  {
    var l, r := s[lo..hi][a..b], s[lo + a..lo + b];
    assert forall i :: 0 <= i < |l| ==> l[i] == r[i];
  }

  // ----- bitwise or on natural numbers -----

  function TwoTo(k: nat): (p: nat)
    ensures p > 0
  {
    if k == 0 then 1 else 2 * TwoTo(k - 1)
  }

  function BitOr(a: nat, b: nat): nat
    decreases a + b
  {
    if a == 0 && b == 0 then 0 else 2 * BitOr(a / 2, b / 2) + if a % 2 == 1 || b % 2 == 1 then 1 else 0
  }

  lemma {:induction false} BitOrZero(b: nat)
    ensures BitOr(0, b) == b
  {
    if b > 0 {
      BitOrZero(b / 2);
    }
  }

  lemma {:induction false} BitOrCommutes(a: nat, b: nat)
    ensures BitOr(a, b) == BitOr(b, a)
    decreases a + b
  {
    if a > 0 || b > 0 {
      BitOrCommutes(a / 2, b / 2);
    }
  }

  lemma {:induction false} BitOrAssociates(a: nat, b: nat, c: nat)
    ensures BitOr(BitOr(a, b), c) == BitOr(a, BitOr(b, c))
    decreases a + b + c
  {
    if a > 0 || b > 0 || c > 0 {
      BitOrHalves(a, b);
      BitOrHalves(b, c);
      BitOrAssociates(a / 2, b / 2, c / 2);
    }
  }

  lemma BitOrHalves(a: nat, b: nat)
    ensures BitOr(a, b) / 2 == BitOr(a / 2, b / 2)
    ensures BitOr(a, b) % 2 == 1 <==> a % 2 == 1 || b % 2 == 1
    ensures BitOr(a, b) == 0 <==> a == 0 && b == 0
  {}

  lemma {:induction false} BitOrBound(a: nat, b: nat, k: nat)
    requires a < TwoTo(k) && b < TwoTo(k)
    ensures BitOr(a, b) < TwoTo(k)
    decreases k
  {
    if k > 0 {
      BitOrBound(a / 2, b / 2, k - 1);
    }
  }

  /** Or-ing in bits above all those that are set adds them. */
  lemma {:induction false} BitOrAdds(a: nat, c: nat, k: nat)
    requires a < TwoTo(k)
    ensures c * TwoTo(k) >= 0 && BitOr(a, c * TwoTo(k)) == a + c * TwoTo(k)
    decreases k
  {
    if k == 0 {
      BitOrZero(c);
    } else {
      var h := c * TwoTo(k - 1);
      assert c * TwoTo(k) == 2 * h;
      BitOrAdds(a / 2, c, k - 1);
    }
  }

  lemma {:induction false} TwoToBytes(n: nat)
    ensures TwoTo(8 * n) == Pow256(n)
  {
    if n > 0 {
      TwoToBytes(n - 1);
      var m := 8 * (n - 1);
      assert TwoTo(m + 1) == 2 * TwoTo(m) && TwoTo(m + 2) == 2 * TwoTo(m + 1) && TwoTo(m + 3) == 2 * TwoTo(m + 2);
      assert TwoTo(m + 4) == 2 * TwoTo(m + 3) && TwoTo(m + 5) == 2 * TwoTo(m + 4) && TwoTo(m + 6) == 2 * TwoTo(m + 5);
      assert TwoTo(m + 7) == 2 * TwoTo(m + 6) && TwoTo(m + 8) == 2 * TwoTo(m + 7);
    }
  }
}
