// The accessory's side of SRP-6a (mu_srp.c), and the client's side of section 2.6 of RFC 5054,
// whose formula is that of srp_tool.py.

module ModularArithmetic {
  import opened Bytes

  function Pow(b: int, e: nat): int {
    if e == 0 then 1 else b * Pow(b, e - 1)
  }

  lemma {:induction false} PowAdd(b: int, d: nat, e: nat)
    ensures Pow(b, d + e) == Pow(b, d) * Pow(b, e)
    decreases d
  {
    if d > 0 {
      PowAdd(b, d - 1, e);
      assert b * (Pow(b, d - 1) * Pow(b, e)) == (b * Pow(b, d - 1)) * Pow(b, e);
    }
  }

  lemma {:induction false} PowPow(b: int, d: nat, e: nat)
    ensures Pow(Pow(b, d), e) == Pow(b, d * e)
    decreases e
  {
    if e > 0 {
      PowPow(b, d, e - 1);
      assert d * e == d + d * (e - 1);
      PowAdd(b, d, d * (e - 1));
    }
  }

  /** x and y leave the same remainder. */
  predicate Cong(x: int, y: int, n: int)
    requires n > 0
  {
    x % n == y % n
  }

  lemma AddMultiple(x: int, k: int, n: int)
    requires n > 0
    ensures Cong(x + n * k, x, n)
  {
    FundamentalDivMod(x, n);
    assert n * (x / n + k) == n * (x / n) + n * k;
    DivModUnique(x + n * k, n, x / n + k, x % n);
  }

  lemma ModCong(x: int, n: int)
    requires n > 0
    ensures Cong(x % n, x, n) && 0 <= x % n < n
  {
    FundamentalDivMod(x, n);
    DivModUnique(x % n, n, 0, x % n);
  }

  // Congruent numbers differ by a multiple.
  lemma CongMultiple(x: int, y: int, n: int) returns (k: int)
    requires n > 0 && Cong(x, y, n)
    ensures x == y + n * k
  {
    FundamentalDivMod(x, n);
    FundamentalDivMod(y, n);
    k := x / n - y / n;
    assert n * k == n * (x / n) - n * (y / n);
  }

  lemma CongAdd(x: int, y: int, z: int, n: int)
    requires n > 0 && Cong(x, y, n)
    ensures Cong(x + z, y + z, n)
  {
    var k := CongMultiple(x, y, n);
    AddMultiple(y + z, k, n);
  }

  lemma CongTimes(x: int, y: int, z: int, n: int)
    requires n > 0 && Cong(x, y, n)
    ensures Cong(x * z, y * z, n)
  {
    var k := CongMultiple(x, y, n);
    assert x * z == y * z + n * (k * z) by {
      assert (n * k) * z == n * (k * z);
    }
    AddMultiple(y * z, k * z, n);
  }

  lemma CongMul(x: int, y: int, x': int, y': int, n: int)
    requires n > 0 && Cong(x, y, n) && Cong(x', y', n)
    ensures Cong(x * x', y * y', n)
  {
    CongTimes(x, y, x', n);
    CongTimes(x', y', y, n);
    assert x' * y == y * x' && y' * y == y * y';
  }

  lemma {:induction false} CongPow(x: int, y: int, e: nat, n: int)
    requires n > 0 && Cong(x, y, n)
    ensures Cong(Pow(x, e), Pow(y, e), n)
  {
    if e > 0 {
      CongPow(x, y, e - 1, n);
      CongMul(x, y, Pow(x, e - 1), Pow(y, e - 1), n);
    }
  }
}

module Srp {
  import opened Bytes
  import opened ModularArithmetic

  type bytes = seq<byte>

  // ----- the bignum library: results as it returns them -----

  function ExpMod(a: int, b: nat, c: int): int
    requires c > 0
  {
    Pow(a, b) % c
  }

  function MulMod(a: int, b: int, c: int): int
    requires c > 0
  {
    a * b % c
  }

  function AddMod(a: int, b: int, c: int): int
    requires c > 0
  {
    (a + b) % c
  }

  // ----- the values of the protocol, without intermediate reductions -----

  /** B of section 2.5.3 of RFC 5054. */
  function HostPublic(n: int, g: int, k: int, v: int, b: nat): int
    requires n > 0
  {
    (k * v + Pow(g, b)) % n
  }

  /** The host's premaster secret of section 2.6 of RFC 5054. */
  function HostSecret(n: int, v: int, A: int, u: nat, b: nat): int
    requires n > 0
  {
    Pow(A * Pow(v, u), b) % n
  }

  /** The client's premaster secret of section 2.6 of RFC 5054; srp_tool.py computes the same formula. */
  function ClientSecret(n: int, g: int, B: int, k: int, x: nat, a: nat, u: nat): int
    requires n > 0
  {
    Pow(B - k * ExpMod(g, x, n), a + u * x) % n
  }

  lemma HostPublicReduced(n: int, g: int, k: int, v: int, b: nat)
    requires n > 0
    ensures AddMod(MulMod(k, v, n), ExpMod(g, b, n), n) == HostPublic(n, g, k, v, b)
  {
    hide Pow;
    var p := Pow(g, b);
    ModCong(k * v, n);
    ModCong(p, n);
    CongAdd(k * v % n, k * v, p % n, n);
    CongAdd(p % n, p, k * v, n);
  }

  lemma HostSecretReduced(n: int, v: int, A: int, u: nat, b: nat)
    requires n > 0
    ensures ExpMod(MulMod(A, ExpMod(v, u, n), n), b, n) == HostSecret(n, v, A, u, b)
  {
    hide Pow;
    var p := Pow(v, u);
    ModCong(p, n);
    CongMul(A, A, p % n, p, n);
    ModCong(A * (p % n), n);
    CongPow(A * (p % n) % n, A * p, b, n);
  }

  /** Both sides reach the same premaster secret: g^(b * (a + u * x)) modulo n. */
  lemma SecretsAgree(n: int, g: int, k: int, x: nat, a: nat, b: nat, u: nat)
    requires n > 0
    ensures var v := ExpMod(g, x, n); var A := ExpMod(g, a, n); var B := HostPublic(n, g, k, v, b);
      HostSecret(n, v, A, u, b) == ClientSecret(n, g, B, k, x, a, u)
  {
    hide Pow;
    var v, A := ExpMod(g, x, n), ExpMod(g, a, n);
    var B := HostPublic(n, g, k, v, b);
    var e := a + u * x;
    // the client's base is g^b
    ModCong(k * v + Pow(g, b), n);
    CongAdd(B, k * v + Pow(g, b), -(k * v), n);
    CongPow(B - k * v, Pow(g, b), e, n);
    PowPow(g, b, e);
    // the host's base is g^(a + u * x)
    ModCong(Pow(g, a), n);
    ModCong(Pow(g, x), n);
    CongPow(v, Pow(g, x), u, n);
    PowPow(g, x, u);
    CongMul(A, Pow(g, a), Pow(v, u), Pow(g, x * u), n);
    PowAdd(g, a, x * u);
    assert x * u == u * x;
    CongPow(A * Pow(v, u), Pow(g, e), b, n);
    PowPow(g, e, b);
    assert b * e == e * b;
  }

  // ----- big-endian strings -----

  /** mu_bn_new_from_bin, and bytes_to_long of srp_tool.py. */
  function FromBin(s: bytes): nat {
    if s == [] then 0 else FromBin(s[..|s| - 1]) * 256 + s[|s| - 1]
  }

  /** mu_bn_to_bin, and long_to_bytes of srp_tool.py: as short as possible. */
  function ToBin(n: nat): (s: bytes)
    ensures n > 0 ==> s != []
  {
    if n == 0 then [] else ToBin(n / 256) + [n % 256]
  }

  lemma {:induction false} BinBack(n: nat)
    ensures FromBin(ToBin(n)) == n
  {
    if n > 0 {
      BinBack(n / 256);
      assert ToBin(n)[..|ToBin(n)| - 1] == ToBin(n / 256);
    }
  }

  lemma {:induction false} NoLeadingZero(n: nat)
    ensures ToBin(n) == [] || ToBin(n)[0] != 0
  {
    if n >= 256 {
      NoLeadingZero(n / 256);
      assert ToBin(n)[0] == ToBin(n / 256)[0];
    }
  }

  // The first byte is not zero, so there is no shorter string for the number.
  lemma {:induction false} ShortestBack(s: bytes)
    requires s == [] || s[0] != 0
    ensures ToBin(FromBin(s)) == s
  {
    if s != [] {
      var t, last := s[..|s| - 1], s[|s| - 1];
      ShortestBack(t);
      var m := FromBin(t);
      assert m == 0 ==> t == [];
      assert (m * 256 + last) / 256 == m && (m * 256 + last) % 256 == last;
      assert t + [last] == s;
    }
  }

  /** A string comes back from its number exactly when it has no leading zero. */
  lemma StringBack(s: bytes)
    ensures ToBin(FromBin(s)) == s <==> s == [] || s[0] != 0
  {
    NoLeadingZero(FromBin(s));
    if s == [] || s[0] != 0 {
      ShortestBack(s);
    }
  }

  function Reverse(s: bytes): (r: bytes)
    ensures |r| == |s|
  {
    if s == [] then [] else Reverse(s[1..]) + [s[0]]
  }

  lemma {:induction false} ReverseAppend(s: bytes, b: byte)
    ensures Reverse(s + [b]) == [b] + Reverse(s)
  {
    if s != [] {
      assert (s + [b])[1..] == s[1..] + [b];
      ReverseAppend(s[1..], b);
    }
  }

  method BytesToLong(s: bytes) returns (n: nat)
    ensures n == FromBin(s)
  {
    n := 0;
    for i := 0 to |s|
      invariant n == FromBin(s[..i])
    {
      assert s[..i + 1][..i] == s[..i];
      ShiftAndOr(n, s[i]);
      n := BitOr(n * 256, s[i]);
    }
    assert s[..|s|] == s;
  }

  lemma ShiftAndOr(n: nat, b: byte)
    ensures BitOr(n * 256, b) == n * 256 + b
  {
    TwoToBytes(1);
    assert Pow256(1) == 256 * Pow256(0);
    BitOrAdds(b, n, 8);
    BitOrCommutes(b, n * 256);
  }

  /** Collects bytes from the low end until all of n has been seen. */
  method LongToBytes(n: nat) returns (r: bytes)
    ensures r == ToBin(n)
  {
    var l: bytes := [];
    var x, off := 0, 0;
    ghost var rest := n;
    while x != n
      invariant off == 8 * |l| && x == n % Pow256(|l|) && rest == n / Pow256(|l|)
      invariant ToBin(n) == ToBin(rest) + Reverse(l)
      decreases rest
    {
      var shift := TwoTo(off);
      TwoToBytes(|l|);
      NextByte(n, |l|);
      var b := n / shift % 256;
      ReverseAppend(l, b);
      BitOrAdds(x, b, off);
      assert ToBin(rest) == ToBin(rest / 256) + [b];
      assert ToBin(rest / 256) + [b] + Reverse(l) == ToBin(rest / 256) + ([b] + Reverse(l));
      l := l + [b];
      x := BitOr(x, b * shift);
      off := off + 8;
      rest := rest / 256;
    }
    SmallRest(n, |l|);
    r := Reverse(l);
  }

  lemma NextByte(n: nat, i: nat)
    ensures n % Pow256(i) < Pow256(i)
    ensures n % Pow256(i + 1) == n % Pow256(i) + (n / Pow256(i) % 256) * Pow256(i)
    ensures n / Pow256(i + 1) == n / Pow256(i) / 256
    ensures n % Pow256(i) != n ==> n / Pow256(i) > 0
  {
    NextDigit(n, Pow256(i));
  }

  lemma NextDigit(n: nat, p: nat)
    requires p > 0
    ensures n % p < p && (n % p != n ==> n / p > 0)
    ensures n % (256 * p) == n % p + (n / p % 256) * p
    ensures n / (256 * p) == n / p / 256
  {
    FundamentalDivMod(n, p);
    SplitDigit(n, p, n / p, n % p);
    assert n / p == 0 ==> n % p == n;
  }

  lemma SplitDigit(n: nat, p: nat, q: nat, r: nat)
    requires r < p && n == p * q + r
    ensures n % (256 * p) == r + q % 256 * p && n / (256 * p) == q / 256
  {
    assert q == 256 * (q / 256) + q % 256;
    Regroup(p, q / 256, q % 256, r);
    Below(q % 256, p, r);
    DivModUnique(n, 256 * p, q / 256, r + q % 256 * p);
  }

  lemma Regroup(p: int, q: int, b: int, r: int)
    ensures p * (256 * q + b) + r == (256 * p) * q + (r + b * p)
  {
    assert p * (256 * q + b) == p * (256 * q) + p * b;
    assert p * (256 * q) == (256 * p) * q;
  }

  lemma Below(b: nat, p: nat, r: nat)
    requires b < 256 && r < p
    ensures 0 <= r + b * p < 256 * p
  {
    assert b * p + (255 - b) * p == 255 * p;
  }

  lemma SmallRest(n: nat, i: nat)
    requires n % Pow256(i) == n
    ensures n / Pow256(i) == 0
  {
    FundamentalDivMod(n, Pow256(i));
    var q := n / Pow256(i);
    if q >= 1 { MulAtLeast(Pow256(i), q); }
  }

  // ----- the handle -----

  type Hash = bytes -> bytes

  function Pad(s: bytes, n: nat): bytes
    requires |s| <= n
  {
    Repeat(0, n - |s|) + s
  }

  /** The multiplier k of section 2.5.3 of RFC 5054. */
  function Multiplier(sha: Hash, n: nat, g: nat): nat
    requires 0 < g < n
  {
    ToBinMonotone(g, n);
    FromBin(sha(ToBin(n) + Pad(ToBin(g), |ToBin(n)|)))
  }

  /** The scrambling parameter u of section 2.6 of RFC 5054, for public values as sent. */
  function Scrambler(sha: Hash, lenN: nat, bytesA: bytes, bytesB: bytes): nat
    requires |bytesA| <= lenN && |bytesB| <= lenN
  {
    FromBin(sha(Pad(bytesA, lenN) + Pad(bytesB, lenN)))
  }

  /** n bytes, zeros and then exactly a; and after them n bytes, zeros and then exactly b. */
  predicate Halves(x: bytes, n: nat, a: bytes, b: bytes) {
    && |x| == 2 * n && |a| <= n && |b| <= n
    && (forall i :: 0 <= i < n - |a| ==> x[i] == 0) && x[n - |a|..n] == a
    && (forall i :: n <= i < 2 * n - |b| ==> x[i] == 0) && x[2 * n - |b|..] == b
  }

  lemma PaddedHalves(n: nat, a: bytes, b: bytes)
    requires |a| <= n && |b| <= n
    ensures Halves(Pad(a, n) + Pad(b, n), n, a, b)
  {}

  /** u is the number of the hash of A, padded, and then B, padded. */
  lemma ScramblerIs(sha: Hash, lenN: nat, bytesA: bytes, bytesB: bytes)
    requires |bytesA| <= lenN && |bytesB| <= lenN
    ensures exists x :: Halves(x, lenN, bytesA, bytesB) && Scrambler(sha, lenN, bytesA, bytesB) == FromBin(sha(x))
  {
    PaddedHalves(lenN, bytesA, bytesB);
  }

  /** k is the number of the hash of N and then g, padded. */
  lemma MultiplierIs(sha: Hash, n: nat, g: nat)
    requires 0 < g < n
    ensures exists x ::
      Halves(x, |ToBin(n)|, ToBin(n), ToBin(g)) && Multiplier(sha, n, g) == FromBin(sha(x))
  {
    ToBinMonotone(g, n);
    PaddedHalves(|ToBin(n)|, ToBin(n), ToBin(g));
    assert Pad(ToBin(n), |ToBin(n)|) == ToBin(n);
  }

  /** The first byte of a number is its highest. */
  lemma {:induction false} HighestFirst(s: bytes)
    requires s != []
    ensures FromBin(s) == s[0] * Pow(256, |s| - 1) + FromBin(s[1..])
  {
    var n := |s|;
    if n == 1 {
      assert s[..0] == [] && s[1..] == [];
      assert Pow(256, 0) == 1;
    } else {
      HighestFirst(s[..n - 1]);
      assert s[1..][..n - 2] == s[..n - 1][1..];
      assert Pow(256, n - 1) == 256 * Pow(256, n - 2);
      assert FromBin(s[1..]) == FromBin(s[..n - 1][1..]) * 256 + s[n - 1];
      assert s[0] * Pow(256, n - 1) == 256 * (s[0] * Pow(256, n - 2));
    }
  }

  lemma {:induction false} ToBinMonotone(m: nat, n: nat)
    requires m <= n
    ensures |ToBin(m)| <= |ToBin(n)|
    decreases n
  {
    if m > 0 {
      ToBinMonotone(m / 256, n / 256);
    }
  }

  ghost predicate IsHostKey(sha: Hash, n: nat, lenN: nat, v: nat, b: nat, bytesA: bytes, bytesB: bytes, key: bytes)
    requires n > 0
  {
    exists x ::
      Halves(x, lenN, bytesA, bytesB) && key == sha(ToBin(Pow(FromBin(bytesA) * Pow(v, FromBin(sha(x))), b) % n))
  }

  lemma HostKeyIs(sha: Hash, n: nat, lenN: nat, v: nat, b: nat, bytesA: bytes, bytesB: bytes)
    requires n > 0 && |bytesA| <= lenN && |bytesB| <= lenN
    ensures
      var u := Scrambler(sha, lenN, bytesA, bytesB);
      IsHostKey(sha, n, lenN, v, b, bytesA, bytesB, sha(ToBin(HostSecret(n, v, FromBin(bytesA), u, b))))
  {
    hide Pow, ToBin, FromBin, Halves, Scrambler;
    ScramblerIs(sha, lenN, bytesA, bytesB);
  }

  class MuSrp {
    const sha: Hash
    const n: nat
    const g: nat
    const bytesN: bytes
    var v: nat
    var b: nat
    var B: nat
    var bytesB: bytes
    var A: nat
    var bytesA: bytes
    var sessionKey: bytes

    ghost predicate Valid()
      reads this
    {
      1 < n && 0 < g < n && bytesN == ToBin(n)
    }

    constructor (sha: Hash, n: nat, g: nat)
      requires 0 < g < n
      ensures Valid() && this.sha == sha && this.n == n && this.g == g
    {
      this.sha, this.n, this.g := sha, n, g;
      bytesN := ToBin(n);
      v, b, B, A := 0, 0, 0, 0;
      bytesB, bytesA, sessionKey := [], [], [];
    }

    method SetVerifier(verifier: bytes)
      requires Valid()
      modifies this`v
      ensures v == FromBin(verifier)
    {
      v := FromBin(verifier);
    }

    /** Everything that goes into the hash, and the hash as a number. The zeros for padding are allocated once, as many
        as the shorter input lacks; the allocation of a negative number of bytes fails. None: one input is shorter
        than N and the other longer, so that a negative number of zeros is hashed, which is not defined. */
    method CalculatePaddedHash(a: bytes, b: bytes) returns (input: Option<bytes>, r: nat)
      requires Valid()
      ensures |a| <= |bytesN| && |b| <= |bytesN| ==>
        input == Some(Pad(a, |bytesN|) + Pad(b, |bytesN|)) && |input.value| == 2 * |bytesN|
      ensures |a| >= |bytesN| && |b| >= |bytesN| ==> input == Some(a + b)
      ensures input.None? <==> |a| < |bytesN| < |b| || |b| < |bytesN| < |a|
      ensures input.Some? ==> r == FromBin(sha(input.value))
    {
      r := 0;
      var lenN := |bytesN|;
      var padLen := if |a| > |b| then lenN - |b| else lenN - |a|;
      var s: Option<bytes> := if padLen > 0 then Some(Repeat(0, padLen)) else None;
      var hashed := [];
      if s.Some? && |a| != lenN {
        if |a| > lenN {
          return None, 0;
        }
        hashed := hashed + s.value[..lenN - |a|];
      }
      hashed := hashed + a;
      if s.Some? && |b| != lenN {
        if |b| > lenN {
          return None, 0;
        }
        hashed := hashed + s.value[..lenN - |b|];
      }
      hashed := hashed + b;
      if |a| <= lenN && |b| <= lenN {
        assert hashed == Pad(a, lenN) + Pad(b, lenN);
      }
      if s.None? {
        assert hashed == a + b;
      }
      input, r := Some(hashed), FromBin(sha(hashed));
    }

    /** __mu_srp_srv_pubkey, for the random exponent `random`. */
    method SrvPubkey(random: nat) returns (out: bytes)
      requires Valid()
      modifies this`b, this`B, this`bytesB
      ensures b == random && B == HostPublic(n, g, Multiplier(sha, n, g), v, random)
      ensures out == bytesB == ToBin(B) && |bytesB| <= |bytesN|
      ensures exists x ::
        Halves(x, |bytesN|, bytesN, ToBin(g)) && B == (FromBin(sha(x)) * v + Pow(g, random)) % n
    {
      MultiplierIs(sha, n, g);
      ToBinMonotone(g, n);
      var _, k := CalculatePaddedHash(bytesN, ToBin(g));
      assert Pad(bytesN, |bytesN|) == bytesN;
      b := random;
      var kv := MulMod(k, v, n);
      var gb := ExpMod(g, b, n);
      B := AddMod(kv, gb, n);
      HostPublicReduced(n, g, k, v, b);
      bytesB := ToBin(B);
      ToBinMonotone(B, n);
      out := bytesB;
    }

    method GetSessionKey(received: bytes) returns (key: bytes)
      requires Valid() && |received| <= |bytesN| && |bytesB| <= |bytesN|
      modifies this`A, this`bytesA, this`sessionKey
      ensures A == FromBin(received) && bytesA == received
      ensures key == sessionKey
        == sha(ToBin(HostSecret(n, v, A, Scrambler(sha, |bytesN|, received, bytesB), b)))
      // hash input and powers written out: for u the padded A and then the padded B
      ensures IsHostKey(sha, n, |bytesN|, v, b, received, bytesB, key)
    {
      hide IsHostKey, Pow, MulMod, HostSecret, ToBin, FromBin;
      HostKeyIs(sha, n, |bytesN|, v, b, received, bytesB);
      bytesA := received;
      A := FromBin(received);
      var _, u := CalculatePaddedHash(received, bytesB);
      var vu := ExpMod(v, u, n);
      var avu := MulMod(A, vu, n);
      var S := ExpMod(avu, b, n);
      HostSecretReduced(n, v, A, u, b);
      sessionKey := sha(ToBin(S));
      key := sessionKey;
    }
  }

  /** The client's session key, from the host's public value as received. */
  function ClientKey(sha: Hash, n: nat, g: nat, x: nat, a: nat, bytesB: bytes): bytes
    requires 0 < g < n && |bytesB| <= |ToBin(n)|
  {
    var A := ExpMod(g, a, n);
    ToBinMonotone(A, n);
    var u := Scrambler(sha, |ToBin(n)|, ToBin(A), bytesB);
    sha(ToBin(ClientSecret(n, g, FromBin(bytesB), Multiplier(sha, n, g), x, a, u)))
  }

  /** What that is, hash inputs written out: for u the padded A and then the padded B, for k the number N and
      then the padded g. */
  ghost predicate IsClientKey(sha: Hash, n: nat, g: nat, x: nat, a: nat, bytesB: bytes, key: bytes)
    requires 0 < g < n
  {
    exists p, q ::
      && Halves(p, |ToBin(n)|, ToBin(Pow(g, a) % n), bytesB) && Halves(q, |ToBin(n)|, ToBin(n), ToBin(g))
      && key == sha(ToBin(ClientSecret(n, g, FromBin(bytesB), FromBin(sha(q)), x, a, FromBin(sha(p)))))
  }

  lemma ClientKeyIs(sha: Hash, n: nat, g: nat, x: nat, a: nat, bytesB: bytes)
    requires 0 < g < n && |bytesB| <= |ToBin(n)|
    ensures IsClientKey(sha, n, g, x, a, bytesB, ClientKey(sha, n, g, x, a, bytesB))
  {
    hide Halves, Multiplier, Scrambler, Pow, ToBin, FromBin, ClientSecret;
    var A := ExpMod(g, a, n);
    ToBinMonotone(A, n);
    ScramblerIs(sha, |ToBin(n)|, ToBin(A), bytesB);
    MultiplierIs(sha, n, g);
    var p :| Halves(p, |ToBin(n)|, ToBin(A), bytesB) && Scrambler(sha, |ToBin(n)|, ToBin(A), bytesB) == FromBin(sha(p));
    var q :| Halves(q, |ToBin(n)|, ToBin(n), ToBin(g)) && Multiplier(sha, n, g) == FromBin(sha(q));
    assert Pow(g, a) % n == A;
  }

  /** A whole exchange: the accessory knows only the verifier of x, the client knows x, and their keys are equal. */
  method Exchange(sha: Hash, n: nat, g: nat, x: nat, a: nat, b: nat) returns (hostKey: bytes, bytesB: bytes)
    requires 0 < g < n
    ensures |bytesB| <= |ToBin(n)| && hostKey == ClientKey(sha, n, g, x, a, bytesB)
    ensures FromBin(bytesB) == HostPublic(n, g, Multiplier(sha, n, g), ExpMod(g, x, n), b)
    ensures IsClientKey(sha, n, g, x, a, bytesB, hostKey)
  {
    var host := new MuSrp(sha, n, g);
    var v, A := ExpMod(g, x, n), ExpMod(g, a, n);
    host.SetVerifier(ToBin(v));
    BinBack(v);
    var B := host.SrvPubkey(b);
    bytesB := B;
    ToBinMonotone(A, n);
    hostKey := host.GetSessionKey(ToBin(A));
    BinBack(A);
    BinBack(host.B);
    ClientKeyIs(sha, n, g, x, a, bytesB);
    SecretsAgree(n, g, Multiplier(sha, n, g), x, a, b, Scrambler(sha, |ToBin(n)|, ToBin(A), bytesB));
  }
}
