// Little-endian integers in buffers (byte_convert.c), byte by byte with shifts and ors. The rest of the project
// speaks of them by PutLe and GetLe.

module ByteConvert {
  import opened Bytes

  function ShiftLeft(v: nat, k: nat): nat {
    v * TwoTo(k)
  }

  function ShiftRight(v: nat, k: nat): int {
    v / TwoTo(k)
  }

  // Or-ing in the next byte at its place.
  lemma OrByte(s: seq<byte>, i: nat)
    requires i < |s|
    ensures BitOr(GetLe(s[..i]), ShiftLeft(s[i], 8 * i)) == GetLe(s[..i + 1])
  {
    PutGet(s[..i]);
    TwoToBytes(i);
    BitOrAdds(GetLe(s[..i]), s[i], 8 * i);
    GetLeAppend(s[..i], s[i]);
    assert s[..i + 1] == s[..i] + [s[i]];
  }

  lemma {:induction false} GetLeAppend(s: seq<byte>, b: byte)
    ensures GetLe(s + [b]) == GetLe(s) + b * Pow256(|s|)
  {
    if s == [] {
      assert [b][1..] == [];
    } else {
      assert (s + [b])[1..] == s[1..] + [b];
      GetLeAppend(s[1..], b);
      assert b * Pow256(|s|) == 256 * (b * Pow256(|s| - 1));
    }
  }

  // Byte i of a number, from the low end.
  lemma {:induction false} ByteAt(v: nat, n: nat, i: nat)
    requires i < n
    ensures PutLe(v, n)[i] == ShiftRight(v, 8 * i) % 256
    decreases n
  {
    if i > 0 {
      ByteAt(v / 256, n - 1, i - 1);
      TwoToBytes(i);
      TwoToBytes(i - 1);
      DivTwice(v, Pow256(i - 1));
    }
  }

  lemma DivTwice(v: nat, p: nat)
    requires p > 0
    ensures v / 256 / p == v / (256 * p)
  {
    var w := v / 256;
    FundamentalDivMod(v, 256);
    FundamentalDivMod(w, p);
    assert 256 * (p * (w / p)) == (256 * p) * (w / p);
    DivModUnique(v, 256 * p, w / p, 256 * (w % p) + v % 256);
  }

  method GetU16Le(s: seq<byte>) returns (val: nat)
    requires |s| >= 2
    ensures val == GetLe(s[..2]) < 0x1_0000
  {
    assert Pow256(2) == 0x1_0000 by { assert Pow256(2) == 256 * Pow256(1) && Pow256(1) == 256 * Pow256(0); }
    hide BitOr, ShiftLeft, GetLe, TwoTo, Pow256;
    val := s[0];
    FirstByte(s);
    OrByte(s, 1);
    val := BitOr(val, ShiftLeft(s[1], 8));
    PutGet(s[..2]);
  }

  method GetU64Le(s: seq<byte>) returns (val: nat)
    requires |s| >= 8
    ensures val == GetLe(s[..8]) < Pow256(8)
  {
    hide BitOr, ShiftLeft, GetLe, TwoTo, Pow256;
    val := s[0];
    FirstByte(s);
    OrByte(s, 1);
    val := BitOr(val, ShiftLeft(s[1], 8));
    OrByte(s, 2);
    val := BitOr(val, ShiftLeft(s[2], 16));
    OrByte(s, 3);
    val := BitOr(val, ShiftLeft(s[3], 24));
    OrByte(s, 4);
    val := BitOr(val, ShiftLeft(s[4], 32));
    OrByte(s, 5);
    val := BitOr(val, ShiftLeft(s[5], 40));
    OrByte(s, 6);
    val := BitOr(val, ShiftLeft(s[6], 48));
    OrByte(s, 7);
    val := BitOr(val, ShiftLeft(s[7], 56));
    PutGet(s[..8]);
  }

  lemma FirstByte(s: seq<byte>)
    requires s != []
    ensures GetLe(s[..1]) == s[0]
  {
    assert s[..1] == [s[0]];
  }

  method PutU16Le(p: array<byte>, val: nat)
    requires p.Length >= 2
    modifies p
    ensures p[..] == PutLe(val, 2) + old(p[2..])
  {
    hide PutLe, ShiftRight;
    LowByte(val, 2);
    p[0] := val % 256;
    ByteAt(val, 2, 1);
    p[1] := ShiftRight(val, 8) % 256;
  }

  method PutU64Le(p: array<byte>, val: nat)
    requires p.Length >= 8
    modifies p
    ensures p[..] == PutLe(val, 8) + old(p[8..])
  {
    hide PutLe, ShiftRight;
    LowByte(val, 8);
    p[0] := val % 256;
    ByteAt(val, 8, 1);
    p[1] := ShiftRight(val, 8) % 256;
    ByteAt(val, 8, 2);
    p[2] := ShiftRight(val, 16) % 256;
    ByteAt(val, 8, 3);
    p[3] := ShiftRight(val, 24) % 256;
    ByteAt(val, 8, 4);
    p[4] := ShiftRight(val, 32) % 256;
    ByteAt(val, 8, 5);
    p[5] := ShiftRight(val, 40) % 256;
    ByteAt(val, 8, 6);
    p[6] := ShiftRight(val, 48) % 256;
    ByteAt(val, 8, 7);
    p[7] := ShiftRight(val, 56) % 256;
  }

  lemma LowByte(v: nat, n: nat)
    requires n > 0
    ensures PutLe(v, n)[0] == v % 256
  {}

  /** What is put into a buffer is what is read from it, up to 64 bits. */
  method PutAndGet(p: array<byte>, val: nat) returns (back: nat)
    requires p.Length >= 8
    modifies p
    ensures back == val % Pow256(8) && p[8..] == old(p[8..])
  {
    PutU64Le(p, val);
    assert p[..][..8] == PutLe(val, 8);
    GetPut(val, 8);
    back := GetU64Le(p[..]);
  }
}
