// The setup payload: base 36 greedily by powers (base36.h) and by divmod (setup_payload_gen.py), and what the two
// generators (esp_hap_setup_payload.c, setup_payload_gen.py) pack into it.

module Base36 {
  import opened Bytes

  const BASE36_LENGTH := 13

  const BASE36_DIGITS: string := "0123456789ABCDEFGHIJKLMNOPQRSTUVWXYZ"

  const BASE36_POWERS: seq<nat> := [
    1,
    36,
    1296,
    46656,
    1679616,
    60466176,
    2176782336,
    78364164096,
    2821109907456,
    101559956668416,
    3656158440062976,
    131621703842267136,
    4738381338321616896]

  function Pow36(k: nat): (p: nat)
    ensures p > 0
  {
    if k == 0 then 1 else 36 * Pow36(k - 1)
  }

  lemma PowersAreRight(k: nat)
    requires k < BASE36_LENGTH
    ensures |BASE36_POWERS| == BASE36_LENGTH && Pow36(k) == BASE36_POWERS[k]
  {
    assert Pow36(1) == 36 && Pow36(2) == 1296 && Pow36(3) == 46656 && Pow36(4) == 1679616;
    assert Pow36(5) == 60466176 && Pow36(6) == 2176782336;
    assert Pow36(7) == 78364164096 && Pow36(8) == 2821109907456;
    assert Pow36(9) == 101559956668416 && Pow36(10) == 3656158440062976;
    assert Pow36(11) == 131621703842267136 && Pow36(12) == 4738381338321616896;
  }

  predicate IsDigit(c: char) {
    '0' <= c <= '9' || 'A' <= c <= 'Z'
  }

  function DigitValue(c: char): (d: nat)
    requires IsDigit(c)
    ensures d < 36
  {
    if c <= '9' then (c - '0') as int else 10 + (c - 'A') as int
  }

  function Digit(d: nat): char
    requires d < 36
  {
    BASE36_DIGITS[d]
  }

  function DigitChar(d: nat): char
    requires d < 36
  {
    if d < 10 then '0' + d as char else 'A' + (d - 10) as char
  }

  lemma TableIsRight(d: nat)
    requires d < 36
    ensures Digit(d) == DigitChar(d)
  {}

  lemma DigitsAreRight(d: nat)
    requires d < 36
    ensures IsDigit(Digit(d)) && DigitValue(Digit(d)) == d
  {
    TableIsRight(d);
    hide Digit;
  }

  lemma CharOfValue(c: char)
    requires IsDigit(c)
    ensures Digit(DigitValue(c)) == c
  {
    TableIsRight(DigitValue(c));
    hide Digit;
  }

  predicate IsNumeral(s: string) {
    forall i :: 0 <= i < |s| ==> IsDigit(s[i])
  }

  /** What a numeral stands for. */
  function Value(s: string): nat
    requires IsNumeral(s)
  {
    if s == "" then 0 else 36 * Value(s[..|s| - 1]) + DigitValue(s[|s| - 1])
  }

  /** The shortest numeral of a number; nothing at all for 0. */
  function Numeral(n: nat): string {
    if n == 0 then "" else Numeral(n / 36) + [Digit(n % 36)]
  }

  lemma AppendDigit(s: string, d: nat)
    requires IsNumeral(s) && d < 36
    ensures IsNumeral(s + [Digit(d)]) && Value(s + [Digit(d)]) == 36 * Value(s) + d
  {
    DigitsAreRight(d);
    hide Digit;
    assert (s + [Digit(d)])[..|s|] == s;
  }

  lemma {:induction false} NumeralValue(n: nat)
    ensures IsNumeral(Numeral(n)) && Value(Numeral(n)) == n
    ensures n > 0 ==> Numeral(n)[0] != '0'
  {
    if n > 0 {
      NumeralValue(n / 36);
      AppendDigit(Numeral(n / 36), n % 36);
      DigitsAreRight(n % 36);
      hide Digit, Value;
      assert n < 36 ==> DigitValue(Digit(n % 36)) > 0;
    }
  }

  /** There is one numeral without leading zero for each number. */
  lemma {:induction false} NumeralUnique(s: string)
    requires IsNumeral(s) && (s != "" ==> s[0] != '0')
    ensures s == Numeral(Value(s))
  {
    if s != "" {
      var init, last := s[..|s| - 1], s[|s| - 1];
      NumeralUnique(init);
      CharOfValue(last);
      hide Digit;
      DivModUnique(Value(s), 36, Value(init), DigitValue(last));
      assert s == init + [last];
    }
  }

  lemma {:induction false} NumeralLength(n: nat, k: nat)
    ensures |Numeral(n)| <= k <==> n < Pow36(k)
  {
    if n > 0 && k > 0 {
      NumeralLength(n / 36, k - 1);
    }
  }

  /** In the greedy conversion of c, v has been written down to power i and m is left. */
  ghost predicate Split(c: nat, v: nat, m: nat, i: int)
    requires i >= -1
  {
    m < Pow36(i + 1) && c == v * Pow36(i + 1) + m
  }

  ghost predicate Written(str: string, v: nat, i: int) {
    && IsNumeral(str) && Value(str) == v
    && (i == -1 ==> str != "")
    && (str != "" && str[0] == '0' ==> i == -1 && v == 0 && str == "0")
  }

  lemma SplitStep(c: nat, v: nat, m: nat, i: nat, p: nat)
    requires Split(c, v, m, i) && p == Pow36(i)
    ensures p > 0 && m / p < 36 && m - p * (m / p) >= 0 && Split(c, 36 * v + m / p, m - p * (m / p), i - 1)
  {
    var d := m / p;
    FundamentalDivMod(m, p);
    MulMonotone(p, 36, d);
    assert v * (36 * p) == (36 * v) * p;
    assert (36 * v + d) * p == (36 * v) * p + d * p;
  }

  lemma WriteStep(str: string, v: nat, d: nat, i: nat)
    requires Written(str, v, i) && d < 36
    ensures Written(if str == "" && d == 0 && i > 0 then str else str + [Digit(d)], 36 * v + d, i - 1)
  {
    hide Digit;
    AppendDigit(str, d);
    DigitsAreRight(d);
  }

  lemma MulMonotone(p: nat, a: nat, b: nat)
    ensures a <= b ==> p * a <= p * b
  {}

  /** base36_to_str, for what a signed 64-bit integer can hold: the shortest numeral, and "0" for 0. */
  method Base36ToStr(c: nat) returns (str: string)
    requires c < 0x8000_0000_0000_0000
    ensures str == if c == 0 then "0" else Numeral(c)
  {
    hide Digit, Split, Written, Numeral;
    var m: nat, discard := c, true;
    str := "";
    ghost var v: nat := 0;
    NothingWritten(c);
    var i := BASE36_LENGTH - 1;
    while i >= 0
      invariant -1 <= i < BASE36_LENGTH
      invariant Split(c, v, m, i) && Written(str, v, i)
      invariant i >= 0 ==> discard == (str == "")
    {
      var d;
      d, m := TakeDigit(c, v, m, i);
      WriteStep(str, v, d, i);
      discard := discard && d == 0 && i > 0;
      if !discard {
        str := str + [Digit(d)];
      }
      v := 36 * v + d;
      i := i - 1;
    }
    AllWritten(c, v, m, str);
  }

  // The division of the greedy loop.
  method TakeDigit(ghost c: nat, ghost v: nat, m: nat, i: nat) returns (d: nat, rest: nat)
    requires i < BASE36_LENGTH && Split(c, v, m, i)
    ensures d < 36 && Split(c, 36 * v + d, rest, i - 1)
  {
    hide BASE36_POWERS, Split;
    PowersAreRight(i);
    SplitStep(c, v, m, i, BASE36_POWERS[i]);
    d := m / BASE36_POWERS[i];
    rest := m - BASE36_POWERS[i] * d;
  }

  lemma NothingWritten(c: nat)
    requires c < 0x8000_0000_0000_0000
    ensures Split(c, 0, c, BASE36_LENGTH - 1) && Written("", 0, BASE36_LENGTH - 1)
  {
    PowersAreRight(BASE36_LENGTH - 1);
  }

  lemma AllWritten(c: nat, v: nat, m: nat, str: string)
    requires Split(c, v, m, -1) && Written(str, v, -1)
    ensures str == if c == 0 then "0" else Numeral(c)
  {
    if str[0] != '0' {
      NumeralUnique(str);
      NumeralOfZero();
    }
    assert m == 0 && c == v;
    hide Digit, Value, Numeral;
  }

  lemma NumeralOfZero()
    ensures Numeral(0) == ""
  {}

  /** base36encode of the Python tool. */
  method Base36Encode(n: nat) returns (encoded: string)
    ensures encoded == Numeral(n)
  {
    hide Digit;
    encoded := "";
    var integer := n;
    while integer > 0
      invariant Numeral(n) == Numeral(integer) + encoded
    {
      assert Numeral(integer) == Numeral(integer / 36) + [Digit(integer % 36)];
      var remainder := integer % 36;
      integer := integer / 36;
      encoded := [Digit(remainder)] + encoded;
    }
  }

  /** The two differ at 0 only. */
  method BothEncoders(c: nat) returns (greedy: string, divmod: string)
    requires c < 0x8000_0000_0000_0000
    ensures greedy == divmod <==> c > 0
  {
    greedy := Base36ToStr(c);
    divmod := Base36Encode(c);
    NumeralValue(c);
  }
}

module SetupPayload {
  import opened Base36
  import opened Bytes

  const PREFIX := "X-HM://00"
  const HAP_OVER_IP_MASK: nat := 0x1000_0000
  const WAC_MASK: nat := 0x4000_0000
  const SETUP_PAYLOAD_SIZE := 24

  // ----- the setup code as text -----

  function Without(s: string, c: char): string {
    if s == "" then "" else Without(s[..|s| - 1], c) + if s[|s| - 1] != c then [s[|s| - 1]] else ""
  }

  predicate IsCString(a: seq<char>, s: string) {
    |s| < |a| && a[..|s|] == s && a[|s|] == '\0' && '\0' !in s
  }

  lemma WithoutStep(s: string, i: nat, c: char)
    requires i < |s|
    ensures Without(s[..i + 1], c) == Without(s[..i], c) + if s[i] != c then [s[i]] else ""
  {
    assert s[..i + 1][..i] == s[..i];
  }

  /** Filters the text in its buffer; what is behind the new end stays as it was. */
  method RemoveChars(str: array<char>, c: char, ghost text: string)
    requires IsCString(str[..], text)
    modifies str
    ensures IsCString(str[..], Without(text, c))
    ensures str[|Without(text, c)| + 1..] == old(str[|Without(text, c)| + 1..])
  {
    WithoutShrinks(text, c);
    assert Without("", c) == "";
    hide Without;
    var i, j := 0, 0;
    assert text[..0] == "" && str[..][|text|] == '\0';
    while str[i] != '\0'
      invariant 0 <= j <= i <= |text| && j == |Without(text[..i], c)|
      invariant str[..j] == Without(text[..i], c)
      invariant forall k :: j <= k < str.Length ==> str[k] == old(str[k])
      invariant i == |text| ==> str[i] == '\0'
      invariant i < |text| ==> str[i] == text[i]
      decreases |text| - i
    {
      WithoutStep(text, i, c);
      if str[i] != c {
        str[j] := str[i];
        j := j + 1;
      }
      i := i + 1;
    }
    assert text[..i] == text;
    str[j] := '\0';
  }

  lemma {:induction false} WithoutShrinks(s: string, c: char)
    ensures |Without(s, c)| <= |s|
    ensures '\0' !in s ==> '\0' !in Without(s, c)
  {
    if s != "" {
      WithoutShrinks(s[..|s| - 1], c);
    }
  }

  predicate IsDecimal(s: string) {
    forall i :: 0 <= i < |s| ==> '0' <= s[i] <= '9'
  }

  function Decimal(s: string): nat
    requires IsDecimal(s)
  {
    if s == "" then 0 else 10 * Decimal(s[..|s| - 1]) + (s[|s| - 1] - '0') as int
  }

  predicate IsSpace(c: char) {
    c == ' ' || '\t' <= c <= '\r'
  }

  function SkipSpaces(s: string): string {
    if s != "" && IsSpace(s[0]) then SkipSpaces(s[1..]) else s
  }

  function LeadingDigits(s: string): (r: string)
    ensures IsDecimal(r) && r <= s
  {
    if s != "" && '0' <= s[0] <= '9' then [s[0]] + LeadingDigits(s[1..]) else ""
  }

  /** What atoi reads of a text without minus signs, from spaces, a plus sign and digits on. */
  function AtoiDigits(s: string): (r: string)
    ensures IsDecimal(r)
  {
    var t := SkipSpaces(s);
    LeadingDigits(if t != "" && t[0] == '+' then t[1..] else t)
  }

  lemma {:induction false} LongestDigits(s: string, k: nat)
    requires k <= |s| && IsDecimal(s[..k]) && (k < |s| ==> !('0' <= s[k] <= '9'))
    ensures LeadingDigits(s) == s[..k]
  {
    if k > 0 {
      assert s[0] == s[..k][0] && s[1..][..k - 1] == s[..k][1..];
      LongestDigits(s[1..], k - 1);
      assert s[..k] == [s[0]] + s[1..][..k - 1];
    }
  }

  predicate White(s: string) {
    forall i :: 0 <= i < |s| ==> s[i] == ' ' || 9 <= s[i] as int <= 13
  }

  lemma {:induction false} SpacesSkipped(spaces: string, t: string)
    requires White(spaces) && (t == "" || !White(t[..1]))
    ensures SkipSpaces(spaces + t) == t
    decreases |spaces|
  {
    if spaces == "" {
      assert spaces + t == t;
      assert t != "" ==> t[..1] == [t[0]];
    } else {
      assert (spaces + t)[1..] == spaces[1..] + t && (spaces + t)[0] == spaces[0];
      SpacesSkipped(spaces[1..], t);
    }
  }

  /** White space, perhaps a plus sign, digits, and whatever does not go on with a digit. */
  lemma AtoiReads(spaces: string, plus: string, digits: string, rest: string)
    requires White(spaces) && (plus == "" || plus == "+")
    requires digits != "" && IsDecimal(digits) && (rest == "" || !('0' <= rest[0] <= '9'))
    ensures AtoiDigits(spaces + (plus + (digits + rest))) == digits
  {
    var tail := digits + rest;
    var t := plus + tail;
    assert tail[0] == digits[0] && tail[..|digits|] == digits;
    assert t[0] == (if plus == "" then tail[0] else '+') && t[..1] == [t[0]];
    SpacesSkipped(spaces, t);
    assert (if t[0] == '+' then t[1..] else t) == tail;
    LongestDigits(tail, |digits|);
  }

  lemma OnlyDigits(s: string)
    requires IsDecimal(s)
    ensures AtoiDigits(s) == s
  {
    assert s[..|s|] == s;
    LongestDigits(s, |s|);
  }

  lemma {:induction false} WithoutGone(s: string, c: char)
    ensures c !in Without(s, c)
  {
    if s != "" {
      WithoutGone(s[..|s| - 1], c);
    }
  }

  /** A code as the documentation shows it, such as 111-22-333. */
  predicate IsSetupCode(s: string) {
    |s| == 10 && s[3] == '-' && s[6] == '-' && IsDecimal(s[..3]) && IsDecimal(s[4..6]) && IsDecimal(s[7..])
  }

  lemma {:induction false} WithoutJoins(s: string, t: string, c: char)
    ensures Without(s + t, c) == Without(s, c) + Without(t, c)
  {
    if t == "" {
      assert s + t == s;
    } else {
      assert (s + t)[..|s + t| - 1] == s + t[..|t| - 1];
      WithoutJoins(s, t[..|t| - 1], c);
    }
  }

  lemma {:induction false} WithoutNone(s: string, c: char)
    requires c !in s
    ensures Without(s, c) == s
  {
    if s != "" {
      WithoutNone(s[..|s| - 1], c);
    }
  }

  /** The dashes go, the eight digits stay. */
  lemma CodeDigits(s: string)
    requires IsSetupCode(s)
    ensures '\0' !in s && Without(s, '-') == s[..3] + s[4..6] + s[7..]
    ensures IsDecimal(Without(s, '-')) && Decimal(Without(s, '-')) < 1_0000_0000
  {
    var x, y, z := s[..3], s[4..6], s[7..];
    CodeParts(s, x, y, z);
    assert Without(s, '-') == x + y + z by { ThreeParts(x, y, z); }
    hide Without, Decimal;
    DecimalBound(x + y + z, 8);
  }

  lemma CodeParts(s: string, x: string, y: string, z: string)
    requires IsSetupCode(s) && x == s[..3] && y == s[4..6] && z == s[7..]
    ensures s == x + ("-" + y) + ("-" + z) && '\0' !in s
    ensures IsDecimal(x + y + z) && '-' !in x && '-' !in y && '-' !in z
  {
    assert forall i :: 0 <= i < 3 ==> s[i] == x[i];
    assert forall i :: 4 <= i < 6 ==> s[i] == y[i - 4];
    assert forall i :: 7 <= i < 10 ==> s[i] == z[i - 7];
  }

  lemma ThreeParts(x: string, y: string, z: string)
    requires '-' !in x && '-' !in y && '-' !in z
    ensures Without(x + ("-" + y) + ("-" + z), '-') == x + y + z
  {
    WithoutNone(x, '-');
    WithoutDash(y);
    WithoutDash(z);
    hide Without;
    WithoutJoins(x + ("-" + y), "-" + z, '-');
    WithoutJoins(x, "-" + y, '-');
  }

  lemma WithoutDash(t: string)
    requires '-' !in t
    ensures Without("-" + t, '-') == t
  {
    assert Without("-", '-') == "";
    WithoutJoins("-", t, '-');
    WithoutNone(t, '-');
  }

  function Pow10(k: nat): (p: nat)
    ensures p > 0
  {
    if k == 0 then 1 else 10 * Pow10(k - 1)
  }

  lemma {:induction false} DecimalBound(s: string, k: nat)
    requires IsDecimal(s) && |s| == k
    ensures Decimal(s) < Pow10(k)
    ensures k == 8 ==> Decimal(s) < 1_0000_0000
  {
    if k > 0 {
      DecimalBound(s[..k - 1], k - 1);
    }
    assert Pow10(1) == 10 && Pow10(2) == 100 && Pow10(3) == 1000 && Pow10(4) == 10000;
    assert Pow10(5) == 100000 && Pow10(6) == 1000000 && Pow10(7) == 10000000;
  }

  // ----- what is packed -----

  /** Or-ed together step by step, as in C. */
  function Packed(code: nat, category: nat, wac: bool): nat {
    var payload := BitOr(0, code);
    var payload := BitOr(payload, category * 0x8000_0000);
    var payload := BitOr(payload, HAP_OVER_IP_MASK);
    if wac then BitOr(payload, WAC_MASK) else payload
  }

  /** The one expression of the Python tool, with the flags of an accessory that supports WAC. */
  function PackedAtOnce(code: nat, category: nat): nat {
    BitOr(BitOr(category * 0x8000_0000, 0xa * 0x800_0000), code)
  }

  lemma Powers()
    ensures TwoTo(27) == 0x800_0000 && TwoTo(28) == HAP_OVER_IP_MASK && TwoTo(30) == WAC_MASK
    ensures TwoTo(31) == 0x8000_0000 && TwoTo(32) == 0x1_0000_0000 && TwoTo(63) == 0x8000_0000_0000_0000
  {
    TwoToBytes(3);
    TwoToBytes(4);
    TwoToBytes(7);
    assert Pow256(3) == 0x100_0000 && Pow256(4) == 0x1_0000_0000 && Pow256(7) == 0x100_0000_0000_0000;
    assert TwoTo(25) == 2 * TwoTo(24) && TwoTo(26) == 2 * TwoTo(25) && TwoTo(27) == 2 * TwoTo(26);
    assert TwoTo(28) == 2 * TwoTo(27) && TwoTo(29) == 2 * TwoTo(28) && TwoTo(30) == 2 * TwoTo(29);
    assert TwoTo(31) == 2 * TwoTo(30);
    assert TwoTo(57) == 2 * TwoTo(56) && TwoTo(58) == 2 * TwoTo(57) && TwoTo(59) == 2 * TwoTo(58);
    assert TwoTo(60) == 2 * TwoTo(59) && TwoTo(61) == 2 * TwoTo(60) && TwoTo(62) == 2 * TwoTo(61);
    assert TwoTo(63) == 2 * TwoTo(62);
  }

  /** Both pack the same number, whatever the code and the category. */
  lemma BothPackTheSame(code: nat, category: nat)
    ensures Packed(code, category, true) == PackedAtOnce(code, category)
  {
    var c, ip, wac := category * 0x8000_0000, HAP_OVER_IP_MASK, WAC_MASK;
    assert BitOr(ip, wac) == 0xa * 0x800_0000 by {
      Powers();
      BitOrAdds(ip, 1, 30);
    }
    BitOrZero(code);
    BitOrAssociates(BitOr(code, c), ip, wac);
    BitOrAssociates(code, c, BitOr(ip, wac));
    BitOrCommutes(code, BitOr(c, BitOr(ip, wac)));
  }

  function FlagsOf(wac: bool): nat {
    if wac then 0xa else 0x2
  }

  /** With a code of 27 bits the three parts do not overlap. */
  lemma Fields(code: nat, category: nat, wac: bool)
    requires code < 0x800_0000
    ensures Packed(code, category, wac) == category * 0x8000_0000 + FlagsOf(wac) * 0x800_0000 + code
  {
    Powers();
    var c := category * 0x8000_0000;
    BitOrZero(code);
    var flags := if wac then BitOr(HAP_OVER_IP_MASK, WAC_MASK) else HAP_OVER_IP_MASK;
    assert flags == FlagsOf(wac) * 0x800_0000 by { BitOrAdds(HAP_OVER_IP_MASK, 1, 30); }
    assert Packed(code, category, wac) == BitOr(BitOr(code, c), flags) by {
      BitOrAssociates(BitOr(code, c), HAP_OVER_IP_MASK, WAC_MASK);
    }
    BitOrAssociates(code, c, flags);
    BitOrCommutes(c, flags);
    BitOrAssociates(code, flags, c);
    BitOrAdds(code, FlagsOf(wac), 27);
    BitOrAdds(code + flags, category, 31);
  }

  lemma PackedIsLong(code: nat, category: nat, wac: bool)
    requires code < 0x8000_0000 && category < 0x1_0000_0000
    ensures 0 < Packed(code, category, wac) < 0x8000_0000_0000_0000
  {
    Powers();
    BitOrZero(code);
    BitOrBound(code, category * 0x8000_0000, 63);
    var p := BitOr(code, category * 0x8000_0000);
    BitOrBound(p, HAP_OVER_IP_MASK, 63);
    BitOrHalves(p, HAP_OVER_IP_MASK);
    BitOrBound(BitOr(p, HAP_OVER_IP_MASK), WAC_MASK, 63);
    BitOrHalves(BitOr(p, HAP_OVER_IP_MASK), WAC_MASK);
  }

  /** The body of a payload gives back category, flags and code. */
  lemma BodyDecodes(code: nat, category: nat, wac: bool)
    requires code < 0x800_0000
    ensures
      var body := Numeral(Packed(code, category, wac));
      IsNumeral(body) && Value(body) % 0x800_0000 == code
        && Value(body) / 0x800_0000 % 16 == FlagsOf(wac) && Value(body) / 0x8000_0000 == category
  {
    var n := Packed(code, category, wac);
    NumeralValue(n);
    Fields(code, category, wac);
    hide Packed, Numeral, Value, IsNumeral;
    var rest := FlagsOf(wac) * 0x800_0000 + code;
    DivModUnique(n, 0x8000_0000, category, rest);
    DivModUnique(n, 0x800_0000, category * 16 + FlagsOf(wac), code);
    DivModUnique(category * 16 + FlagsOf(wac), 16, category, FlagsOf(wac));
  }

  /** With WAC, seven digits are what categories 1 to 35 take, for every code. */
  lemma BodyHasSevenDigits(code: nat, category: nat)
    requires code < 1_0000_0000
    ensures |Numeral(Packed(code, category, true))| == 7 <==> 1 <= category <= 35
    ensures 1 <= category <= 36 ==> |Numeral(Packed(code, category, false))| == 7
  {
    Fields(code, category, true);
    Fields(code, category, false);
    PowersAreRight(6);
    PowersAreRight(7);
    NumeralLength(Packed(code, category, true), 6);
    NumeralLength(Packed(code, category, true), 7);
    NumeralLength(Packed(code, category, false), 6);
    NumeralLength(Packed(code, category, false), 7);
  }

  // ----- the generators -----

  /** What fits a buffer, with its terminator. */
  function Fitting(s: string, size: nat): string
    requires size > 0
  {
    if |s| < size then s else s[..size - 1]
  }

  /** The setup code as atoi reads it once the dashes are gone. */
  function CodeOf(setupCode: string): nat {
    Decimal(AtoiDigits(Without(setupCode, '-')))
  }

  predicate GoodLengths(setupCode: Option<string>, setupId: Option<string>) {
    setupCode.Some? && setupId.Some? && |setupCode.value| == 10 && |setupId.value| == 4
  }

  /** esp_hap_get_setup_payload. The text of a code is a C string; what atoi gives for a number that is no int is not
      defined. */
  method EspHapGetSetupPayload(setupCode: Option<string>, setupId: Option<string>, wac: bool, cid: nat)
    returns (defined: bool, payload: Option<string>)
    requires cid < 0x1_0000_0000 && (setupCode.Some? ==> '\0' !in setupCode.value)
    ensures defined <==> (GoodLengths(setupCode, setupId) ==> CodeOf(setupCode.value) < 0x8000_0000)
    ensures defined ==> (payload.Some? <==> GoodLengths(setupCode, setupId))
    ensures defined && payload.Some? ==>
      var body := Numeral(Packed(CodeOf(setupCode.value), cid, wac));
      payload.value == Fitting(PREFIX + body + setupId.value, SETUP_PAYLOAD_SIZE)
    // category, flags and code side by side, and 23 characters at most
    ensures defined && payload.Some? && CodeOf(setupCode.value) < 0x800_0000 ==>
      var flags := if wac then 0xA else 0x2;
      var text := "X-HM://00"
        + Numeral(cid * 0x8000_0000 + flags * 0x800_0000 + CodeOf(setupCode.value)) + setupId.value;
      payload.value == text[..if |text| < 23 then |text| else 23]
  {
    hide Packed, Numeral, BitOr;
    if setupCode.None? || setupId.None? {
      return true, None;
    }
    if |setupCode.value| != 10 || |setupId.value| != 4 {
      return true, None;
    }
    var copy := new char[11](i requires 0 <= i < 11 => if i < 10 then setupCode.value[i] else '\0');
    assert copy[..10] == setupCode.value;
    RemoveChars(copy, '-', setupCode.value);
    WithoutGone(setupCode.value, '-');
    var code := Atoi(copy, Without(setupCode.value, '-'));
    if code >= 0x8000_0000 {
      return false, None;
    }
    PackedIsLong(code, cid, wac);
    var bits := Pack(code, cid, wac);
    var base36Str := Base36ToStr(bits);
    if code < 0x800_0000 {
      Fields(code, cid, wac);
    }
    return true, Some(Fitting(PREFIX + base36Str + setupId.value, SETUP_PAYLOAD_SIZE));
  }

  // The or-ing of esp_hap_get_setup_payload.
  method Pack(code: nat, cid: nat, wac: bool) returns (payload: nat)
    ensures payload == Packed(code, cid, wac)
  {
    hide BitOr;
    payload := 0;
    payload := BitOr(payload, code);
    payload := BitOr(payload, cid * 0x8000_0000);
    payload := BitOr(payload, HAP_OVER_IP_MASK);
    if wac {
      payload := BitOr(payload, WAC_MASK);
    }
  }

  // atoi on text without a minus sign.
  method Atoi(a: array<char>, ghost text: string) returns (n: nat)
    requires IsCString(a[..], text) && '-' !in text
    ensures n == Decimal(AtoiDigits(text))
  {
    assert a[..][|text|] == '\0' && a[..|text|] == text;
    var i := 0;
    while IsSpace(a[i])
      invariant 0 <= i <= |text| && SkipSpaces(text[i..]) == SkipSpaces(text)
      decreases |text| - i
    {
      assert a[i] == text[i] && text[i..][1..] == text[i + 1..];
      i := i + 1;
    }
    assert i < |text| ==> a[i] == text[i];
    assert SkipSpaces(text) == text[i..];
    if a[i] == '+' {
      assert text[i..][1..] == text[i + 1..];
      i := i + 1;
    }
    n := Digits(a, text, i);
  }

  method Digits(a: array<char>, ghost text: string, start: nat) returns (n: nat)
    requires IsCString(a[..], text) && start <= |text|
    ensures n == Decimal(LeadingDigits(text[start..]))
  {
    ghost var tail := text[start..];
    assert a[..][|text|] == '\0' && a[..|text|] == text;
    n := 0;
    var i := start;
    while '0' <= a[i] <= '9'
      invariant start <= i <= |text| && IsDecimal(tail[..i - start]) && n == Decimal(tail[..i - start])
      decreases |text| - i
    {
      assert a[i] == text[i] == tail[i - start];
      assert tail[..i + 1 - start][..i - start] == tail[..i - start];
      n := 10 * n + (a[i] - '0') as int;
      i := i + 1;
    }
    assert i < |text| ==> a[i] == text[i] == tail[i - start];
    LongestDigits(tail, i - start);
  }

  /** main of setup_payload_gen.py. */
  method SetupPayloadGen(cid: nat, setupCode: nat, setupId: string) returns (payload: string)
    ensures payload == PREFIX + Numeral(PackedAtOnce(setupCode, cid)) + setupId
  {
    var encoded := Base36Encode(BitOr(BitOr(cid * 0x8000_0000, 0xa * 0x800_0000), setupCode));
    payload := PREFIX + encoded + setupId;
  }

  /** For a documented code, a four-character identifier and an accessory category the two generators build the same
      text, and from it category, flags and code can be read. */
  method BothGenerators(setupCode: string, setupId: string, cid: nat) returns (c: Option<string>, python: string)
    requires IsSetupCode(setupCode) && |setupId| == 4 && 1 <= cid <= 35
    ensures c == Some(python) && |python| == |PREFIX| + 7 + 4
    ensures python[..9] == "X-HM://00" && python[16..] == setupId
    ensures var body := python[9..16];
      && IsNumeral(body) && Value(body) / 0x8000_0000 == cid && Value(body) / 0x800_0000 % 16 == 0xa
      && Value(body) % 0x800_0000 == Decimal(setupCode[..3] + setupCode[4..6] + setupCode[7..])
      && IsDecimal(Without(setupCode, '-')) && Value(body) % 0x800_0000 == Decimal(Without(setupCode, '-'))
  {
    CodeDigits(setupCode);
    OnlyDigits(Without(setupCode, '-'));
    var code := Decimal(Without(setupCode, '-'));
    var defined;
    defined, c := EspHapGetSetupPayload(Some(setupCode), Some(setupId), true, cid);
    python := SetupPayloadGen(cid, code, setupId);
    BothPackTheSame(code, cid);
    BodyHasSevenDigits(code, cid);
    BodyDecodes(code, cid, true);
    assert python[9..16] == Numeral(Packed(code, cid, true));
  }
}
