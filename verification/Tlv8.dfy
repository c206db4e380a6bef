// The TLV8 codec of esp_hap_pair_common.c: values over 255 bytes are split into fragments.

module Tlv8 {
  import opened Bytes

  type bytes = seq<byte>

  const FRAGMENT := 255

  datatype Item = Item(tag: byte, value: bytes)

  // ----- encoding -----

  /** What add_tlv writes: full fragments, then what is left; an empty value is one empty fragment. */
  function Fragments(tag: byte, value: bytes): (r: bytes)
    ensures |r| >= 2 + |value|
    decreases |value|
  {
    if |value| <= FRAGMENT then [tag, |value|] + value
    else [tag, FRAGMENT] + value[..FRAGMENT] + Fragments(tag, value[FRAGMENT..])
  }

  // Writing one fragment leaves those of the rest to be written.
  lemma FirstFragment(pre: bytes, tag: byte, value: bytes, done: nat, n: nat)
    requires done <= |value| && n == (if |value| - done > FRAGMENT then FRAGMENT else |value| - done)
    ensures done + n < |value| ==>
      (pre + ([tag, n] + value[done..done + n])) + Fragments(tag, value[done + n..]) ==
      pre + Fragments(tag, value[done..])
    ensures done + n == |value| ==>
      pre + ([tag, n] + value[done..done + n]) == pre + Fragments(tag, value[done..])
  {
    assert value[done..][..n] == value[done..done + n] && value[done..][n..] == value[done + n..];
  }

  function EncodeAll(items: seq<Item>): bytes {
    if items == [] then [] else Fragments(items[0].tag, items[0].value) + EncodeAll(items[1..])
  }

  /** Length of an encoded value: two more bytes for each fragment. */
  function EncodedLength(len: nat): nat {
    len + 2 * if len == 0 then 1 else (len + FRAGMENT - 1) / FRAGMENT
  }

  lemma {:induction false} FragmentsLength(tag: byte, value: bytes)
    ensures |Fragments(tag, value)| == EncodedLength(|value|)
    decreases |value|
  {
    if |value| > FRAGMENT {
      FragmentsLength(tag, value[FRAGMENT..]);
      LongerByOneFragment(|value| - FRAGMENT);
    }
  }

  /** Byte by byte: fragment f starts at 257 * f, with the type and its length, 255 for all but the last. */
  ghost predicate WrittenAs(e: bytes, tag: byte, value: bytes) {
    && |e| == |value| + 2 * (if value == [] then 1 else (|value| + 254) / 255)
    && (forall f: nat :: f == 0 || 255 * f < |value| ==> HeadAt(e, tag, |value|, f))
    && (forall j: nat :: j < |value| ==> ByteAt(e, value, j))
  }

  predicate HeadAt(e: bytes, tag: byte, size: nat, f: nat) {
    257 * f + 1 < |e| && e[257 * f] == tag && e[257 * f + 1] == if size - 255 * f > 255 then 255 else size - 255 * f
  }

  predicate ByteAt(e: bytes, value: bytes, j: nat)
    requires j < |value|
  {
    var f := j / 255;
    257 * f + 2 + (j - 255 * f) < |e| && e[257 * f + 2 + (j - 255 * f)] == value[j]
  }

  lemma {:induction false} FragmentsBytes(tag: byte, value: bytes)
    ensures WrittenAs(Fragments(tag, value), tag, value)
    decreases |value|
  {
    var e := Fragments(tag, value);
    FragmentsLength(tag, value);
    if |value| <= FRAGMENT {
      assert e == [tag, |value|] + value;
      forall j: nat | j < |value| ensures ByteAt(e, value, j) {
        assert j < 255 ==> j / 255 == 0;
      }
    } else {
      var more := value[FRAGMENT..];
      var rest := Fragments(tag, more);
      FragmentsBytes(tag, more);
      assert e == [tag, FRAGMENT] + value[..FRAGMENT] + rest;
      AfterFirst(e, rest, tag, value);
    }
  }

  lemma AfterFirst(e: bytes, rest: bytes, tag: byte, value: bytes)
    requires |value| > 255 && e == [tag, 255] + value[..255] + rest && WrittenAs(rest, tag, value[255..])
    ensures forall f: nat :: f == 0 || 255 * f < |value| ==> HeadAt(e, tag, |value|, f)
    ensures forall j: nat :: j < |value| ==> ByteAt(e, value, j)
  {
    var more := value[255..];
    assert e[257..] == rest;
    forall f: nat | f == 0 || 255 * f < |value| ensures HeadAt(e, tag, |value|, f) {
      if f > 0 {
        assert HeadAt(rest, tag, |more|, f - 1);
        assert e[257 * f] == rest[257 * (f - 1)] && e[257 * f + 1] == rest[257 * (f - 1) + 1];
      }
    }
    forall j: nat | j < |value| ensures ByteAt(e, value, j) {
      if j >= 255 {
        var f := (j - 255) / 255;
        assert ByteAt(rest, more, j - 255) && j / 255 == f + 1;
        var at := 257 * f + 2 + (j - 255 - 255 * f);
        assert e[257 + at] == rest[at] && more[j - 255] == value[j];
      }
    }
  }

  /** The check at the start of add_tlv. */
  predicate PassesCheck(len: nat, room: int) {
    len + 2 <= room
  }

  predicate Fits(len: nat, room: int) {
    EncodedLength(len) <= room
  }

  /** The room that add_tlv checks for is enough exactly for values of one fragment. */
  lemma RoomCheckIsExact(len: nat)
    ensures (forall room :: PassesCheck(len, room) ==> Fits(len, room)) <==> len <= FRAGMENT
  {
    if len > FRAGMENT {
      assert PassesCheck(len, len + 2) && !Fits(len, len + 2) by { assert (len + FRAGMENT - 1) / FRAGMENT >= 2; }
    }
  }

  lemma {:induction false} EncodeAppend(items: seq<Item>, i: Item)
    ensures EncodeAll(items + [i]) == EncodeAll(items) + Fragments(i.tag, i.value)
  {
    hide Fragments;
    var all := items + [i];
    if items == [] {
      assert all[1..] == [];
      assert Fragments(i.tag, i.value) + [] == [] + Fragments(i.tag, i.value);
    } else {
      assert all[1..] == items[1..] + [i];
      EncodeAppend(items[1..], i);
    }
  }

  class TlvData {
    const bufptr: array?<byte>
    const bufsize: nat
    var curlen: nat

    ghost predicate Valid()
      reads this
    {
      curlen <= bufsize && (bufptr != null ==> bufptr.Length == bufsize)
    }

    constructor (buf: array?<byte>, size: nat)
      requires buf != null ==> buf.Length == size
      ensures Valid() && curlen == 0 && bufptr == buf && bufsize == size
    {
      bufptr, bufsize, curlen := buf, size, 0;
    }

    /** None: the check let the value pass, but the next fragment would go past the end of the buffer. */
    method AddTlv(tag: byte, value: bytes) returns (r: Option<int>)
      requires Valid()
      modifies this`curlen, bufptr
      ensures Valid()
      ensures r == Some(-1) <==> bufptr == null || !PassesCheck(|value|, bufsize - old(curlen))
      ensures r == Some(-1) ==> curlen == old(curlen)
      ensures r.None? <==>
        bufptr != null && PassesCheck(|value|, bufsize - old(curlen)) && !Fits(|value|, bufsize - old(curlen))
      ensures r.Some? && r != Some(-1) ==> r.value == EncodedLength(|value|) && curlen == old(curlen) + r.value
      ensures r.Some? && r != Some(-1) ==> bufptr[..curlen] == old(bufptr[..curlen]) + Fragments(tag, value)
      ensures r.Some? && r != Some(-1) ==> WrittenAs(bufptr[old(curlen)..curlen], tag, value)
    {
      if bufptr == null || |value| + 2 > bufsize - curlen {
        return Some(-1);
      }
      FragmentsLength(tag, value);
      ghost var before, start := bufptr[..curlen], curlen;
      var origLen, done := curlen, 0;
      while true
        invariant 0 <= done <= |value| && Valid()
        invariant bufptr[..curlen] + Fragments(tag, value[done..]) == before + Fragments(tag, value)
        decreases |value| - done
      {
        var left := |value| - done;
        ghost var pre := bufptr[..curlen];
        assert curlen + |Fragments(tag, value[done..])| == start + EncodedLength(|value|) by {
          assert |bufptr[..curlen] + Fragments(tag, value[done..])| == |before + Fragments(tag, value)|;
        }
        var tmpLen := if left > FRAGMENT then FRAGMENT else left;
        if curlen + 2 + tmpLen > bufsize {
          return None;
        }
        WriteFragment(tag, value[done..done + tmpLen]);
        FirstFragment(pre, tag, value, done, tmpLen);
        done := done + tmpLen;
        if done == |value| {
          break;
        }
      }
      FragmentsBytes(tag, value);
      assert bufptr[..curlen][start..] == bufptr[start..curlen] == Fragments(tag, value);
      return Some(curlen - origLen);
    }

    method WriteFragment(tag: byte, part: bytes)
      requires Valid() && bufptr != null && curlen + 2 + |part| <= bufsize && |part| <= FRAGMENT
      modifies this`curlen, bufptr
      ensures Valid() && curlen == old(curlen) + 2 + |part|
      ensures bufptr[..curlen] == old(bufptr[..curlen]) + ([tag, |part|] + part)
    {
      bufptr[curlen] := tag;
      bufptr[curlen + 1] := |part|;
      forall i | 0 <= i < |part| {
        bufptr[curlen + 2 + i] := part[i];
      }
      curlen := curlen + 2 + |part|;
    }

    /** add_tlv for each item, until one does not fit. */
    method AddAll(items: seq<Item>) returns (ok: bool)
      requires Valid() && curlen == 0 && bufptr != null
      modifies this`curlen, bufptr
      ensures Valid()
      ensures ok ==> bufptr[..curlen] == EncodeAll(items)
      ensures |EncodeAll(items)| <= bufsize ==> ok
    {
      for k := 0 to |items|
        invariant Valid() && bufptr[..curlen] == EncodeAll(items[..k])
      {
        EncodeAppend(items[..k], items[k]);
        assert items[..k + 1] == items[..k] + [items[k]];
        EncodePrefix(items, k + 1);
        FragmentsLength(items[k].tag, items[k].value);
        var r := AddTlv(items[k].tag, items[k].value);
        if r.None? || r.value < 0 {
          return false;
        }
      }
      assert items[..|items|] == items;
      return true;
    }
  }

  lemma {:induction false} EncodePrefix(items: seq<Item>, k: nat)
    requires k <= |items|
    ensures |EncodeAll(items[..k])| <= |EncodeAll(items)|
    decreases |items| - k
  {
    if k < |items| {
      EncodePrefix(items, k + 1);
      assert items[..k + 1] == items[..k] + [items[k]];
      EncodeAppend(items[..k], items[k]);
    } else {
      assert items[..k] == items;
    }
  }

  // ----- reading -----

  function Prepend(v: bytes, r: Option<bytes>): Option<bytes> {
    if r.None? then None else Some(v + r.value)
  }

  /** The readers' walk over `left` bytes of memory. `found` says that a full fragment came just before. */
  function Scan(mem: bytes, left: int, tag: byte, found: bool): (r: Option<bytes>)
    decreases left
  {
    if left <= 0 || mem == [] then None
    else if mem[0] != tag && found then Some([])
    else if |mem| < 2 then None
    else
      var len := mem[1];
      if mem[0] == tag then
        if left - len < 2 || 2 + len > |mem| then None
        else if len < FRAGMENT then Some(mem[2..2 + len])
        else Prepend(mem[2..2 + len], Scan(mem[2 + len..], left - 2 - len, tag, true))
      else if 2 + len > |mem| then None
      else Scan(mem[2 + len..], left - 2 - len, tag, false)
  }

  // Every item ends within s.
  predicate WellFormed(s: bytes)
    decreases |s|
  {
    s == [] || (|s| >= 2 && 2 + s[1] <= |s| && WellFormed(s[2 + s[1]..]))
  }

  function Plus(n: nat, r: Option<nat>): Option<nat> {
    if r.None? then None else Some(n + r.value)
  }

  /** The readers look at a length byte before they check for it. If the walk comes to a tag that ends the memory, and
      needs its length: how much of a value it has found before. */
  function Stray(mem: bytes, left: int, tag: byte, found: bool): Option<nat>
    requires left <= |mem|
    decreases left
  {
    if left <= 0 || (mem[0] != tag && found) then None
    else if |mem| < 2 then Some(0)
    else
      var len := mem[1];
      if mem[0] == tag then
        if len == FRAGMENT && left - len >= 2 then Plus(len, Stray(mem[2 + len..], left - 2 - len, tag, true)) else None
      else if left - 2 - len <= 0 then None
      else Stray(mem[2 + len..], left - 2 - len, tag, false)
  }

  /** There is no such tag if memory goes on behind what is read, or if all of it is well formed. */
  lemma {:induction false} NothingStrays(mem: bytes, left: int, tag: byte, found: bool)
    requires left < |mem| || (left == |mem| && WellFormed(mem))
    ensures Stray(mem, left, tag, found) == None
    decreases left
  {
    if left > 0 && left - 2 - mem[1] >= 0 {
      NothingStrays(mem[2 + mem[1]..], left - 2 - mem[1], tag, true);
      NothingStrays(mem[2 + mem[1]..], left - 2 - mem[1], tag, false);
    }
  }

  // One step of the walk past a full fragment of the wanted type.
  lemma PrependMore(part: bytes, more: bytes, r: Option<bytes>)
    ensures Prepend(part, Prepend(more, r)) == Prepend(part + more, r)
  {
    if r.Some? { assert part + (more + r.value) == (part + more) + r.value; }
  }

  lemma PrependNothing(r: Option<bytes>)
    ensures Prepend([], r) == r
  {
    if r.Some? { assert [] + r.value == r.value; }
  }

  // What one round of the readers' loop learns, at index `at` of memory with `left` bytes to go.
  lemma Round(mem: bytes, at: nat, left: int, tag: byte, found: bool, part: bytes)
    requires 0 < left && at + left <= |mem|
    ensures
      var all := Prepend(part, Scan(mem[at..], left, tag, found));
      var stray := Plus(|part|, Stray(mem[at..], left, tag, found));
      if mem[at] != tag && found then all == Some(part) && stray == None
      else if at + 1 == |mem| then stray == Some(|part|)
      else
        var len := mem[at + 1];
        if mem[at] == tag && left - len >= 2 then
          at + 2 + len <= |mem| && var more := part + mem[at + 2..at + 2 + len];
            if len < FRAGMENT then all == Some(more) && stray == None
            else if left - 2 - len > 0 then Goes(mem, at + 2 + len, left - 2 - len, tag, true, more, all, stray)
            else all == None && stray == None
        else if mem[at] != tag && left - 2 - len > 0 then
          Goes(mem, at + 2 + len, left - 2 - len, tag, false, part, all, stray)
        else all == None && stray == None
  {
    var rest := mem[at..];
    assert part + [] == part;
    if at + 1 < |mem| && 2 + mem[at + 1] <= |rest| {
      var len := mem[at + 1];
      assert rest[2 + len..] == mem[at + 2 + len..];
      assert rest[2..2 + len] == mem[at + 2..at + 2 + len];
      PrependMore(part, rest[2..2 + len], Scan(rest[2 + len..], left - 2 - len, tag, true));
    }
  }

  /** With `part` found so far, the rest of the walk decides about all of it. */
  predicate Goes(mem: bytes, at: nat, left: int, tag: byte, found: bool, part: bytes, all: Option<bytes>,
                 stray: Option<nat>)
  {
    && 0 < left && at + left <= |mem|
    && all == Prepend(part, Scan(mem[at..], left, tag, found))
    && stray == Plus(|part|, Stray(mem[at..], left, tag, found))
  }

  lemma WalkBegins(mem: bytes, left: nat, tag: byte)
    requires left <= |mem|
    ensures
      if left > 0 then Goes(mem, 0, left, tag, false, [], Scan(mem, left, tag, false), Stray(mem, left, tag, false))
      else Scan(mem, left, tag, false) == None && Stray(mem, left, tag, false) == None
  {
    assert mem[0..] == mem;
    PrependNothing(Scan(mem, left, tag, false));
  }

  /** A value of one full fragment, ended by a lone byte of another type: the readers take no length there. */
  lemma LoneByteEnds(part: bytes, tag: byte, other: byte)
    requires |part| == FRAGMENT && tag != other
    ensures
      var mem := [tag, FRAGMENT] + part + [other];
      Scan(mem, |mem|, tag, false) == Some(part) && Stray(mem, |mem|, tag, false) == None
  {
    var mem := [tag, FRAGMENT] + part + [other];
    assert mem[2..2 + FRAGMENT] == part && mem[2 + FRAGMENT..] == [other];
    assert part + [] == part;
  }

  /** None: a length byte is looked for behind the end of memory. */
  method GetTlvLength(mem: bytes, buflen: nat, tag: byte) returns (r: Option<int>)
    requires buflen <= |mem|
    ensures r.None? <==> Stray(mem, buflen, tag, false).Some?
    ensures r.Some? ==> r.value == match Scan(mem, buflen, tag, false) { case None => -1 case Some(v) => |v| }
  {
    hide Scan, Stray;
    var left, curlen, valLen, found := buflen, 0, 0, false;
    ghost var part: bytes, all, stray := [], Scan(mem, buflen, tag, false), Stray(mem, buflen, tag, false);
    WalkBegins(mem, buflen, tag);
    while left > 0
      invariant |part| == valLen && curlen >= 0
      invariant if left > 0 then Goes(mem, curlen, left, tag, found, part, all, stray) else all == None && stray == None
    {
      Round(mem, curlen, left, tag, found, part);
      if mem[curlen] == tag {
        if curlen + 1 >= |mem| {
          return None;
        }
        var len := mem[curlen + 1];
        if left - len < 2 {
          return Some(-1);
        }
        valLen := valLen + len;
        part := part + mem[curlen + 2..curlen + 2 + len];
        if len < FRAGMENT {
          return Some(valLen);
        }
        found := true;
      } else if found {
        return Some(valLen);
      }
      if curlen + 1 >= |mem| {
        return None;
      }
      var span: int := mem[curlen + 1];
      left, curlen := left - (2 + span), curlen + (2 + span);
    }
    return Some(-1);
  }

  method CopyInto(val: array<byte>, at: nat, part: bytes, valSize: nat)
    requires at + |part| <= valSize <= val.Length
    modifies val
    ensures val[..at + |part|] == old(val[..at]) + part && val[valSize..] == old(val[valSize..])
  {
    forall i | 0 <= i < |part| {
      val[at + i] := part[i];
    }
  }

  /** Copies at most `valSize` bytes; -1 also when the value is larger than that. None: a length byte is looked for
      behind the end of memory. */
  method GetValueFromTlv(mem: bytes, buflen: nat, tag: byte, val: array<byte>, valSize: nat) returns (r: Option<int>)
    requires buflen <= |mem| && valSize <= val.Length
    modifies val
    ensures r.None? <==> Stray(mem, buflen, tag, false).Some? && Stray(mem, buflen, tag, false).value <= valSize
    ensures r.Some? ==>
      (r.value >= 0 <==> Scan(mem, buflen, tag, false).Some? && |Scan(mem, buflen, tag, false).value| <= valSize)
    ensures r.Some? && r.value >= 0 ==> r.value <= valSize && val[..r.value] == Scan(mem, buflen, tag, false).value
    ensures r.Some? && r.value < 0 ==> r.value == -1
    ensures val[valSize..] == old(val[valSize..])
  {
    hide Scan, Stray;
    var left, curlen, valLen, room, found := buflen, 0, 0, valSize, false;
    ghost var all, stray := Scan(mem, buflen, tag, false), Stray(mem, buflen, tag, false);
    assert val[..0] == [];
    WalkBegins(mem, buflen, tag);
    while left > 0
      invariant curlen >= 0 && valLen >= 0 && valLen + room == valSize && room >= 0
      invariant if left > 0 then Goes(mem, curlen, left, tag, found, val[..valLen], all, stray)
        else all == None && stray == None
      invariant val[valSize..] == old(val[valSize..])
    {
      Round(mem, curlen, left, tag, found, val[..valLen]);
      if mem[curlen] == tag {
        if curlen + 1 >= |mem| {
          return None;
        }
        var len := mem[curlen + 1];
        if room < len || left - len < 2 {
          return Some(-1);
        }
        CopyInto(val, valLen, mem[curlen + 2..curlen + 2 + len], valSize);
        valLen := valLen + len;
        room := room - len;
        if len < FRAGMENT {
          return Some(valLen);
        }
        found := true;
      } else if found {
        return Some(valLen);
      }
      if curlen + 1 >= |mem| {
        return None;
      }
      var span: int := mem[curlen + 1];
      left, curlen := left - (2 + span), curlen + (2 + span);
    }
    return Some(-1);
  }

  // ----- the readers on what add_tlv wrote -----

  predicate Merges(value: bytes) {
    value != [] && |value| % FRAGMENT == 0
  }

  /** What the readers see in a list of items: a value of full fragments runs on into an item of its type,
      and needs some item after it to end it. */
  function Lookup(items: seq<Item>, tag: byte, found: bool): Option<bytes> {
    if items == [] then None
    else if items[0].tag == tag then
      if Merges(items[0].value) then Prepend(items[0].value, Lookup(items[1..], tag, true)) else Some(items[0].value)
    else if found then Some([])
    else Lookup(items[1..], tag, false)
  }

  // The first fragment in memory, when all of it is there.
  lemma ScanFragment(mem: bytes, tag: byte, part: bytes, tail: bytes, left: int, found: bool)
    requires |part| <= FRAGMENT && left >= 2 + |part|
    requires mem == [tag, |part|] + part + tail
    ensures Scan(mem, left, tag, found)
      == if |part| < FRAGMENT then Some(part) else Prepend(part, Scan(tail, left - 2 - |part|, tag, true))
    ensures forall other :: other != tag ==>
      Scan(mem, left, other, false) == Scan(tail, left - 2 - |part|, other, false)
  {
    assert mem[0] == tag && mem[1] == |part| && mem[2..2 + |part|] == part && mem[2 + |part|..] == tail;
  }

  /** An item of the type that is cut off is not found. */
  lemma CutOff(mem: bytes, left: int, tag: byte, found: bool)
    requires |mem| >= 2 && mem[0] == tag && left < 2 + mem[1] as int
    ensures Scan(mem, left, tag, found) == None
  {}

  // The first fragment of a long value, and the rest of it.
  lemma SplitFragments(tag: byte, value: bytes, rest: bytes)
    requires |value| > FRAGMENT
    ensures Fragments(tag, value) + rest
      == [tag, FRAGMENT] + value[..FRAGMENT] + (Fragments(tag, value[FRAGMENT..]) + rest)
  {
    Regroup([tag, FRAGMENT] + value[..FRAGMENT], Fragments(tag, value[FRAGMENT..]), rest);
  }

  lemma OneFragment(tag: byte, value: bytes)
    requires |value| <= FRAGMENT
    ensures Fragments(tag, value) == [tag, |value|] + value && EncodedLength(|value|) == |value| + 2
  {}

  lemma Regroup(x: bytes, y: bytes, z: bytes)
    ensures (x + y) + z == x + (y + z)
  {}

  lemma LongerByOneFragment(n: nat)
    requires n > 0
    ensures EncodedLength(n + FRAGMENT) == 2 + FRAGMENT + EncodedLength(n)
  {}

  lemma {:induction false} ScanFragments(tag: byte, value: bytes, rest: bytes, left: nat, found: bool)
    requires left <= |rest|
    ensures Scan(Fragments(tag, value) + rest, EncodedLength(|value|) + left, tag, found)
      == if Merges(value) then Prepend(value, Scan(rest, left, tag, true)) else Some(value)
    decreases |value|
  {
    hide Scan, Fragments;
    var mem := Fragments(tag, value) + rest;
    hide EncodedLength;
    if |value| <= FRAGMENT {
      OneFragment(tag, value);
      ScanFragment(mem, tag, value, rest, EncodedLength(|value|) + left, found);
    } else {
      var part, more := value[..FRAGMENT], value[FRAGMENT..];
      SplitFragments(tag, value, rest);
      LongerByOneFragment(|more|);
      ScanFragment(mem, tag, part, Fragments(tag, more) + rest, EncodedLength(|value|) + left, found);
      ScanFragments(tag, more, rest, left, true);
      assert value == part + more;
      PrependMore(part, more, Scan(rest, left, tag, true));
    }
  }

  lemma {:induction false} SkipFragments(other: byte, value: bytes, rest: bytes, left: nat, tag: byte)
    requires left <= |rest| && other != tag
    ensures Scan(Fragments(other, value) + rest, EncodedLength(|value|) + left, tag, false)
      == Scan(rest, left, tag, false)
    decreases |value|
  {
    hide Scan, Fragments;
    var mem := Fragments(other, value) + rest;
    if |value| <= FRAGMENT {
      OneFragment(other, value);
      ScanFragment(mem, other, value, rest, EncodedLength(|value|) + left, false);
    } else {
      var part, more := value[..FRAGMENT], value[FRAGMENT..];
      SplitFragments(other, value, rest);
      LongerByOneFragment(|more|);
      ScanFragment(mem, other, part, Fragments(other, more) + rest, EncodedLength(|value|) + left, false);
      SkipFragments(other, more, rest, left, tag);
    }
  }

  /** Reading back any list of items, whatever memory follows it. */
  lemma {:induction false} ScanEncoded(items: seq<Item>, tag: byte, after: bytes, found: bool)
    ensures Scan(EncodeAll(items) + after, |EncodeAll(items)|, tag, found) == Lookup(items, tag, found)
    decreases |items|
  {
    hide Scan, Fragments;
    if items == [] {
      ScanNothing(EncodeAll(items) + after, tag, found);
    } else {
      var i, rest := items[0], EncodeAll(items[1..]);
      Regroup(Fragments(i.tag, i.value), rest, after);
      FragmentsLength(i.tag, i.value);
      ScanEncoded(items[1..], tag, after, true);
      ScanEncoded(items[1..], tag, after, false);
      if i.tag == tag {
        ScanFragments(tag, i.value, rest + after, |rest|, found);
      } else if !found {
        SkipFragments(i.tag, i.value, rest + after, |rest|, tag);
      } else {
        ScanOther(i.tag, i.value, rest + after, |EncodeAll(items)|, tag);
      }
    }
  }

  lemma ScanNothing(mem: bytes, tag: byte, found: bool)
    ensures Scan(mem, 0, tag, found) == None
  {}

  lemma ScanOther(other: byte, value: bytes, rest: bytes, left: nat, tag: byte)
    requires other != tag && left > 0
    ensures Scan(Fragments(other, value) + rest, left, tag, true) == Some([])
  {
    assert (Fragments(other, value) + rest)[0] == other;
  }

  predicate FirstOfType(items: seq<Item>, tag: byte, k: nat) {
    k < |items| && items[k].tag == tag && forall j :: 0 <= j < k ==> items[j].tag != tag
  }

  /** When neighbours differ in type, the readers give the first item of the type byte for byte, unless
      it is the last item and its length is a positive multiple of 255. */
  lemma {:induction false} FirstItemReadBack(items: seq<Item>, tag: byte, k: nat)
    requires FirstOfType(items, tag, k) && (k + 1 < |items| ==> items[k + 1].tag != tag)
    ensures Lookup(items, tag, false)
      == if k + 1 == |items| && Merges(items[k].value) then None else Some(items[k].value)
    decreases k
  {
    if k == 0 {
      if |items| > 1 {
        assert items[1..][0] == items[1];
        assert items[0].value + [] == items[0].value;
      }
    } else {
      assert items[0].tag != tag;
      FirstItemReadBack(items[1..], tag, k - 1);
    }
  }

  lemma {:induction false} AbsentType(items: seq<Item>, tag: byte)
    requires forall j :: 0 <= j < |items| ==> items[j].tag != tag
    ensures Lookup(items, tag, false) == None
    decreases |items|
  {
    if items != [] {
      AbsentType(items[1..], tag);
    }
  }

  lemma {:induction false} FragmentsWellFormed(tag: byte, value: bytes, rest: bytes)
    requires WellFormed(rest)
    ensures WellFormed(Fragments(tag, value) + rest)
    decreases |value|
  {
    hide WellFormed;
    if |value| <= FRAGMENT {
      FragmentThen([tag, |value|] + value, rest);
    } else {
      FragmentsWellFormed(tag, value[FRAGMENT..], rest);
      var first, others := [tag, FRAGMENT] + value[..FRAGMENT], Fragments(tag, value[FRAGMENT..]) + rest;
      FragmentThen(first, others);
      assert first + others == Fragments(tag, value) + rest;
    }
  }

  lemma FragmentThen(fragment: bytes, rest: bytes)
    requires |fragment| >= 2 && |fragment| - 2 == fragment[1] && WellFormed(rest)
    ensures WellFormed(fragment + rest)
  {
    assert (fragment + rest)[2 + fragment[1]..] == rest;
  }

  /** What add_tlv writes is readable even when nothing follows it in memory. */
  lemma {:induction false} EncodedIsReadable(items: seq<Item>)
    ensures WellFormed(EncodeAll(items))
    ensures forall tag, found :: Stray(EncodeAll(items), |EncodeAll(items)|, tag, found) == None
    decreases |items|
  {
    if items != [] {
      EncodedIsReadable(items[1..]);
      FragmentsWellFormed(items[0].tag, items[0].value, EncodeAll(items[1..]));
    }
    forall tag, found ensures Stray(EncodeAll(items), |EncodeAll(items)|, tag, found) == None {
      NothingStrays(EncodeAll(items), |EncodeAll(items)|, tag, found);
    }
  }

  /** Written with add_tlv and read with get_value_from_tlv into a buffer that is large enough. */
  method WriteThenRead(items: seq<Item>, k: nat, size: nat, val: array<byte>) returns (r: Option<int>)
    requires |EncodeAll(items)| <= size
    requires k < |items| && FirstOfType(items, items[k].tag, k)
    requires k + 1 < |items| ==> items[k + 1].tag != items[k].tag
    requires |items[k].value| <= val.Length
    modifies val
    ensures r.Some? && (r.value == -1 <==> k + 1 == |items| && Merges(items[k].value))
    ensures r.value != -1 ==> r.value == |items[k].value| && val[..r.value] == items[k].value
  {
    var buf := new byte[size];
    var data := new TlvData(buf, size);
    var ok := data.AddAll(items);
    var mem := buf[..data.curlen];
    var tag := items[k].tag;
    EncodedIsReadable(items);
    ScanEncoded(items, tag, [], false);
    assert EncodeAll(items) + [] == mem;
    FirstItemReadBack(items, tag, k);
    r := GetValueFromTlv(mem, |mem|, tag, val, val.Length);
  }
}
