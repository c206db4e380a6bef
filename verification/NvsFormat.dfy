// The on-flash format that nvs_partition_gen.py writes, and a reference reader for it.
//
// A page holds a 32-byte header, a 32-byte bitmap with two bits per entry, and 126 entries of 32
// bytes. An item takes `span` consecutive entries: one for its own header, the rest for its data.
// The reader walks a page by span, checks every CRC, and joins the chunks of multi-page blobs.

module NvsFormat {
  import opened Bytes

  const MAX_ENTRIES := 126
  const PAGE_SIZE := 4096
  const MAX_OLD_BLOB_SIZE := 1984
  const MAX_NEW_BLOB_SIZE := 4000
  const CHUNK_ANY: byte := 0xFF

  const SZ: byte := 0x21
  const BLOB: byte := 0x41
  const BLOB_DATA: byte := 0x42
  const BLOB_IDX: byte := 0x48

  type bytes = seq<byte>
  /** CRC-32 as the writer uses it; only its being a function of the bytes matters. */
  type Crc = bytes -> nat

  // ----- what is written -----

  datatype Primitive = U8 | I8 | U16 | U32 | I32 {
    function Code(): byte {
      match this
      case U8 => 0x01
      case I8 => 0x11
      case U16 => 0x02
      case U32 => 0x04
      case I32 => 0x14
    }

    function Width(): nat {
      match this
      case U8 => 1
      case I8 => 1
      case U16 => 2
      case U32 => 4
      case I32 => 4
    }

    function Low(): int {
      match this
      case I8 => -0x80
      case I32 => -0x8000_0000
      case _ => 0
    }

    function Span(): nat {
      match this
      case U8 => 0x100
      case I8 => 0x100
      case U16 => 0x1_0000
      case U32 => 0x1_0000_0000
      case I32 => 0x1_0000_0000
    }

    predicate InRange(v: int) {
      Low() <= v < Low() + Span()
    }

    /** Two's complement in Width() bytes. */
    function Wrap(v: int): (raw: nat)
      requires InRange(v)
      ensures raw < Span()
    {
      if v < 0 then v + Span() else v
    }

    function Unwrap(raw: nat): int {
      if raw >= Low() + Span() then raw - Span() else raw
    }
  }

  datatype Value = Num(prim: Primitive, num: int) | Str(text: bytes) | Blob(data: bytes)

  /** What the reader returns: one key-value pair, and the index of its namespace. */
  datatype Record = Record(ns: nat, key: bytes, value: Value)

  predicate ValidKey(key: bytes) {
    |key| <= 16 && 0 !in key
  }

  // ----- one item -----

  /** One item of a page: an entry header and the data that follows it. */
  datatype Item =
    | Scalar(ns: byte, key: bytes, prim: Primitive, num: int)
    | Data(ns: byte, key: bytes, kind: byte, chunk: byte, payload: bytes)
    | Index(ns: byte, key: bytes, size: nat, count: byte, start: byte)

  function PadKey(key: bytes): (r: bytes)
    requires |key| <= 16
    ensures |r| == 16
  {
    key + Repeat(0, 16 - |key|)
  }

  function Unpad(s: bytes): bytes {
    if s == [] || s[0] == 0 then [] else [s[0]] + Unpad(s[1..])
  }

  lemma {:induction false} UnpadPadded(key: bytes, n: nat)
    requires 0 !in key
    ensures Unpad(key + Repeat(0, n)) == key
  {
    var s := key + Repeat(0, n);
    if key != [] {
      assert s[1..] == key[1..] + Repeat(0, n);
      UnpadPadded(key[1..], n);
      assert s[0] == key[0] && key[0] in key;
    } else if n > 0 {
      assert s[0] == 0;
    }
  }

  /** The 32 bytes of an entry header; the CRC covers every byte but its own four. */
  function Header(crc: Crc, ns: byte, kind: byte, span: byte, chunk: byte, key: bytes, data: bytes): (h: bytes)
    requires |key| <= 16 && |data| == 8
    ensures |h| == 32
    ensures h[0] == ns && h[1] == kind && h[2] == span && h[3] == chunk
    ensures h[8..24] == PadKey(key) && h[24..32] == data
    ensures h[4..8] == PutLe(crc(h[..4] + h[8..]), 4)
  {
    var pre, post := [ns, kind, span, chunk], PadKey(key) + data;
    var h := pre + PutLe(crc(pre + post), 4) + post;
    assert h[..4] == pre && h[8..] == post && h[8..24] == PadKey(key);
    h
  }

  function EntriesFor(size: nat): nat {
    (size + 31) / 32
  }

  function SizeField(crc: Crc, payload: bytes): (r: bytes)
    ensures |r| == 8
  {
    PutLe(|payload|, 2) + [255, 255] + PutLe(crc(payload), 4)
  }

  function ScalarField(prim: Primitive, num: int): (r: bytes)
    requires prim.InRange(num)
    ensures |r| == 8
  {
    PutLe(prim.Wrap(num), prim.Width()) + Repeat(255, 8 - prim.Width())
  }

  function IndexField(size: nat, count: byte, start: byte): (r: bytes)
    ensures |r| == 8
  {
    PutLe(size, 4) + [count, start, 255, 255]
  }

  function Padding(size: nat): bytes {
    Repeat(255, 32 * EntriesFor(size) - size)
  }

  predicate Encodable(i: Item) {
    && ValidKey(i.key)
    && match i
       case Scalar(_, _, prim, num) => prim.InRange(num)
       case Data(_, _, kind, chunk, payload) =>
         && kind in {SZ, BLOB, BLOB_DATA}
         && (kind != BLOB_DATA ==> chunk == CHUNK_ANY)
         && |payload| <= MAX_NEW_BLOB_SIZE
       case Index(_, _, size, _, _) => size < 0x1_0000_0000
  }

  function Span(i: Item): (n: nat)
    ensures n > 0
  {
    1 + if i.Data? then EntriesFor(|i.payload|) else 0
  }

  /** The entry header of an item: the `entry_struct` that the writer fills in. */
  function EntryStruct(crc: Crc, i: Item): (r: bytes)
    requires Encodable(i)
    ensures |r| == 32
  {
    match i
    case Scalar(ns, key, prim, num) =>
      Header(crc, ns, prim.Code(), 1, CHUNK_ANY, key, ScalarField(prim, num))
    case Data(ns, key, kind, chunk, payload) =>
      Header(crc, ns, kind, 1 + EntriesFor(|payload|), chunk, key, SizeField(crc, payload))
    case Index(ns, key, size, count, start) =>
      Header(crc, ns, BLOB_IDX, 1, CHUNK_ANY, key, IndexField(size, count, start))
  }

  /** The entries an item takes on flash. */
  function Encode(crc: Crc, i: Item): (r: bytes)
    requires Encodable(i)
    ensures |r| == 32 * Span(i)
  {
    EntryStruct(crc, i) + if i.Data? then i.payload + Padding(|i.payload|) else []
  }

  // ----- what is written, byte by byte -----

  /** What the entries of all items have: the first bytes, the CRC, and the key with zeros after it. */
  ghost predicate EntryBytes(crc: Crc, e: bytes, ns: byte, kind: byte, span: nat, chunk: byte, key: bytes) {
    && |e| >= 32 && e[0] == ns && e[1] == kind && e[2] == span && e[3] == chunk
    && e[4..8] == PutLe(crc(e[..4] + e[8..32]), 4)
    && |key| <= 16 && e[8..8 + |key|] == key && (forall i :: 8 + |key| <= i < 24 ==> e[i] == 0)
  }

  /** A number: its type, and its two's complement, low byte first, before bytes 255. */
  ghost predicate ScalarBytes(crc: Crc, e: bytes, ns: byte, key: bytes, prim: Primitive, num: int) {
    var (kind: byte, width, modulus) := match prim {
      case U8 => (0x01, 1, 0x100)
      case I8 => (0x11, 1, 0x100)
      case U16 => (0x02, 2, 0x1_0000)
      case U32 => (0x04, 4, 0x1_0000_0000)
      case I32 => (0x14, 4, 0x1_0000_0000)
    };
    && |e| == 32 && EntryBytes(crc, e, ns, kind, 1, 0xFF, key)
    && GetLe(e[24..24 + width]) == (if num < 0 then num + modulus else num)
    && forall i :: 24 + width <= i < 32 ==> e[i] == 0xFF
  }

  /** A string, a blob or a chunk: size and CRC of the data, which follows and is filled up with bytes 255. */
  ghost predicate DataBytes(crc: Crc, e: bytes, ns: byte, kind: byte, chunk: byte, key: bytes, data: bytes) {
    && |e| == 32 + (|data| + 31) / 32 * 32
    && EntryBytes(crc, e, ns, kind, 1 + (|data| + 31) / 32, chunk, key)
    && GetLe(e[24..26]) == |data| && e[26] == e[27] == 0xFF && e[28..32] == PutLe(crc(data), 4)
    && e[32..32 + |data|] == data && forall i :: 32 + |data| <= i < |e| ==> e[i] == 0xFF
  }

  /** The index of a blob: its size, the number of its chunks and the number of the first. */
  ghost predicate IndexBytes(crc: Crc, e: bytes, ns: byte, key: bytes, size: nat, count: byte) {
    && |e| == 32 && EntryBytes(crc, e, ns, 0x48, 1, 0xFF, key)
    && GetLe(e[24..28]) == size && e[28] == count && e[29] == 0 && e[30] == e[31] == 0xFF
  }

  ghost predicate ItemBytes(crc: Crc, e: bytes, i: Item) {
    match i
    case Scalar(ns, key, prim, num) => ScalarBytes(crc, e, ns, key, prim, num)
    case Data(ns, key, kind, chunk, payload) => DataBytes(crc, e, ns, kind, chunk, key, payload)
    case Index(ns, key, size, count, start) => start == 0 ==> IndexBytes(crc, e, ns, key, size, count)
  }

  /** The values that a type takes. */
  lemma Ranges(prim: Primitive, num: int)
    ensures prim.InRange(num) <==>
      match prim
      case U8 => 0 <= num <= 255
      case I8 => -128 <= num <= 127
      case U16 => 0 <= num <= 65535
      case U32 => 0 <= num <= 4294967295
      case I32 => -2147483648 <= num <= 2147483647
  {}

  // ----- the reference reader: pages to items -----

  function PrimitiveOf(code: byte): Option<Primitive> {
    if code == 0x01 then Some(U8)
    else if code == 0x11 then Some(I8)
    else if code == 0x02 then Some(U16)
    else if code == 0x04 then Some(U32)
    else if code == 0x14 then Some(I32)
    else None
  }

  predicate CrcOk(crc: Crc, h: bytes)
    requires |h| == 32
  {
    h[4..8] == PutLe(crc(h[..4] + h[8..]), 4)
  }

  /** Reads the item at the start of `area`; None if its header, span or CRC is wrong. */
  function ReadItem(crc: Crc, area: bytes): (r: Option<Item>)
    ensures r.Some? ==> 32 * Span(r.value) <= |area|
  {
    if |area| < 32 then None
    else
    var h := area[..32];
    var ns, kind, span, key := h[0], h[1], h[2], Unpad(h[8..24]);
    if !CrcOk(crc, h) || span == 0 || 32 * span > |area| then None
    else if kind in {SZ, BLOB, BLOB_DATA} then
      var size := GetLe(h[24..26]);
      if span != 1 + EntriesFor(size) then None
      else
        var payload := area[32..32 + size];
        if h[28..32] != PutLe(crc(payload), 4) then None else Some(Data(ns, key, kind, h[3], payload))
    else if span != 1 then None
    else if kind == BLOB_IDX then Some(Index(ns, key, GetLe(h[24..28]), h[28], h[29]))
    else match PrimitiveOf(kind)
      case None => None
      case Some(prim) => Some(Scalar(ns, key, prim, prim.Unwrap(GetLe(h[24..24 + prim.Width()]))))
  }

  lemma {:induction false} UnpadShort(s: bytes)
    ensures |Unpad(s)| <= |s| && 0 !in Unpad(s)
  {
    if s != [] {
      UnpadShort(s[1..]);
    }
  }

  /** What the reader returns has a key of at most 16 bytes, and data of exactly the size and CRC in its header. */
  lemma ReadItemFields(crc: Crc, area: bytes)
    ensures
      var r := ReadItem(crc, area);
      r.Some? ==>
        && ValidKey(r.value.key)
        && (r.value.Data? ==>
              |r.value.payload| == GetLe(area[24..26]) && area[28..32] == PutLe(crc(r.value.payload), 4))
  {
    if |area| >= 32 {
      UnpadShort(area[..32][8..24]);
      assert area[..32][24..26] == area[24..26] && area[..32][28..32] == area[28..32];
    }
  }

  type Reader = bytes -> Option<Item>

  function ItemReader(crc: Crc): Reader {
    area => ReadItem(crc, area)
  }

  /** Walks the written entries of a page by span; None unless the walk ends exactly at the end. */
  function Walk(read: Reader, area: bytes): Option<seq<Item>>
    decreases |area|
  {
    if area == [] then Some([])
    else match read(area)
      case None => None
      case Some(i) =>
        if 32 * Span(i) > |area| then None
        else match Walk(read, area[32 * Span(i)..])
          case None => None
          case Some(rest) => Some([i] + rest)
  }

  // What the reader finds at the start of an area does not depend on what follows it.
  ghost predicate PrefixClosed(read: Reader) {
    forall area, more :: read(area).Some? ==> read(area + more) == read(area)
  }

  lemma PowersOf256()
    ensures Pow256(1) == 0x100 && Pow256(2) == 0x1_0000 && Pow256(4) == 0x1_0000_0000
  {
    assert Pow256(1) == 256 * Pow256(0) && Pow256(2) == 256 * Pow256(1);
    assert Pow256(4) == 256 * Pow256(3) && Pow256(3) == 256 * Pow256(2);
  }

  lemma FieldBack(size: nat, n: nat, rest: bytes)
    requires size < Pow256(n)
    ensures GetLe((PutLe(size, n) + rest)[..n]) == size
  {
    GetPut(size, n);
    assert (PutLe(size, n) + rest)[..n] == PutLe(size, n);
    DivModUnique(size, Pow256(n), 0, size);
  }

  // The entry header of a primitive value, by its fields.
  lemma ScalarHeader(crc: Crc, i: Item) returns (h: bytes)
    requires Encodable(i) && i.Scalar?
    ensures |h| == 32 && CrcOk(crc, h)
    ensures h[0] == i.ns && h[1] == i.prim.Code() && h[2] == 1 && Unpad(h[8..24]) == i.key
    ensures GetLe(h[24..24 + i.prim.Width()]) == i.prim.Wrap(i.num)
    ensures Encode(crc, i) == h
  {
    hide Header, Unpad;
    var f, w := ScalarField(i.prim, i.num), i.prim.Width();
    h := Header(crc, i.ns, i.prim.Code(), 1, CHUNK_ANY, i.key, f);
    UnpadPadded(i.key, 16 - |i.key|);
    PowersOf256();
    FieldBack(i.prim.Wrap(i.num), w, Repeat(255, 8 - w));
    SliceOfSlice(h, 24, 32, 0, w);
    assert h[24..24 + w] == h[24..32][..w];
    assert h + [] == h;
  }

  lemma HeaderBytes(crc: Crc, ns: byte, kind: byte, span: byte, chunk: byte, key: bytes, data: bytes, e: bytes)
    requires |key| <= 16 && |data| == 8 && |e| >= 32
    requires e[..32] == Header(crc, ns, kind, span, chunk, key, data)
    ensures EntryBytes(crc, e, ns, kind, span, chunk, key) && e[24..32] == data
  {
    var h := Header(crc, ns, kind, span, chunk, key, data);
    hide Header, PutLe;
    SliceOfSlice(e, 0, 32, 0, 4);
    SliceOfSlice(e, 0, 32, 4, 8);
    SliceOfSlice(e, 0, 32, 8, 32);
    SliceOfSlice(e, 0, 32, 8, 24);
    SliceOfSlice(e, 0, 32, 24, 32);
    assert e[..4] == h[..4] && e[4..8] == h[4..8] && e[8..32] == h[8..] && e[8..24] == PadKey(key);
    assert e[0] == e[..4][0] && e[1] == e[..4][1] && e[2] == e[..4][2] && e[3] == e[..4][3];
    SliceOfSlice(e, 8, 24, 0, |key|);
    forall i | 8 + |key| <= i < 24 ensures e[i] == 0 {
      assert e[i] == e[8..24][i - 8];
    }
  }

  /** Numbers are written so. */
  lemma ScalarEncoded(crc: Crc, i: Item)
    requires Encodable(i) && i.Scalar?
    ensures ScalarBytes(crc, Encode(crc, i), i.ns, i.key, i.prim, i.num)
  {
    var e, f, w := Encode(crc, i), ScalarField(i.prim, i.num), i.prim.Width();
    var h := ScalarHeader(crc, i);
    hide Header, PutLe, GetLe;
    assert e == EntryStruct(crc, i) + [] == h && e[..32] == h;
    HeaderBytes(crc, i.ns, i.prim.Code(), 1, CHUNK_ANY, i.key, f, e);
    forall k | 24 + w <= k < 32 ensures e[k] == 0xFF {
      assert e[k] == e[24..32][k - 24];
    }
  }

  /** Strings, blobs and chunks are written so. */
  lemma DataEncoded(crc: Crc, i: Item)
    requires Encodable(i) && i.Data?
    ensures DataBytes(crc, Encode(crc, i), i.ns, i.kind, i.chunk, i.key, i.payload)
  {
    hide Encode, EntryStruct, Padding, CrcOk, Unpad, PutLe, GetLe, Encodable, EntryBytes;
    var e := Encode(crc, i);
    var h := DataHeader(crc, i);
    EncodeStart(crc, i);
    PaddedData(e, h, i.payload);
    DataStruct(crc, i, e);
    SliceOfSlice(e, 0, 32, 24, 26);
    SliceOfSlice(e, 0, 32, 28, 32);
  }

  lemma EncodeStart(crc: Crc, i: Item)
    requires Encodable(i)
    ensures Encode(crc, i)[..32] == EntryStruct(crc, i)
  {
    hide EntryStruct;
  }

  lemma DataStruct(crc: Crc, i: Item, e: bytes)
    requires Encodable(i) && i.Data? && |e| >= 32 && e[..32] == EntryStruct(crc, i)
    ensures EntryBytes(crc, e, i.ns, i.kind, 1 + EntriesFor(|i.payload|), i.chunk, i.key) && e[26] == e[27] == 0xFF
  {
    hide Header, EntryBytes, SizeField;
    var f := SizeField(crc, i.payload);
    HeaderBytes(crc, i.ns, i.kind, 1 + EntriesFor(|i.payload|), i.chunk, i.key, f, e);
    FieldMiddle(crc, i.payload);
    assert e[26] == e[24..32][2] && e[27] == e[24..32][3];
  }

  lemma PaddedData(e: bytes, h: bytes, data: bytes)
    requires |h| == 32 && e == h + (data + Padding(|data|))
    ensures |e| == 32 + (|data| + 31) / 32 * 32 && e[..32] == h && e[32..32 + |data|] == data
    ensures forall k :: 32 + |data| <= k < |e| ==> e[k] == 0xFF
  {}

  lemma FieldMiddle(crc: Crc, payload: bytes)
    ensures SizeField(crc, payload)[2] == SizeField(crc, payload)[3] == 255
  {}

  /** And the index of a blob so. */
  lemma IndexEncoded(crc: Crc, i: Item)
    requires Encodable(i) && i.Index? && i.start == 0
    ensures IndexBytes(crc, Encode(crc, i), i.ns, i.key, i.size, i.count)
  {
    var e, f := Encode(crc, i), IndexField(i.size, i.count, i.start);
    var h := IndexHeader(crc, i);
    hide Header, PutLe, GetLe;
    assert e == EntryStruct(crc, i) + [] == h && e[..32] == h;
    HeaderBytes(crc, i.ns, BLOB_IDX, 1, CHUNK_ANY, i.key, f, e);
    assert e[30] == e[24..32][6] && e[31] == e[24..32][7];
  }

  lemma ItemEncoded(crc: Crc, i: Item)
    requires Encodable(i)
    ensures ItemBytes(crc, Encode(crc, i), i)
  {
    hide ScalarBytes, DataBytes, IndexBytes, Encode, Encodable;
    match i
    case Scalar(_, _, _, _) => ScalarEncoded(crc, i);
    case Data(_, _, _, _, _) => DataEncoded(crc, i);
    case Index(_, _, _, _, start) => if start == 0 { IndexEncoded(crc, i); }
  }

  lemma ReadScalar(crc: Crc, i: Item, rest: bytes)
    requires Encodable(i) && i.Scalar?
    ensures ReadItem(crc, Encode(crc, i) + rest) == Some(i)
  {
    hide CrcOk, Encode;
    var h := ScalarHeader(crc, i);
    assert (Encode(crc, i) + rest)[..32] == h;
    assert i.prim.Unwrap(i.prim.Wrap(i.num)) == i.num;
  }

  lemma SizeFieldBack(crc: Crc, payload: bytes)
    requires |payload| <= MAX_NEW_BLOB_SIZE
    ensures GetLe(SizeField(crc, payload)[..2]) == |payload|
    ensures SizeField(crc, payload)[4..8] == PutLe(crc(payload), 4)
  {
    var tail := [255, 255] + PutLe(crc(payload), 4);
    PowersOf256();
    FieldBack(|payload|, 2, tail);
    assert SizeField(crc, payload) == PutLe(|payload|, 2) + tail;
  }

  // The entry header of a data item, by its fields.
  lemma DataHeader(crc: Crc, i: Item) returns (h: bytes)
    requires Encodable(i) && i.Data?
    ensures |h| == 32 && CrcOk(crc, h)
    ensures h[0] == i.ns && h[1] == i.kind && h[2] == Span(i) && h[3] == i.chunk && Unpad(h[8..24]) == i.key
    ensures GetLe(h[24..26]) == |i.payload| && h[28..32] == PutLe(crc(i.payload), 4)
    ensures Encode(crc, i) == h + (i.payload + Padding(|i.payload|))
  {
    hide Header, SizeField, Unpad, GetLe, PutLe, Padding;
    var f := SizeField(crc, i.payload);
    h := Header(crc, i.ns, i.kind, 1 + EntriesFor(|i.payload|), i.chunk, i.key, f);
    UnpadPadded(i.key, 16 - |i.key|);
    SizeFieldBack(crc, i.payload);
    SliceOfSlice(h, 24, 32, 0, 2);
    SliceOfSlice(h, 24, 32, 4, 8);
    assert h[24..26] == h[24..32][..2];
  }

  lemma ReadData(crc: Crc, i: Item, rest: bytes)
    requires Encodable(i) && i.Data?
    ensures ReadItem(crc, Encode(crc, i) + rest) == Some(i)
  {
    hide CrcOk, Encode;
    var h := DataHeader(crc, i);
    var area := Encode(crc, i) + rest;
    assert area[..32] == h;
    assert area[32..32 + |i.payload|] == i.payload;
  }

  // The entry header of a blob index, by its fields.
  lemma IndexHeader(crc: Crc, i: Item) returns (h: bytes)
    requires Encodable(i) && i.Index?
    ensures |h| == 32 && CrcOk(crc, h)
    ensures h[0] == i.ns && h[1] == BLOB_IDX && h[2] == 1 && Unpad(h[8..24]) == i.key
    ensures GetLe(h[24..28]) == i.size && h[28] == i.count && h[29] == i.start
    ensures Encode(crc, i) == h
  {
    hide Header, Unpad, GetLe, PutLe;
    var f, tail: bytes := IndexField(i.size, i.count, i.start), [i.count, i.start, 255, 255];
    h := Header(crc, i.ns, BLOB_IDX, 1, CHUNK_ANY, i.key, f);
    UnpadPadded(i.key, 16 - |i.key|);
    PowersOf256();
    FieldBack(i.size, 4, tail);
    assert h[24..28] == h[24..32][..4] && h[28] == h[24..32][4] && h[29] == h[24..32][5];
    assert h + [] == h;
  }

  lemma ReadIndex(crc: Crc, i: Item, rest: bytes)
    requires Encodable(i) && i.Index?
    ensures ReadItem(crc, Encode(crc, i) + rest) == Some(i)
  {
    hide CrcOk, Encode;
    var h := IndexHeader(crc, i);
    assert (Encode(crc, i) + rest)[..32] == h;
  }

  /** Reading undoes writing, whatever follows the item. */
  lemma ReadEncoded(crc: Crc, i: Item, rest: bytes)
    requires Encodable(i)
    ensures ReadItem(crc, Encode(crc, i) + rest) == Some(i)
  {
    match i
    case Scalar(_, _, _, _) => ReadScalar(crc, i, rest);
    case Data(_, _, _, _, _) => ReadData(crc, i, rest);
    case Index(_, _, _, _, _) => ReadIndex(crc, i, rest);
  }

  lemma {:induction false} WalkAppend(read: Reader, area: bytes, items: seq<Item>, e: bytes, i: Item)
    requires PrefixClosed(read)
    requires Walk(read, area) == Some(items)
    requires |e| == 32 * Span(i) && read(e) == Some(i)
    ensures Walk(read, area + e) == Some(items + [i])
    decreases |area|
  {
    hide Span;
    if area == [] {
      assert area + e == e && e[|e|..] == [];
      assert [i] + [] == [i] == items + [i];
    } else {
      var j := read(area).value;
      var n := 32 * Span(j);
      WalkAppend(read, area[n..], items[1..], e, i);
      assert (area + e)[n..] == area[n..] + e;
      assert [j] + (items[1..] + [i]) == items + [i];
    }
  }

  lemma ReadItemPrefix(crc: Crc, area: bytes, more: bytes)
    requires ReadItem(crc, area).Some?
    ensures ReadItem(crc, area + more) == ReadItem(crc, area)
  {
    var all := area + more;
    assert all[..32] == area[..32];
    var size := GetLe(area[..32][24..26]);
    if 32 + size <= |area| {
      assert all[32..32 + size] == area[32..32 + size];
    }
  }

  lemma ItemReaderPrefixClosed(crc: Crc)
    ensures PrefixClosed(ItemReader(crc))
  {
    forall area, more | ItemReader(crc)(area).Some?
      ensures ItemReader(crc)(area + more) == ItemReader(crc)(area)
    {
      ReadItemPrefix(crc, area, more);
    }
  }

  /** Writing an item after the others on a page adds exactly that item to what is read. */
  lemma WalkEncoded(crc: Crc, area: bytes, items: seq<Item>, i: Item)
    requires Walk(ItemReader(crc), area) == Some(items) && Encodable(i)
    ensures Walk(ItemReader(crc), area + Encode(crc, i)) == Some(items + [i])
  {
    ItemReaderPrefixClosed(crc);
    ReadEncoded(crc, i, []);
    assert Encode(crc, i) + [] == Encode(crc, i);
    WalkAppend(ItemReader(crc), area, items, Encode(crc, i), i);
  }

  // ----- the reference reader: items to records -----

  /** The chunks of a blob seen so far, while its index entry has not been reached. */
  datatype Gathering = Idle | Chunks(ns: byte, key: bytes, count: nat, data: bytes)

  /** One item: the new state and the record it completes, if any. None if it cannot come here. */
  function Feed(g: Gathering, i: Item): Option<(Gathering, seq<Record>)> {
    match i
    case Scalar(ns, key, prim, num) =>
      if g.Idle? then Some((Idle, [Record(ns, key, Num(prim, num))])) else None
    case Index(ns, key, size, count, start) =>
      if g.Chunks? && g.ns == ns && g.key == key && g.count == count && |g.data| == size && start == 0 then
        Some((Idle, [Record(ns, key, Blob(g.data))]))
      else None
    case Data(ns, key, kind, chunk, payload) =>
      if kind == BLOB_DATA then
        if g.Idle? && chunk == 0 then Some((Chunks(ns, key, 1, payload), []))
        else if g.Chunks? && g.ns == ns && g.key == key && g.count == chunk then
          Some((Chunks(ns, key, g.count + 1, g.data + payload), []))
        else None
      else if g.Chunks? then None
      else if kind == BLOB then Some((Idle, [Record(ns, key, Blob(payload))]))
      else if payload == [] || payload[|payload| - 1] != 0 then None
      else Some((Idle, [Record(ns, key, Str(payload[..|payload| - 1]))]))
  }

  function Join(items: seq<Item>, g: Gathering): Option<seq<Record>> {
    if items == [] then (if g.Idle? then Some([]) else None)
    else
      match Feed(g, items[0])
      case None => None
      case Some(step) =>
        match Join(items[1..], step.0)
        case None => None
        case Some(rs) => Some(step.1 + rs)
  }

  lemma {:induction false} JoinAppend(items: seq<Item>, g: Gathering, more: seq<Item>)
    requires Join(items, g).Some?
    ensures Join(items + more, g) ==
      match Join(more, Idle) { case None => None case Some(rs) => Some(Join(items, g).value + rs) }
    decreases |items|
  {
    var all := items + more;
    if items == [] {
      assert all == more;
      assert Join(more, Idle).Some? ==> [] + Join(more, Idle).value == Join(more, Idle).value;
    } else {
      assert all[0] == items[0] && all[1..] == items[1..] + more;
      var step := Feed(g, items[0]).value;
      JoinAppend(items[1..], step.0, more);
      if Join(more, Idle).Some? {
        var xs, ys := Join(items[1..], step.0).value, Join(more, Idle).value;
        assert step.1 + (xs + ys) == (step.1 + xs) + ys;
      }
    }
  }

  /** The chunks of a blob cut into `parts`, numbered from `first`. */
  function ChunkItems(ns: byte, key: bytes, parts: seq<bytes>): (r: seq<Item>)
    requires |parts| <= 256
    ensures |r| == |parts|
  {
    seq(|parts|, i requires 0 <= i < |parts| => Data(ns, key, BLOB_DATA, i, parts[i]))
  }

  function Flatten(parts: seq<bytes>): bytes {
    if parts == [] then [] else Flatten(parts[..|parts| - 1]) + parts[|parts| - 1]
  }

  // An item that completes no record only changes the state.
  lemma SilentStep(items: seq<Item>, g: Gathering)
    requires items != [] && Feed(g, items[0]).Some? && Feed(g, items[0]).value.1 == []
    ensures Join(items, g) == Join(items[1..], Feed(g, items[0]).value.0)
  {
    var r := Join(items[1..], Feed(g, items[0]).value.0);
    assert r.Some? ==> [] + r.value == r.value;
  }

  lemma {:induction false} JoinChunks(ns: byte, key: bytes, parts: seq<bytes>, n: nat)
    requires 0 < n <= |parts| < 256
    ensures Join(ChunkItems(ns, key, parts)[n..] + [Index(ns, key, |Flatten(parts)|, |parts|, 0)],
                 Chunks(ns, key, n, Flatten(parts[..n])))
      == Some([Record(ns, key, Blob(Flatten(parts)))])
    decreases |parts| - n
  {
    var idx := Index(ns, key, |Flatten(parts)|, |parts|, 0);
    var tail := ChunkItems(ns, key, parts)[n..] + [idx];
    if n == |parts| {
      assert parts[..n] == parts && tail == [idx] && tail[1..] == [];
      assert Join([], Idle) == Some([]);
      assert [Record(ns, key, Blob(Flatten(parts)))] + [] == [Record(ns, key, Blob(Flatten(parts)))];
      assert Feed(Chunks(ns, key, n, Flatten(parts)), idx) == Some((Idle, [Record(ns, key, Blob(Flatten(parts)))]));
    } else {
      assert tail[0] == Data(ns, key, BLOB_DATA, n, parts[n]);
      assert tail[1..] == ChunkItems(ns, key, parts)[n + 1..] + [idx];
      assert parts[..n + 1][..n] == parts[..n];
      assert Flatten(parts[..n + 1]) == Flatten(parts[..n]) + parts[n];
      JoinChunks(ns, key, parts, n + 1);
      SilentStep(tail, Chunks(ns, key, n, Flatten(parts[..n])));
    }
  }

  /** Chunks 0..n-1 followed by an index entry with their number and total size read back as one blob. */
  lemma JoinBlob(ns: byte, key: bytes, parts: seq<bytes>)
    requires 0 < |parts| < 256
    ensures Join(ChunkItems(ns, key, parts) + [Index(ns, key, |Flatten(parts)|, |parts|, 0)], Idle)
      == Some([Record(ns, key, Blob(Flatten(parts)))])
  {
    var idx := Index(ns, key, |Flatten(parts)|, |parts|, 0);
    var all := ChunkItems(ns, key, parts) + [idx];
    assert all[0] == Data(ns, key, BLOB_DATA, 0, parts[0]);
    assert all[1..] == ChunkItems(ns, key, parts)[1..] + [idx];
    assert parts[..1] == [parts[0]] && Flatten(parts[..1]) == Flatten(parts[..1][..0]) + parts[0];
    assert parts[..1][..0] == [];
    assert [] + parts[0] == parts[0];
    JoinChunks(ns, key, parts, 1);
    SilentStep(all, Idle);
  }

  /** The items of a blob cut into `parts`: its chunks, then the index entry with the true size and count. */
  function BlobItems(ns: byte, key: bytes, parts: seq<bytes>): seq<Item>
    requires 0 < |parts| < 256
  {
    ChunkItems(ns, key, parts) + [Index(ns, key, |Flatten(parts)|, |parts|, 0)]
  }

  /** `after` is `before` and some items that read back as exactly the record r. */
  ghost predicate AddsRecord(before: seq<Item>, after: Option<seq<Item>>, r: Record) {
    after.Some? && exists more :: after.value == before + more && Join(more, Idle) == Some([r])
  }

  lemma RecordAdded(before: seq<Item>, after: Option<seq<Item>>, r: Record)
    requires Join(before, Idle).Some? && AddsRecord(before, after, r)
    ensures after.Some? && Join(after.value, Idle) == Some(Join(before, Idle).value + [r])
  {
    var more :| after.value == before + more && Join(more, Idle) == Some([r]);
    JoinAppend(before, Idle, more);
  }

  lemma AddsOne(before: seq<Item>, i: Item, r: Record)
    requires Feed(Idle, i) == Some((Idle, [r]))
    ensures AddsRecord(before, Some(before + [i]), r)
  {
    assert [i][1..] == [] && [r] + [] == [r];
    assert Join([i], Idle) == Some([r]);
  }

  lemma AddsBlob(before: seq<Item>, ns: byte, key: bytes, parts: seq<bytes>)
    requires 0 < |parts| < 256
    ensures AddsRecord(before, Some(before + BlobItems(ns, key, parts)), Record(ns, key, Blob(Flatten(parts))))
  {
    JoinBlob(ns, key, parts);
  }

  // ----- text -----

  /** The entry of a text of so many characters, as the tool writes it: the size counts characters, the CRC is of the
      encoded bytes. */
  function TextEntry(crc: Crc, ns: byte, key: bytes, chars: nat, text: bytes): (h: bytes)
    requires |key| <= 16 && chars < MAX_OLD_BLOB_SIZE
    ensures |h| == 32
  {
    Header(crc, ns, SZ, 1 + EntriesFor(chars + 1), CHUNK_ANY, key,
           PutLe(chars + 1, 2) + [255, 255] + PutLe(crc(text + [0]), 4))
  }

  /** A text is read back exactly when each of its characters is one byte. */
  lemma TextReadsBack(crc: Crc, ns: byte, key: bytes, chars: nat, text: bytes, rest: bytes)
    requires ValidKey(key) && chars < MAX_OLD_BLOB_SIZE && |text| + 1 + |rest| >= 32 * EntriesFor(chars + 1)
    ensures
      var area := TextEntry(crc, ns, key, chars, text) + (text + [0] + rest);
      ReadItem(crc, area) == Some(Data(ns, key, SZ, CHUNK_ANY, text + [0])) <==> |text| == chars
  {
    hide Header, CrcOk, Unpad, PutLe, GetLe, TextEntry;
    var h, payload := TextEntry(crc, ns, key, chars, text), text + [0];
    var area := h + (payload + rest);
    assert area == h + (text + [0] + rest) && area[..32] == h && area[24..26] == h[24..26];
    TextSize(crc, ns, key, chars, text);
    ReadItemFields(crc, area);
    if |text| == chars {
      TextIsData(crc, ns, key, text);
      assert area[32..32 + |payload|] == payload;
    }
  }

  // With characters of one byte it is the entry of the text's bytes.
  lemma TextIsData(crc: Crc, ns: byte, key: bytes, text: bytes)
    requires ValidKey(key) && |text| < MAX_OLD_BLOB_SIZE
    ensures
      var h := TextEntry(crc, ns, key, |text|, text);
      && CrcOk(crc, h) && h[0] == ns && h[1] == SZ && h[2] == 1 + EntriesFor(|text| + 1) && h[3] == CHUNK_ANY
      && Unpad(h[8..24]) == key && h[28..32] == PutLe(crc(text + [0]), 4)
  {
    var i := Data(ns, key, SZ, CHUNK_ANY, text + [0]);
    var h := DataHeader(crc, i);
    hide Header, Unpad, CrcOk;
    assert Encode(crc, i)[..32] == h;
    assert Encode(crc, i)[..32] == EntryStruct(crc, i);
  }

  lemma TextSize(crc: Crc, ns: byte, key: bytes, chars: nat, text: bytes)
    requires |key| <= 16 && chars < MAX_OLD_BLOB_SIZE
    ensures GetLe(TextEntry(crc, ns, key, chars, text)[24..26]) == chars + 1
  {
    hide Header, PutLe, GetLe, Pow256;
    var h, tail := TextEntry(crc, ns, key, chars, text), [255, 255] + PutLe(crc(text + [0]), 4);
    var f := PutLe(chars + 1, 2) + [255, 255] + PutLe(crc(text + [0]), 4);
    assert h[24..32] == f;
    hide TextEntry;
    assert f == PutLe(chars + 1, 2) + tail;
    PowersOf256();
    FieldBack(chars + 1, 2, tail);
    SliceOfSlice(h, 24, 32, 0, 2);
  }
}
