// The Page and NVS classes of nvs_partition_gen.py, unencrypted.

module NvsWriter {
  import opened Bytes
  import opened NvsFormat
  import opened NvsImage

  /** How a call ends: normally, or with one of the exceptions of the tool. */
  datatype Outcome =
    | Ok
    | PageFullError
    | InputError
    | InsufficientSizeError
    | RangeError // a number that does not fit its field: struct.error or ValueError

  class Page {
    const crc: Crc
    const version: byte
    const number: nat
    var entryNum: nat
    var bitmapArray: bytes
    var pageBuf: bytes

    ghost predicate Valid()
      reads this
    {
      PageOk(crc, version, number, entryNum, pageBuf) && pageBuf[32..64] == bitmapArray
    }

    /** The bytes of the entries written so far. */
    ghost function Area(): bytes
      reads this
      requires Valid()
    {
      WrittenArea(pageBuf, entryNum)
    }

    constructor (crc: Crc, version: byte, number: nat)
      ensures Valid() && entryNum == 0 && Area() == []
      ensures |pageBuf| == 4096 && pageBuf[..4] == [0xFE, 0xFF, 0xFF, 0xFF] && pageBuf[8] == version
      ensures GetLe(pageBuf[4..8]) == number % 0x1_0000_0000 && pageBuf[28..32] == PutLe(crc(pageBuf[4..28]), 4)
      ensures forall i :: 9 <= i < 4096 && !(28 <= i < 32) ==> pageBuf[i] == 0xFF
      ensures this.crc == crc && this.version == version && this.number == number
    {
      this.crc, this.version, this.number := crc, version, number;
      entryNum := 0;
      // create_bitmap_array leaves the 255s that the buffer already holds there
      var blank := Repeat(255, PAGE_SIZE);
      bitmapArray := Repeat(255, 32);
      pageBuf := PageHeader(crc, version, number) + blank[32..];
      new;
      assert pageBuf[32..64] == bitmapArray;
      ErasedBitmap(bitmapArray);
      assert pageBuf[32..] == blank[32..];
      PageHeaderBytes(crc, version, number, pageBuf);
      forall i | 32 <= i < 4096 ensures pageBuf[i] == 0xFF {
        assert pageBuf[i] == pageBuf[32..][i - 32];
      }
    }

    method WriteBitmapArray()
      requires |bitmapArray| == 32 && |pageBuf| == PAGE_SIZE && entryNum < MAX_ENTRIES
      requires Marks(bitmapArray, entryNum)
      modifies this`bitmapArray, this`pageBuf
      ensures |bitmapArray| == 32 && Marks(bitmapArray, entryNum + 1)
      ensures pageBuf == old(pageBuf[..32]) + bitmapArray + old(pageBuf[64..])
    {
      var bitnum := entryNum * 2;
      var byteIdx, bitOffset := bitnum / 8, bitnum % 8;
      MarkNext(bitmapArray, entryNum);
      assert byteIdx == entryNum / 4 && bitOffset == 2 * (entryNum % 4);
      bitmapArray := bitmapArray[byteIdx := ClearBit(bitmapArray[byteIdx], bitOffset)];
      pageBuf := pageBuf[..32] + bitmapArray + pageBuf[64..];
    }

    method WriteEntryToBuf(data: bytes, entryCount: nat)
      requires Valid() && entryNum + entryCount <= MAX_ENTRIES && |data| <= 32 * entryCount
      modifies this
      ensures Valid() && entryNum == old(entryNum) + entryCount
      ensures Area() == old(Area()) + data + Repeat(255, 32 * entryCount - |data|)
      ensures PageBytes(crc, version, number, entryNum, pageBuf)
      ensures pageBuf[64 + 32 * old(entryNum)..64 + 32 * old(entryNum) + |data|] == data
      ensures pageBuf[64..64 + 32 * old(entryNum)] == old(pageBuf[64..64 + 32 * entryNum])
    {
      hide Marks, PageHeader, WrittenArea, Repeat;
      var startIdx := 64 + 32 * entryNum;
      var endIdx := startIdx + |data|;
      ghost var buf0, n0 := pageBuf, entryNum;
      pageBuf := pageBuf[..startIdx] + data + pageBuf[endIdx..];
      ghost var buf1 := pageBuf;
      assert buf1[..32] == buf0[..32] && buf1[32..64] == buf0[32..64];
      for i := 0 to entryCount
        invariant entryNum == n0 + i
        invariant |bitmapArray| == 32 && Marks(bitmapArray, entryNum)
        invariant pageBuf == buf1[..32] + bitmapArray + buf1[64..]
      {
        WriteBitmapArray();
        entryNum := entryNum + 1;
      }
      assert pageBuf[..32] == buf0[..32] && pageBuf[32..64] == bitmapArray && pageBuf[64..] == buf1[64..];
      AreaAfterWrite(buf0, pageBuf, n0, entryCount, data);
      AreaIs(buf0, n0);
      AreaIs(pageBuf, entryNum);
      LastPart(pageBuf, WrittenArea(buf0, n0), data, WrittenArea(pageBuf, entryNum));
      OkBytes(crc, version, number, entryNum, pageBuf);
    }

    // The entry header of an item, and the data after it.
    method WriteItem(i: Item)
      requires Valid() && Encodable(i) && entryNum + Span(i) <= MAX_ENTRIES
      modifies this
      ensures Valid() && entryNum == old(entryNum) + Span(i) && Area() == old(Area()) + Encode(crc, i)
      ensures Entries(old(entryNum)) == Encode(crc, i)
      ensures pageBuf[64..64 + 32 * old(entryNum)] == old(pageBuf[64..64 + 32 * entryNum])
    {
      hide Page.Valid, Page.Area, EntryStruct, Repeat, Encodable;
      AreaInPage();
      ghost var area := Area();
      var entryStruct := EntryStruct(crc, i);
      WriteEntryToBuf(entryStruct, 1);
      assert Area() == area + entryStruct;
      if i.Data? {
        WriteEntryToBuf(i.payload, EntriesFor(|i.payload|));
        assert Area() == area + (entryStruct + (i.payload + Padding(|i.payload|)));
      }
      assert Area() == area + Encode(crc, i);
      hide Encode, Padding;
      AreaInPage();
      LastPart(pageBuf, area, Encode(crc, i), Area());
    }

    /** The bytes of the page from entry n on, as far as it is written. */
    ghost function Entries(n: nat): bytes
      reads this`pageBuf, this`entryNum
    {
      if n <= entryNum <= 126 && |pageBuf| == 4096 then pageBuf[64 + 32 * n..64 + 32 * entryNum] else []
    }

    lemma AreaInPage()
      requires Valid()
      ensures |pageBuf| == 4096 && entryNum <= 126 && Area() == pageBuf[64..64 + 32 * entryNum]
    {}
  }

  lemma AreaIs(buf: bytes, n: nat)
    requires |buf| == PAGE_SIZE && n <= MAX_ENTRIES
    ensures WrittenArea(buf, n) == buf[64..64 + 32 * n] && |WrittenArea(buf, n)| == 32 * n
  {}

  // Where in the page a part of its written area is.
  lemma LastPart(buf: bytes, before: bytes, data: bytes, area: bytes)
    requires |before| + |data| <= |area| && 64 + |area| <= |buf| && area == buf[64..64 + |area|]
    requires area[..|before|] == before && area[|before|..|before| + |data|] == data
    ensures buf[64 + |before|..64 + |before| + |data|] == data && buf[64..64 + |before|] == before
  {
    SliceOfSlice(buf, 64, 64 + |area|, 0, |before|);
    SliceOfSlice(buf, 64, 64 + |area|, |before|, |before| + |data|);
  }

  lemma AreaAfterWrite(before: bytes, after: bytes, n: nat, count: nat, data: bytes)
    requires |before| == |after| == PAGE_SIZE && n + count <= MAX_ENTRIES && |data| <= 32 * count
    requires forall i :: 64 + 32 * n <= i < PAGE_SIZE ==> before[i] == 255
    requires after[64..] == (before[..64 + 32 * n] + data + before[64 + 32 * n + |data|..])[64..]
    ensures WrittenArea(after, n + count) == WrittenArea(before, n) + data + Repeat(255, 32 * count - |data|)
    ensures forall i :: 64 + 32 * (n + count) <= i < PAGE_SIZE ==> after[i] == 255
  {
    var start := 64 + 32 * n;
    var mid := before[..start] + data + before[start + |data|..];
    assert forall i :: 64 <= i < PAGE_SIZE ==> after[i] == after[64..][i - 64] == mid[i];
    var l, r := WrittenArea(after, n + count), WrittenArea(before, n) + data + Repeat(255, 32 * count - |data|);
    assert |l| == |r|;
    forall i | 0 <= i < |l|
      ensures l[i] == r[i]
    {
      assert l[i] == mid[64 + i];
    }
  }

  /** The written areas of pages, in order. */
  ghost function AreasOf(ps: seq<Page>): (r: seq<bytes>)
    reads ps
    requires forall p :: p in ps ==> p.Valid()
    ensures |r| == |ps|
    ensures forall k :: 0 <= k < |ps| ==> r[k] == ps[k].Area()
  {
    seq(|ps|, k requires 0 <= k < |ps| && ps[k].Valid() reads ps => ps[k].Area())
  }

  lemma AreasPush(ps: seq<Page>, p: Page)
    requires forall q :: q in ps ==> q.Valid()
    requires p.Valid()
    ensures AreasOf(ps + [p]) == AreasOf(ps) + [p.Area()]
  {
    hide Page.Valid, Page.Area;
    assert (ps + [p])[..|ps|] == ps;
  }

  lemma NothingWritten(crc: Crc, areas: seq<bytes>)
    requires areas == []
    ensures ItemsOf(crc, areas + [[]]) == Some([]) && Join([], Idle) == Some([])
  {
    ItemsAfterNewPage(crc, areas);
  }

  function CeilDiv(n: nat, d: nat): nat
    requires d > 0
  {
    (n + d - 1) / d
  }

  /** Room for data on a page, after an entry for its header. */
  function Tailroom(entryNum: nat): (room: nat)
    requires entryNum < MAX_ENTRIES
  {
    (MAX_ENTRIES - entryNum - 1) * 32
  }

  /** Chunks of a blob that starts on a page with so many entries: each but the last fills its page. */
  function ChunksFor(entryNum: nat, size: nat): (n: nat)
    requires entryNum < MAX_ENTRIES
    ensures n > 0
  {
    if size <= Tailroom(entryNum) then 1 else 1 + CeilDiv(size - Tailroom(entryNum), MAX_NEW_BLOB_SIZE)
  }

  /** Room left behind the last chunk. */
  function LastRoom(entryNum: nat, size: nat): int
    requires entryNum < MAX_ENTRIES
  {
    Tailroom(entryNum) + MAX_NEW_BLOB_SIZE * (ChunksFor(entryNum, size) - 1) - size
  }

  /** Pages that are made on the way: one after each chunk but the last, and one for the index if it has no room. No
      more than 256 chunks are begun. */
  function PagesFor(entryNum: nat, size: nat): nat
    requires entryNum < MAX_ENTRIES
  {
    var n := ChunksFor(entryNum, size);
    if n > 256 then 256 else if LastRoom(entryNum, size) < 32 then n else n - 1
  }

  /** Entries of the page that the index of a blob is on, with it. */
  function EntriesAfterBlob(entryNum: nat, size: nat): int
    requires entryNum < MAX_ENTRIES
  {
    if LastRoom(entryNum, size) < 32 then 1 else MAX_ENTRIES + 1 - LastRoom(entryNum, size) / 32
  }

  // The last chunk fills its page up to the room left behind it.
  lemma LastChunkEntries(entryNum: nat, size: nat)
    requires entryNum < MAX_ENTRIES && size <= Tailroom(entryNum)
    ensures entryNum + 1 + EntriesFor(size) == MAX_ENTRIES - (Tailroom(entryNum) - size) / 32
  {}

  /** There are at most 1 + ceil(size / 4000) chunks, and 256 only from 4000 * 254 bytes beyond the first page on. */
  lemma ChunkCountBound(entryNum: nat, size: nat)
    requires entryNum < MAX_ENTRIES
    ensures ChunksFor(entryNum, size) <= 1 + CeilDiv(size, MAX_NEW_BLOB_SIZE)
    ensures PagesFor(entryNum, size) <= 1 + CeilDiv(size, MAX_NEW_BLOB_SIZE)
    ensures ChunksFor(entryNum, size) >= 256 <==> size - Tailroom(entryNum) > MAX_NEW_BLOB_SIZE * 254
  {}

  // Before chunk number c, when all chunks so far have filled their pages.
  lemma ChunkNext(entryNum: nat, size: nat, c: nat, offset: nat)
    requires entryNum < MAX_ENTRIES && offset <= size
    requires if c == 0 then offset == 0 else offset == Tailroom(entryNum) + MAX_NEW_BLOB_SIZE * (c - 1) && offset < size
    ensures ChunksFor(entryNum, size) > c
    ensures
      var room := if c == 0 then Tailroom(entryNum) else MAX_NEW_BLOB_SIZE;
      if size - offset <= room
      then ChunksFor(entryNum, size) == c + 1 && LastRoom(entryNum, size) == room - (size - offset)
      else ChunksFor(entryNum, size) > c + 1
  {}

  // What a reader makes of the data of a variable-length entry.
  function VarlenValue(data: bytes, isString: bool): Value
    requires isString ==> data != []
  {
    if isString then Str(data[..|data| - 1]) else Blob(data)
  }

  /** The lengths that the tool refuses: strings count their terminator, and only v2 splits blobs. */
  predicate TooLong(version: Version, value: Value) {
    match value
    case Num(_, _) => false
    case Str(text) => |text| + 1 > MAX_OLD_BLOB_SIZE
    case Blob(data) => version == VERSION1 && |data| > MAX_OLD_BLOB_SIZE
  }

  // Items and bytes of the chunks written so far.
  lemma NoChunks(items: seq<Item>, ns: byte, key: bytes)
    ensures items + ChunkItems(ns, key, []) == items && Flatten([]) == []
  {}

  lemma ChunkAdded(items: seq<Item>, ns: byte, key: bytes, parts: seq<bytes>, data: bytes, offset: nat, n: nat)
    requires |parts| < 256 && offset + n <= |data| && Flatten(parts) == data[..offset]
    ensures
      var more := parts + [data[offset..offset + n]];
      && Flatten(more) == data[..offset + n]
      && items + ChunkItems(ns, key, more)
         == items + ChunkItems(ns, key, parts) + [Data(ns, key, BLOB_DATA, |parts|, data[offset..offset + n])]
  {
    var part := data[offset..offset + n];
    var more := parts + [part];
    assert more[..|more| - 1] == parts;
    assert data[..offset] + part == data[..offset + n];
    assert ChunkItems(ns, key, more) == ChunkItems(ns, key, parts) + [Data(ns, key, BLOB_DATA, |parts|, part)];
  }

  lemma BlobComplete(items: seq<Item>, ns: byte, key: bytes, parts: seq<bytes>)
    requires 0 < |parts| < 256
    ensures items + ChunkItems(ns, key, parts) + [Index(ns, key, |Flatten(parts)|, |parts|, 0)]
      == items + BlobItems(ns, key, parts)
  {}

  lemma BlobItemsAre(ns: byte, key: bytes, parts: seq<bytes>)
    requires 0 < |parts| < 256
    ensures
      var items := BlobItems(ns, key, parts);
      && |items| == |parts| + 1 && items[|parts|] == Index(ns, key, |Flatten(parts)|, |parts|, 0)
      && forall k :: 0 <= k < |parts| ==> items[k] == Data(ns, key, 0x42, k, parts[k])
  {
    hide Flatten;
  }

  /** Chunks that fill what was left of the first page, and then whole pages. */
  predicate AllFull(parts: seq<bytes>, entryNum: nat) {
    forall k :: 0 <= k < |parts| ==> |parts[k]| == if k == 0 then 32 * (125 - entryNum) else 4000
  }

  /** Blobs of v2 may be split over pages; other values go on one page or, after a retry, on the next. */
  predicate Splits(version: Version, value: Value) {
    value.Blob? && version == VERSION2
  }

  predicate PageTooFull(version: Version, entryNum: nat, value: Value) {
    || entryNum >= MAX_ENTRIES
    || (value.Str? && entryNum + EntriesFor(|value.text| + 1) + 1 >= MAX_ENTRIES)
    || (value.Blob? && version == VERSION1 && entryNum + EntriesFor(|value.data|) + 1 >= MAX_ENTRIES)
  }

  /** What the tool's fields of one byte and the range of a number do not hold, on a page with so many entries. */
  predicate OutOfRange(version: Version, nsIndex: nat, entryNum: nat, value: Value)
    requires entryNum < MAX_ENTRIES
  {
    || nsIndex >= 256
    || (value.Num? && !value.prim.InRange(value.num))
    || (Splits(version, value) && ChunksFor(entryNum, |value.data|) >= 256)
  }

  /** Pages made for a value that starts on such a page. */
  function PagesOn(version: Version, nsIndex: nat, entryNum: nat, value: Value): nat
    requires entryNum < MAX_ENTRIES
  {
    if Splits(version, value) && nsIndex < 256 then PagesFor(entryNum, |value.data|) else 0
  }

  /** Entries of the page that a value starts on: a fresh one if the current page is too full. */
  function StartOn(version: Version, entryNum: nat, value: Value): (start: nat)
    ensures start < MAX_ENTRIES
  {
    if PageTooFull(version, entryNum, value) then 0 else entryNum
  }

  /** Pages made for a value, the fresh one included. */
  function PagesNeeded(version: Version, nsIndex: nat, entryNum: nat, value: Value): nat {
    PagesOn(version, nsIndex, StartOn(version, entryNum, value), value)
    + if PageTooFull(version, entryNum, value) then 1 else 0
  }

  /** Entries of the current page after a value. */
  function EntriesAfter(version: Version, entryNum: nat, value: Value): int {
    var start := StartOn(version, entryNum, value);
    if Splits(version, value) then EntriesAfterBlob(start, |value.data|)
    else
      match value
      case Num(_, _) => start + 1
      case Str(text) => start + 1 + EntriesFor(|text| + 1)
      case Blob(data) => start + 1 + EntriesFor(|data|)
  }

  class Nvs {
    const crc: Crc
    const version: Version
    const inputSize: nat
    var size: nat
    var namespaceIdx: nat
    var pageNum: int
    var pages: seq<Page>
    var curPage: Page

    ghost predicate Valid()
      reads this`size, this`pageNum, this`pages, this`curPage, pages
    {
      && pages != [] && pageNum == |pages| - 1 && curPage == pages[pageNum]
      && (forall i, j :: 0 <= i < j < |pages| ==> pages[i] != pages[j])
      && (forall k :: 0 <= k < |pages| ==> GoodPage(pages[k], k))
      && size >= 0 && size % PAGE_SIZE == 0 && size + PAGE_SIZE * |pages| == inputSize
    }

    ghost predicate GoodPage(p: Page, k: nat)
      reads p
    {
      p.Valid() && p.crc == crc && p.version == version && p.number == k
    }

    ghost predicate StandsAt(at: Layout)
      reads this`size, this`namespaceIdx, this`curPage, curPage`entryNum
    {
      && namespaceIdx == at.ns && curPage.entryNum == at.entryNum && at.pages > 0
      && size + PAGE_SIZE * at.pages == inputSize
    }

    lemma PagesLeft(at: Layout, n: nat)
      requires Valid() && StandsAt(at)
      ensures size < PAGE_SIZE * n <==> at.pages + n > inputSize / PAGE_SIZE
      ensures size == 0 <==> at.pages + 1 > inputSize / PAGE_SIZE
    {}

    /** What a reader finds on the pages, item by item. */
    ghost function Items(): Option<seq<Item>>
      reads this`size, this`pageNum, this`pages, this`curPage, pages
      requires Valid()
    {
      ItemsOf(crc, AreasOf(pages))
    }

    /** What a reader finds on the pages: the keys and values. */
    ghost function Records(): Option<seq<Record>>
      reads this`size, this`pageNum, this`pages, this`curPage, pages
      requires Valid()
    {
      if Items().None? then None else Join(Items().value, Idle)
    }

    constructor (crc: Crc, version: Version, inputSize: nat)
      requires inputSize >= PAGE_SIZE && inputSize % PAGE_SIZE == 0
      ensures Valid() && Records() == Some([]) && namespaceIdx == 0 && size == inputSize - PAGE_SIZE
      ensures this.crc == crc && this.version == version && this.inputSize == inputSize
      ensures fresh(curPage) && curPage.entryNum == 0
    {
      hide Page.Valid, Page.Area, AreasOf, ItemReader, ItemsOf, Join, Feed;
      this.crc, this.version, this.inputSize := crc, version, inputSize;
      size := inputSize - PAGE_SIZE;
      namespaceIdx := 0;
      pageNum := 0;
      var page := new Page(crc, version, 0);
      curPage := page;
      pages := [page];
      new;
      AreasPush([], page);
      assert [] + [page] == pages;
      NothingWritten(crc, AreasOf([]));
    }

    method CreateNewPage() returns (ok: bool)
      requires Valid()
      modifies this`size, this`pageNum, this`pages, this`curPage
      ensures Valid() && Items() == old(Items())
      ensures ok <==> old(size) != 0
      ensures size == if ok then old(size) - PAGE_SIZE else 0
      ensures !ok ==> pages == old(pages) && curPage == old(curPage)
      ensures ok ==> fresh(curPage) && curPage.entryNum == 0 && pages == old(pages) + [curPage]
    {
      hide Page.Valid, Page.Area, ItemsOf, AreasOf;
      if size == 0 {
        return false;
      }
      size := size - PAGE_SIZE;
      pageNum := pageNum + 1;
      var newPage := new Page(crc, version, pageNum);
      ghost var before := pages;
      pages := pages + [newPage];
      curPage := newPage;
      AreasPush(before, newPage);
      ItemsAfterNewPage(crc, AreasOf(before));
      return true;
    }

    /** Builds an entry header and writes it, and the data of the item after it, to the current page. */
    method PutItem(i: Item)
      requires Valid() && Items().Some?
      requires Encodable(i) && curPage.entryNum + Span(i) <= MAX_ENTRIES
      modifies curPage
      ensures Valid() && Items() == Some(old(Items()).value + [i])
      ensures curPage.entryNum == old(curPage.entryNum) + Span(i)
      ensures curPage.Entries(old(curPage.entryNum)) == Encode(crc, i)
      ensures ItemBytes(crc, curPage.Entries(old(curPage.entryNum)), i)
    {
      hide Page.Valid, Page.Area, ItemsOf, AreasOf, Encode, Encodable, ItemBytes;
      ItemEncoded(crc, i);
      ghost var areas, n := AreasOf(pages), |pages| - 1;
      curPage.WriteItem(i);
      assert AreasOf(pages) == areas[n := areas[n] + Encode(crc, i)];
      ItemsAfterWrite(crc, areas, i);
    }

    /** Page.write_primitive_data; `curPage` is the page it is called on. */
    method WritePrimitiveData(key: bytes, num: int, prim: Primitive, nsIndex: nat) returns (o: Outcome)
      requires Valid() && Items().Some? && ValidKey(key)
      modifies curPage
      ensures Valid()
      ensures o == PageFullError <==> old(curPage.entryNum) >= MAX_ENTRIES
      ensures o == RangeError <==> old(curPage.entryNum) < MAX_ENTRIES && !(nsIndex < 256 && prim.InRange(num))
      ensures o in {Ok, PageFullError, RangeError}
      ensures o != Ok ==> Items() == old(Items())
      ensures curPage.entryNum == old(curPage.entryNum) + if o == Ok then 1 else 0
      ensures o == Ok ==> ScalarBytes(crc, curPage.Entries(old(curPage.entryNum)), nsIndex, key, prim, num)
      ensures o == Ok ==> AddsRecord(old(Items()).value, Items(), Record(nsIndex, key, Num(prim, num)))
    {
      hide Nvs.Valid, Nvs.Items, Join, AddsRecord, ScalarBytes, Encode, Page.Entries;
      if curPage.entryNum >= MAX_ENTRIES {
        return PageFullError;
      }
      if nsIndex >= 256 || !prim.InRange(num) {
        return RangeError;
      }
      ghost var before := Items().value;
      PutItem(Scalar(nsIndex, key, prim, num));
      AddsOne(before, Scalar(nsIndex, key, prim, num), Record(nsIndex, key, Num(prim, num)));
      return Ok;
    }

    /** Page.write_varlen_binary_data: chunks that each fill the page they are on, then an index entry. */
    method WriteVarlenBinaryData(ns: byte, key: bytes, data: bytes) returns (o: Outcome, ghost parts: seq<bytes>)
      requires Valid() && Items().Some? && ValidKey(key) && curPage.entryNum < MAX_ENTRIES
      modifies this`size, this`pageNum, this`pages, this`curPage, curPage
      ensures Valid() && (curPage == old(curPage) || fresh(curPage))
      ensures o in {Ok, InsufficientSizeError, RangeError}
      ensures o == InsufficientSizeError <==>
        old(size) < PAGE_SIZE * PagesFor(old(curPage.entryNum), |data|)
      ensures o != InsufficientSizeError ==>
        (o == RangeError <==> ChunksFor(old(curPage.entryNum), |data|) >= 256)
      ensures o != InsufficientSizeError ==> size == old(size) - PAGE_SIZE * PagesFor(old(curPage.entryNum), |data|)
      ensures o == Ok ==> |parts| == ChunksFor(old(curPage.entryNum), |data|) < 256 && Flatten(parts) == data
      ensures o == Ok ==> curPage.entryNum == EntriesAfterBlob(old(curPage.entryNum), |data|)
      // each chunk but the last fills what is left of its page
      ensures o == Ok ==> forall k :: 0 <= k < |parts| - 1 ==>
        |parts[k]| == if k == 0 then 32 * (125 - old(curPage.entryNum)) else 4000
      ensures o == Ok ==> Items() == Some(old(Items()).value + BlobItems(ns, key, parts))
      ensures o == Ok ==>
        && |BlobItems(ns, key, parts)| == |parts| + 1
        && BlobItems(ns, key, parts)[|parts|] == Index(ns, key, |data|, |parts|, 0)
        && forall k :: 0 <= k < |parts| ==> BlobItems(ns, key, parts)[k] == Data(ns, key, 0x42, k, parts[k])
    {
      hide Nvs.Valid, Nvs.Items, ChunksFor, LastRoom, ChunkItems, BlobItems, Flatten, ValidKey, Encode;
      hide Page.Entries, ItemBytes;
      ghost var e0 := curPage.entryNum;
      var offset, chunkCount, remainingSize := 0, 0, |data|;
      parts := [];
      NoChunks(old(Items()).value, ns, key);
      while true
        invariant Valid() && (curPage == old(curPage) || fresh(curPage))
        invariant |parts| == chunkCount <= 256 && AllFull(parts, e0)
        invariant Items() == Some(old(Items()).value + ChunkItems(ns, key, parts))
        invariant 0 <= offset <= |data| && remainingSize == |data| - offset && Flatten(parts) == data[..offset]
        invariant curPage.entryNum == if chunkCount == 0 then e0 else 0
        invariant size == old(size) - PAGE_SIZE * chunkCount
        invariant if chunkCount == 0 then offset == 0
          else remainingSize > 0 && offset == Tailroom(e0) + MAX_NEW_BLOB_SIZE * (chunkCount - 1)
        decreases remainingSize + if chunkCount == 0 then 1 else 0
      {
        ChunkNext(e0, |data|, chunkCount, offset);
        var tailroom := (MAX_ENTRIES - curPage.entryNum - 1) * 32;
        var chunkSize := if tailroom < remainingSize then tailroom else remainingSize;
        remainingSize := remainingSize - chunkSize;
        if chunkCount >= 256 {
          return RangeError, parts;
        }
        LastChunkEntries(curPage.entryNum, chunkSize);
        var dataChunk := data[offset..offset + chunkSize];
        ghost var before := parts;
        PutItem(Data(ns, key, BLOB_DATA, chunkCount, dataChunk));
        parts := parts + [dataChunk];
        ChunkAdded(old(Items()).value, ns, key, before, data, offset, chunkSize);
        chunkCount := chunkCount + 1;
        assert remainingSize == 0 && tailroom - chunkSize >= 32 ==> curPage.entryNum < MAX_ENTRIES;
        if remainingSize > 0 || tailroom - chunkSize < 32 {
          var ok := CreateNewPage();
          if !ok {
            return InsufficientSizeError, parts;
          }
        }
        offset := offset + chunkSize;
        if remainingSize == 0 {
          if chunkCount >= 256 {
            return RangeError, parts;
          }
          assert data[..offset] == data;
          PutItem(Index(ns, key, |data|, chunkCount, 0));
          BlobComplete(old(Items()).value, ns, key, parts);
          BlobItemsAre(ns, key, parts);
          return Ok, parts;
        }
      }
    }

    /** Page.write_varlen_data. `isString` tells the string encoding from the binary ones. */
    method WriteVarlenData(key: bytes, data: bytes, isString: bool, nsIndex: nat) returns (o: Outcome)
      requires Valid() && Items().Some? && ValidKey(key)
      requires isString ==> data != [] && data[|data| - 1] == 0
      modifies this`size, this`pageNum, this`pages, this`curPage, curPage
      ensures Valid() && (curPage == old(curPage) || fresh(curPage))
      ensures o == InputError <==> |data| > 1984 && (version == VERSION1 || isString)
      ensures o == PageFullError <==>
        && o != InputError
        && (old(curPage.entryNum) >= 126
           || ((isString || version == VERSION1) && old(curPage.entryNum) + 1 + (|data| + 31) / 32 >= 126))
      ensures o == PageFullError <==>
        o != InputError && PageTooFull(version, old(curPage.entryNum), VarlenValue(data, isString))
      ensures o == InputError || o == PageFullError ==> size == old(size)
      ensures o != InputError && o != PageFullError ==>
        var pagesOn := PagesOn(version, nsIndex, old(curPage.entryNum), VarlenValue(data, isString));
        && (o == InsufficientSizeError <==> old(size) < PAGE_SIZE * pagesOn)
        && (o != InsufficientSizeError ==> size == old(size) - PAGE_SIZE * pagesOn)
        && (o != InsufficientSizeError ==>
              (o == RangeError <==> OutOfRange(version, nsIndex, old(curPage.entryNum), VarlenValue(data, isString))))
      ensures o == PageFullError ==> Items() == old(Items()) && curPage == old(curPage) && size == old(size)
      ensures o == Ok ==>
        curPage.entryNum == EntriesAfter(version, old(curPage.entryNum), VarlenValue(data, isString))
      // A fresh page is never too full.
      ensures o == PageFullError ==> old(curPage.entryNum) > 0
      ensures o == Ok ==> nsIndex < 256
      ensures o == Ok && (isString || version == VERSION1) ==>
        DataBytes(crc, curPage.Entries(old(curPage.entryNum)), nsIndex,
                  if isString then 0x21 else 0x41, 0xFF, key, data)
      ensures o == Ok ==> AddsRecord(old(Items()).value, Items(), Record(nsIndex, key, VarlenValue(data, isString)))
    {
      hide Nvs.Valid, Nvs.Items, Join, AddsRecord, DataBytes, Encode, Page.Entries;
      var datalen := |data|;
      if datalen > MAX_OLD_BLOB_SIZE && (version == VERSION1 || isString) {
        return InputError;
      }
      var dataEntryCount := EntriesFor(datalen);
      var totalEntryCount := dataEntryCount + 1;
      var multipage := version == VERSION2 && !isString;
      if curPage.entryNum >= MAX_ENTRIES {
        return PageFullError;
      } else if curPage.entryNum + totalEntryCount >= MAX_ENTRIES && !multipage {
        return PageFullError;
      }
      if nsIndex >= 256 {
        return RangeError;
      }
      ghost var before := Items().value;
      if multipage {
        ghost var parts;
        o, parts := WriteVarlenBinaryData(nsIndex, key, data);
        if o == Ok {
          AddsBlob(before, nsIndex, key, parts);
        }
      } else {
        var i := Data(nsIndex, key, if isString then SZ else BLOB, CHUNK_ANY, data);
        PutItem(i);
        AddsOne(before, i, Record(nsIndex, key, VarlenValue(data, isString)));
        return Ok;
      }
    }

    /** NVS.write_namespace: later entries belong to the namespace it opens. */
    method WriteNamespace(key: bytes) returns (o: Outcome)
      requires Valid() && Records().Some? && ValidKey(key)
      modifies this`size, this`pageNum, this`pages, this`curPage, this`namespaceIdx, curPage
      ensures Valid() && (curPage == old(curPage) || fresh(curPage))
      ensures namespaceIdx == old(namespaceIdx) + 1
      ensures o in {Ok, InsufficientSizeError, RangeError}
      ensures o == InsufficientSizeError <==> old(curPage.entryNum) >= MAX_ENTRIES && old(size) == 0
      ensures o == RangeError <==> o != InsufficientSizeError && namespaceIdx >= 256
      ensures o == Ok ==> size == old(size) - if old(curPage.entryNum) >= MAX_ENTRIES then PAGE_SIZE else 0
      ensures o == Ok ==>
        curPage.entryNum == 1 + if old(curPage.entryNum) >= MAX_ENTRIES then 0 else old(curPage.entryNum)
      ensures o == Ok ==> namespaceIdx < 256
      ensures o == Ok ==> Records() == Some(old(Records()).value + [Record(0, key, Num(U8, namespaceIdx))])
    {
      hide Nvs.Valid, Nvs.Items, Join, AddsRecord;
      ghost var before := Items().value;
      namespaceIdx := namespaceIdx + 1;
      o := WritePrimitiveData(key, namespaceIdx, U8, 0);
      if o == PageFullError {
        var ok := CreateNewPage();
        if !ok {
          return InsufficientSizeError;
        }
        o := WritePrimitiveData(key, namespaceIdx, U8, 0);
      }
      if o == Ok {
        RecordAdded(before, Items(), Record(0, key, Num(U8, namespaceIdx)));
      }
    }

    /** NVS.write_entry, on a value already brought into its binary form. */
    method WriteEntry(key: bytes, value: Value) returns (o: Outcome)
      requires Valid() && Records().Some? && ValidKey(key)
      modifies this`size, this`pageNum, this`pages, this`curPage, curPage
      ensures Valid() && (curPage == old(curPage) || fresh(curPage))
      // The one retry on a fresh page never raises page-full again.
      ensures o != PageFullError
      ensures o == InputError <==> TooLong(version, value)
      ensures o == InsufficientSizeError <==>
        o != InputError && old(size) < PAGE_SIZE * PagesNeeded(version, namespaceIdx, old(curPage.entryNum), value)
      ensures o != InputError && o != InsufficientSizeError ==>
        (o == RangeError <==>
           OutOfRange(version, namespaceIdx, StartOn(version, old(curPage.entryNum), value), value))
      ensures o == Ok ==>
        size == old(size) - PAGE_SIZE * PagesNeeded(version, namespaceIdx, old(curPage.entryNum), value)
      ensures o == Ok ==> curPage.entryNum == EntriesAfter(version, old(curPage.entryNum), value)
      ensures o == Ok ==> namespaceIdx < 256
      ensures o == Ok ==> Records() == Some(old(Records()).value + [Record(namespaceIdx, key, value)])
    {
      hide Nvs.Valid, Nvs.Items, Join, AddsRecord;
      ghost var before := Items().value;
      if value.Num? {
        o := WritePrimitiveData(key, value.num, value.prim, namespaceIdx);
        if o == PageFullError {
          var ok := CreateNewPage();
          if !ok {
            return InsufficientSizeError;
          }
          o := WritePrimitiveData(key, value.num, value.prim, namespaceIdx);
        }
      } else {
        var data := if value.Str? then value.text + [0] else value.data;
        assert VarlenValue(data, value.Str?) == value by {
          if value.Str? { assert data[..|data| - 1] == value.text; }
        }
        o := WriteVarlenData(key, data, value.Str?, namespaceIdx);
        if o == PageFullError {
          var ok := CreateNewPage();
          if !ok {
            return InsufficientSizeError;
          }
          o := WriteVarlenData(key, data, value.Str?, namespaceIdx);
        }
      }
      if o == Ok {
        RecordAdded(before, Items(), Record(namespaceIdx, key, value));
      }
    }

    /** NVS.__exit__ after a clean run: pages for the remaining size, a reserved page, and the image. */
    method Finish() returns (image: bytes)
      requires Valid() && Records().Some?
      modifies this`size, this`pageNum, this`pages, this`curPage
      ensures |image| == inputSize + PAGE_SIZE
      ensures ReadImage(crc, version, image) == old(Records())
      ensures forall k :: 0 <= k < inputSize / PAGE_SIZE ==> GoodBytes(crc, version, image, k)
      ensures forall i :: inputSize <= i < |image| ==> image[i] == 0xFF
    {
      hide Nvs.GoodPage, Page.Area, ItemsOf, Join, ReadPages, PageAt, GoodBytes;
      while true
        invariant Valid() && Items() == old(Items())
        decreases size
      {
        var ok := CreateNewPage();
        if !ok {
          break;
        }
      }
      var data := GetBinaryData();
      image := data + BlankPage();
      ImageBytes(data);
      ReadReserved(crc, version, data, |pages|);
      assert |image| / PAGE_SIZE == |pages| + 1;
    }

    method GetBinaryData() returns (data: bytes)
      requires Valid()
      ensures |data| == PAGE_SIZE * |pages|
      ensures ReadPages(crc, version, data, |pages|) == Items()
      ensures forall k :: 0 <= k < |pages| ==> PageAt(data, k) == pages[k].pageBuf
    {
      hide PageHeader, WrittenArea, ItemReader, ReadPage, Marks, ItemsOf, AreasOf, PageAt;
      data := [];
      var bufs: seq<PageBuf> := [];
      for k := 0 to |pages|
        invariant |bufs| == k && data == Concat(bufs)
        invariant forall j :: 0 <= j < k ==> bufs[j] == pages[j].pageBuf
        invariant forall j :: 0 <= j < k ==> PageHolds(crc, version, j, bufs[j], pages[j].Area())
      {
        assert GoodPage(pages[k], k);
        ReadOnePage(crc, version, k, pages[k].entryNum, pages[k].pageBuf);
        bufs := bufs + [pages[k].pageBuf];
        data := data + pages[k].pageBuf;
        assert bufs[..k] == bufs[..|bufs| - 1];
      }
      ReadGoodPages(crc, version, bufs, AreasOf(pages));
      ConcatPages(bufs);
    }

    // The image, byte by byte.
    lemma ImageBytes(data: bytes)
      requires Valid() && |data| == PAGE_SIZE * |pages|
      requires forall k :: 0 <= k < |pages| ==> PageAt(data, k) == pages[k].pageBuf
      ensures forall k :: 0 <= k < |pages| ==> GoodBytes(crc, version, data + BlankPage(), k)
      ensures forall i :: |data| <= i < |data + BlankPage()| ==> (data + BlankPage())[i] == 0xFF
    {
      hide PageBytes, PageAt, PageOk;
      PageAdded(data, BlankPage(), |pages|);
      forall k | 0 <= k < |pages| ensures GoodBytes(crc, version, data + BlankPage(), k) {
        assert GoodPage(pages[k], k);
        OkBytes(crc, version, k, pages[k].entryNum, pages[k].pageBuf);
      }
    }
  }

  // ----- whole runs -----

  /** A row of the input: a namespace to open, or a key-value pair to store in it. */
  datatype Row = Namespace(key: bytes) | Entry(key: bytes, value: Value)

  function NamespacesIn(rows: seq<Row>): nat {
    if rows == [] then 0
    else NamespacesIn(rows[..|rows| - 1]) + if rows[|rows| - 1].Namespace? then 1 else 0
  }

  function RecordFor(row: Row, idx: nat): Record {
    match row
    case Namespace(key) => Record(0, key, Num(U8, idx))
    case Entry(key, value) => Record(idx, key, value)
  }

  /** What a reader should find after these rows. */
  function RecordsOf(rows: seq<Row>): (r: seq<Record>)
    ensures |r| == |rows|
  {
    if rows == [] then []
    else RecordsOf(rows[..|rows| - 1]) + [RecordFor(rows[|rows| - 1], NamespacesIn(rows))]
  }

  /** Where a run stands: namespaces opened, entries on the current page, and pages made. */
  datatype Layout = Layout(ns: nat, entryNum: nat, pages: nat)

  /** What a row comes to if there are pages enough, and where it leaves off. */
  function RowPlan(version: Version, at: Layout, row: Row): (r: (Outcome, Layout))
    ensures r.0 in {Ok, InputError, RangeError} && r.1.pages >= at.pages
  {
    match row
    case Namespace(_) =>
      var full := at.entryNum >= MAX_ENTRIES;
      var next := Layout(at.ns + 1, if full then 1 else at.entryNum + 1, at.pages + if full then 1 else 0);
      (if next.ns >= 256 then RangeError else Ok, next)
    case Entry(_, value) =>
      if TooLong(version, value) then (InputError, at)
      else
        var pages := at.pages + PagesNeeded(version, at.ns, at.entryNum, value);
        if OutOfRange(version, at.ns, StartOn(version, at.entryNum, value), value) then
          (RangeError, Layout(at.ns, at.entryNum, pages))
        else (Ok, Layout(at.ns, EntriesAfter(version, at.entryNum, value), pages))
  }

  /** The rows up to the first that cannot be written, with pages enough. */
  function Plan(version: Version, rows: seq<Row>): (r: (Outcome, Layout))
    ensures r.1.pages > 0
  {
    if rows == [] then (Ok, Layout(0, 0, 1))
    else
      var before := Plan(version, rows[..|rows| - 1]);
      if before.0 != Ok then before else RowPlan(version, before.1, rows[|rows| - 1])
  }

  /** And with so many pages: too few of them are noticed before the range of a field, and after a wrong length. */
  function RowFate(version: Version, limit: nat, at: Layout, row: Row): (Outcome, Layout) {
    var plan := RowPlan(version, at, row);
    if plan.0 != InputError && plan.1.pages > limit then (InsufficientSizeError, at) else plan
  }

  function Fate(version: Version, limit: nat, rows: seq<Row>): (Outcome, Layout) {
    if rows == [] then (Ok, Layout(0, 0, 1))
    else
      var before := Fate(version, limit, rows[..|rows| - 1]);
      if before.0 != Ok then before else RowFate(version, limit, before.1, rows[|rows| - 1])
  }

  /** All rows are written exactly when each can be, and the pages that they need are there. */
  lemma {:induction false} EnoughExactly(version: Version, limit: nat, rows: seq<Row>)
    requires limit > 0
    ensures Fate(version, limit, rows).0 == Ok <==>
      Plan(version, rows).0 == Ok && Plan(version, rows).1.pages <= limit
    ensures Fate(version, limit, rows).0 == Ok ==> Fate(version, limit, rows) == Plan(version, rows)
    ensures Fate(version, limit, rows).0 !in {Ok, InsufficientSizeError} ==>
      Fate(version, limit, rows) == Plan(version, rows)
    ensures Fate(version, limit, rows).0 == InsufficientSizeError ==> Plan(version, rows).1.pages > limit
    ensures Plan(version, rows).0 in {Ok, InputError, RangeError}
    decreases |rows|
  {
    if rows != [] {
      EnoughExactly(version, limit, rows[..|rows| - 1]);
    }
  }

  // A run that has stopped stays so.
  lemma {:induction false} FateStops(version: Version, limit: nat, rows: seq<Row>, k: nat)
    requires k <= |rows| && Fate(version, limit, rows[..k]).0 != Ok
    ensures Fate(version, limit, rows) == Fate(version, limit, rows[..k])
    decreases |rows|
  {
    if k < |rows| {
      assert rows[..|rows| - 1][..k] == rows[..k];
      FateStops(version, limit, rows[..|rows| - 1], k);
    } else {
      assert rows[..k] == rows;
    }
  }

  predicate NeverInRange(version: Version, value: Value) {
    || (value.Num? && !value.prim.InRange(value.num))
    || (Splits(version, value) && |value.data| > MAX_NEW_BLOB_SIZE * 254)
  }

  /** Pages that a row may need. */
  function RowPages(version: Version, row: Row): nat {
    1 + if row.Entry? && Splits(version, row.value) then 1 + CeilDiv(|row.value.data|, MAX_NEW_BLOB_SIZE) else 0
  }

  function AllPages(version: Version, rows: seq<Row>): (n: nat)
    ensures n > 0
  {
    if rows == [] then 1
    else AllPages(version, rows[..|rows| - 1]) + RowPages(version, rows[|rows| - 1])
  }

  lemma NeededForRow(version: Version, at: Layout, row: Row)
    ensures RowPlan(version, at, row).1.pages <= at.pages + RowPages(version, row)
    ensures RowPlan(version, at, row).0 == InputError ==> row.Entry? && TooLong(version, row.value)
    ensures RowPlan(version, at, row).0 == RangeError ==>
      RowPlan(version, at, row).1.ns >= 256 || (row.Entry? && NeverInRange(version, row.value))
  {
    if row.Entry? && row.value.Blob? {
      ChunkCountBound(StartOn(version, at.entryNum, row.value), |row.value.data|);
    }
  }

  /** An upper bound for the pages, and the rows that can be at fault. */
  lemma {:induction false} PlanBound(version: Version, rows: seq<Row>)
    ensures Plan(version, rows).1.pages <= AllPages(version, rows)
    ensures Plan(version, rows).0 == Ok ==> Plan(version, rows).1.ns == NamespacesIn(rows)
    ensures Plan(version, rows).0 == InputError ==>
      exists k :: 0 <= k < |rows| && rows[k].Entry? && TooLong(version, rows[k].value)
    ensures Plan(version, rows).0 == RangeError ==> exists k :: 0 <= k < |rows| && RowOutOfRange(version, rows, k)
    decreases |rows|
  {
    hide RowPlan, RowPages, TooLong, NeverInRange;
    if rows != [] {
      var n := |rows| - 1;
      var before := rows[..n];
      PlanBound(version, before);
      if Plan(version, before).0 != Ok {
        FaultIn(version, rows);
      } else {
        NeededForRow(version, Plan(version, before).1, rows[n]);
        RowPlanNamespaces(version, Plan(version, before).1, rows[n]);
        assert rows[..n + 1] == rows;
        if Plan(version, rows).0 == RangeError {
          assert RowOutOfRange(version, rows, n);
        }
      }
    }
  }

  lemma RowPlanNamespaces(version: Version, at: Layout, row: Row)
    ensures RowPlan(version, at, row).1.ns == at.ns + if row.Namespace? then 1 else 0
  {}

  // A row at fault among the first ones is one of all.
  lemma FaultIn(version: Version, rows: seq<Row>)
    requires rows != []
    ensures
      var before := rows[..|rows| - 1];
      && ((exists k :: 0 <= k < |before| && before[k].Entry? && TooLong(version, before[k].value)) ==>
            exists k :: 0 <= k < |rows| && rows[k].Entry? && TooLong(version, rows[k].value))
      && ((exists k :: 0 <= k < |before| && RowOutOfRange(version, before, k)) ==>
            exists k :: 0 <= k < |rows| && RowOutOfRange(version, rows, k))
  {
    var before := rows[..|rows| - 1];
    forall k | 0 <= k < |before| ensures before[k] == rows[k] && before[..k + 1] == rows[..k + 1] {}
    if k :| 0 <= k < |before| && RowOutOfRange(version, before, k) {
      assert RowOutOfRange(version, rows, k);
    }
  }

  // One row more.
  lemma NextRow(version: Version, limit: nat, rows: seq<Row>, k: nat)
    requires k < |rows|
    ensures Fate(version, limit, rows[..k]).0 == Ok ==>
      Fate(version, limit, rows[..k + 1]) == RowFate(version, limit, Fate(version, limit, rows[..k]).1, rows[k])
    ensures NamespacesIn(rows[..k + 1]) == NamespacesIn(rows[..k]) + if rows[k].Namespace? then 1 else 0
    ensures RecordsOf(rows[..k + 1]) == RecordsOf(rows[..k]) + [RecordFor(rows[k], NamespacesIn(rows[..k + 1]))]
  {
    assert rows[..k + 1][..k] == rows[..k];
  }

  predicate RowOutOfRange(version: Version, rows: seq<Row>, k: nat)
    requires k < |rows|
  {
    NamespacesIn(rows[..k + 1]) >= 256 || (rows[k].Entry? && NeverInRange(version, rows[k].value))
  }

  // One row, as write_entry of the module sorts it.
  method WriteRow(nvs: Nvs, row: Row, ghost at: Layout) returns (o: Outcome)
    requires ValidKey(row.key)
    requires nvs.Valid() && nvs.Records().Some? && nvs.StandsAt(at)
    modifies nvs, nvs.curPage
    ensures nvs.Valid() && (nvs.curPage == old(nvs.curPage) || fresh(nvs.curPage))
    ensures o == RowFate(nvs.version, nvs.inputSize / PAGE_SIZE, at, row).0
    ensures o == Ok ==>
      var next := RowPlan(nvs.version, at, row).1;
      nvs.StandsAt(next) && nvs.Records() == Some(old(nvs.Records()).value + [RecordFor(row, next.ns)])
  {
    hide Nvs.Valid, Nvs.Records, TooLong, PagesNeeded, OutOfRange, StartOn, EntriesAfter, NamespacesIn, RecordsOf;
    nvs.PagesLeft(at, if row.Entry? then PagesNeeded(nvs.version, at.ns, at.entryNum, row.value) else 0);
    match row {
      case Namespace(key) => o := nvs.WriteNamespace(key);
      case Entry(key, value) => o := nvs.WriteEntry(key, value);
    }
  }

  lemma NoRows(version: Version, limit: nat)
    ensures RecordsOf([]) == [] && NamespacesIn([]) == 0 && Fate(version, limit, []) == (Ok, Layout(0, 0, 1))
  {}

  /** What a run comes to, by the plan, by an upper bound for its pages, and by the rows at fault. */
  lemma FateSummary(version: Version, inputSize: nat, rows: seq<Row>)
    requires inputSize >= PAGE_SIZE && inputSize % PAGE_SIZE == 0
    ensures
      var o := Fate(version, inputSize / PAGE_SIZE, rows).0;
      && o != PageFullError
      && (o == Ok <==> Plan(version, rows).0 == Ok && PAGE_SIZE * Plan(version, rows).1.pages <= inputSize)
      && (o == InputError ==> exists k :: 0 <= k < |rows| && rows[k].Entry? && TooLong(version, rows[k].value))
      && (o == RangeError ==> exists k :: 0 <= k < |rows| && RowOutOfRange(version, rows, k))
      && (inputSize >= PAGE_SIZE * AllPages(version, rows) ==> o != InsufficientSizeError)
  {
    hide Fate, Plan, AllPages, TooLong, RowOutOfRange;
    EnoughExactly(version, inputSize / PAGE_SIZE, rows);
    PlanBound(version, rows);
  }

  /** The body of the `with nvs_open` block for a whole input, and its exit. */
  method GeneratePartition(crc: Crc, version: Version, inputSize: nat, rows: seq<Row>)
    returns (o: Outcome, image: bytes)
    requires inputSize >= PAGE_SIZE && inputSize % PAGE_SIZE == 0
    requires forall k :: 0 <= k < |rows| ==> ValidKey(rows[k].key)
    ensures o != PageFullError
    ensures o == Fate(version, inputSize / PAGE_SIZE, rows).0
    ensures o == Ok <==> Plan(version, rows).0 == Ok && PAGE_SIZE * Plan(version, rows).1.pages <= inputSize
    ensures o == InputError ==> exists k :: 0 <= k < |rows| && rows[k].Entry? && TooLong(version, rows[k].value)
    ensures o == RangeError ==> exists k :: 0 <= k < |rows| && RowOutOfRange(version, rows, k)
    // a partition with so many pages is large enough
    ensures inputSize >= PAGE_SIZE * AllPages(version, rows) ==> o != InsufficientSizeError
    ensures o == Ok ==> |image| == inputSize + PAGE_SIZE
    ensures o == Ok ==> ReadImage(crc, version, image) == Some(RecordsOf(rows))
    // page by page and byte by byte, and a blank page at the end
    ensures o == Ok ==> forall k :: 0 <= k < inputSize / PAGE_SIZE ==> GoodBytes(crc, version, image, k)
    ensures o == Ok ==> forall i :: inputSize <= i < |image| ==> image[i] == 0xFF
  {
    hide Nvs.Valid, Nvs.Records, ReadImage, TooLong, RowOutOfRange, AllPages, RecordsOf, NamespacesIn, Fate, Plan;
    hide RowPlan, RecordFor;
    ghost var limit := inputSize / PAGE_SIZE;
    FateSummary(version, inputSize, rows);
    NoRows(version, limit);
    var nvs := new Nvs(crc, version, inputSize);
    image := [];
    for k := 0 to |rows|
      invariant nvs.Valid() && fresh(nvs) && fresh(nvs.curPage)
      invariant Fate(version, limit, rows[..k]).0 == Ok && nvs.StandsAt(Fate(version, limit, rows[..k]).1)
      invariant nvs.Records() == Some(RecordsOf(rows[..k])) && nvs.namespaceIdx == NamespacesIn(rows[..k])
    {
      ghost var at := Fate(version, limit, rows[..k]).1;
      NextRow(version, limit, rows, k);
      RowPlanNamespaces(version, at, rows[k]);
      o := WriteRow(nvs, rows[k], at);
      if o != Ok {
        FateStops(version, limit, rows, k + 1);
        return;
      }
    }
    assert rows[..|rows|] == rows;
    image := nvs.Finish();
    o := Ok;
  }

  lemma {:induction false} RecordAt(rows: seq<Row>, k: nat)
    requires k < |rows|
    ensures RecordsOf(rows)[k] == RecordFor(rows[k], NamespacesIn(rows[..k + 1]))
    decreases |rows|
  {
    if k == |rows| - 1 {
      assert rows[..k + 1] == rows;
    } else {
      RecordAt(rows[..|rows| - 1], k);
      assert rows[..|rows| - 1][..k + 1] == rows[..k + 1];
    }
  }

  lemma {:induction false} NamespacesGrow(rows: seq<Row>, k: nat)
    requires k < |rows| && rows[0].Namespace?
    ensures NamespacesIn(rows[..k + 1]) > 0
  {
    if k > 0 {
      NamespacesGrow(rows, k - 1);
      assert rows[..k + 1][..k] == rows[..k];
    }
  }

  /** Index 0 is the namespace of namespaces: records of it name a namespace, all others are entries. */
  function RowsOf(records: seq<Record>): (r: seq<Row>)
    ensures |r| == |records|
  {
    seq(|records|, k requires 0 <= k < |records| =>
      if records[k].ns == 0 then Namespace(records[k].key) else Entry(records[k].key, records[k].value))
  }

  /** The rows come back exactly when no entry precedes the first namespace. */
  lemma RowsComeBack(rows: seq<Row>)
    ensures RowsOf(RecordsOf(rows)) == rows <==> rows == [] || rows[0].Namespace?
  {
    if rows != [] {
      if rows[0].Namespace? {
        forall k | 0 <= k < |rows|
          ensures RowsOf(RecordsOf(rows))[k] == rows[k]
        {
          RecordAt(rows, k);
          NamespacesGrow(rows, k);
        }
      } else {
        RecordAt(rows, 0);
        assert rows[..1] == [rows[0]] && rows[..1][..0] == [];
        assert RowsOf(RecordsOf(rows))[0] != rows[0];
      }
    }
  }

  /** Whatever image a reader finds these rows in: every key has at most 16 bytes and no zero byte. */
  lemma KeysComeBack(crc: Crc, version: Version, image: bytes, rows: seq<Row>)
    requires ReadImage(crc, version, image) == Some(RecordsOf(rows))
    ensures forall k :: 0 <= k < |rows| ==> ValidKey(rows[k].key)
  {
    ImageKeys(crc, version, image);
    forall k | 0 <= k < |rows| ensures ValidKey(rows[k].key) {
      RecordAt(rows, k);
      assert ValidKey(RecordsOf(rows)[k].key);
    }
  }
}
