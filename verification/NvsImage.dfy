// Pages and whole partitions: the bitmap, the page header, and reading an image back.

module NvsImage {
  import opened Bytes
  import opened NvsFormat

  type Version = v: byte | v == 0xFF || v == 0xFE witness 0xFE
  const VERSION1: Version := 0xFF
  const VERSION2: Version := 0xFE

  // ----- bitmap -----

  function Pow2(k: nat): nat
    requires k < 8
  {
    match k
    case 0 => 1
    case 1 => 2
    case 2 => 4
    case 3 => 8
    case 4 => 16
    case 5 => 32
    case 6 => 64
    case 7 => 128
  }

  function ShiftRight(b: byte, k: nat): byte
    requires k < 8
  {
    match k
    case 0 => b
    case 1 => b / 2
    case 2 => b / 4
    case 3 => b / 8
    case 4 => b / 16
    case 5 => b / 32
    case 6 => b / 64
    case 7 => b / 128
  }

  /** b & ~(1 << k) */
  function ClearBit(b: byte, k: nat): (r: byte)
    requires k < 8
  {
    if ShiftRight(b, k) % 2 == 1 then b - Pow2(k) else b
  }

  // The two-bit state of entry i, in byte i / 4 from bit 2 * (i % 4) on.
  function EntryState(bitmap: bytes, i: nat): nat
    requires i < 4 * |bitmap|
  {
    ShiftRight(bitmap[i / 4], 2 * (i % 4)) % 4
  }

  const ERASED := 3
  const WRITTEN := 2

  /** Exactly the first n entries are marked as written. */
  predicate Marks(bitmap: bytes, n: nat) {
    |bitmap| == 32 && forall i :: 0 <= i < 128 ==> EntryState(bitmap, i) == if i < n then WRITTEN else ERASED
  }

  // A byte and its four two-bit digits.
  ghost predicate HasDigits(b: byte, d0: nat, d1: nat, d2: nat, d3: nat) {
    && d0 < 4 && d1 < 4 && d2 < 4 && d3 < 4
    && b == d0 + 4 * d1 + 16 * d2 + 64 * d3
  }

  lemma Digits(b: byte, d0: nat, d1: nat, d2: nat, d3: nat)
    requires HasDigits(b, d0, d1, d2, d3)
    ensures ShiftRight(b, 0) % 4 == d0 && ShiftRight(b, 2) % 4 == d1
    ensures ShiftRight(b, 4) % 4 == d2 && ShiftRight(b, 6) % 4 == d3
  {
    assert b / 4 == d1 + 4 * d2 + 16 * d3;
    assert b / 16 == d2 + 4 * d3;
    assert b / 64 == d3;
  }

  lemma DigitsExist(b: byte) returns (d0: nat, d1: nat, d2: nat, d3: nat)
    ensures HasDigits(b, d0, d1, d2, d3)
  {
    var q := b / 4;
    d0, d1 := b % 4, q % 4;
    d2, d3 := q / 4 % 4, q / 4 / 4;
    assert b == d0 + 4 * q && q == d1 + 4 * (d2 + 4 * d3);
  }

  lemma ClearPair(b: byte, j: nat, i: nat)
    requires i < 4 && j < 4 && ShiftRight(b, 2 * j) % 4 == ERASED
    ensures ShiftRight(ClearBit(b, 2 * j), 2 * i) % 4 == if i == j then WRITTEN else ShiftRight(b, 2 * i) % 4
  {
    hide ShiftRight;
    var d0, d1, d2, d3 := DigitsExist(b);
    Digits(b, d0, d1, d2, d3);
    var r := ClearBit(b, 2 * j);
    assert i in {0, 1, 2, 3};
    match j
    case 0 => Digits(r, d0 - 1, d1, d2, d3);
    case 1 => Digits(r, d0, d1 - 1, d2, d3);
    case 2 => Digits(r, d0, d1, d2 - 1, d3);
    case 3 => Digits(r, d0, d1, d2, d3 - 1);
  }

  lemma ErasedBitmap(bitmap: bytes)
    requires bitmap == Repeat(255, 32)
    ensures Marks(bitmap, 0)
  {}

  lemma MarkNext(bitmap: bytes, n: nat)
    requires n < 128 && Marks(bitmap, n)
    ensures Marks(bitmap[n / 4 := ClearBit(bitmap[n / 4], 2 * (n % 4))], n + 1)
  {
    var b := bitmap[n / 4];
    var after := bitmap[n / 4 := ClearBit(b, 2 * (n % 4))];
    forall i | 0 <= i < 128
      ensures EntryState(after, i) == if i < n + 1 then WRITTEN else ERASED
    {
      assert EntryState(bitmap, i) == if i < n then WRITTEN else ERASED;
      if i / 4 == n / 4 {
        assert EntryState(bitmap, n) == ERASED;
        ClearPair(b, n % 4, i % 4);
      }
    }
  }

  /** A byte of the bitmap, when so many of its four entries are written: the two bits of each are 10, from the low end
      on. */
  function MarkByte(written: int): byte {
    if written <= 0 then 0xFF
    else if written == 1 then 0xFE
    else if written == 2 then 0xFA
    else if written == 3 then 0xEA
    else 0xAA
  }

  predicate BitmapBytes(bitmap: bytes, n: nat) {
    |bitmap| == 32 && forall j :: 0 <= j < 32 ==> bitmap[j] == MarkByte(n - 4 * j)
  }

  lemma MarkedBytes(bitmap: bytes, n: nat)
    requires Marks(bitmap, n)
    ensures BitmapBytes(bitmap, n)
  {
    forall j: nat | j < 32 ensures bitmap[j] == MarkByte(n - 4 * j) {
      var b := bitmap[j];
      var d0, d1, d2, d3 := DigitsExist(b);
      Digits(b, d0, d1, d2, d3);
      assert EntryState(bitmap, 4 * j) == d0 && EntryState(bitmap, 4 * j + 1) == d1;
      assert EntryState(bitmap, 4 * j + 2) == d2 && EntryState(bitmap, 4 * j + 3) == d3;
    }
  }

  function CountWritten(bitmap: bytes, from: nat): (n: nat)
    requires |bitmap| == 32 && from <= MAX_ENTRIES
    ensures n <= MAX_ENTRIES
    decreases MAX_ENTRIES - from
  {
    if from < MAX_ENTRIES && EntryState(bitmap, from) == WRITTEN then CountWritten(bitmap, from + 1) else from
  }

  lemma {:induction false} CountMarked(bitmap: bytes, n: nat, from: nat)
    requires from <= n <= MAX_ENTRIES && Marks(bitmap, n)
    ensures CountWritten(bitmap, from) == n
    decreases n - from
  {
    assert from < 128 && EntryState(bitmap, from) == if from < n then WRITTEN else ERASED;
    if from < n {
      CountMarked(bitmap, n, from + 1);
    }
  }

  // ----- a page -----

  function PageHeader(crc: Crc, version: byte, number: nat): (h: bytes)
    ensures |h| == 32
  {
    var state: bytes := [0xFE, 0xFF, 0xFF, 0xFF];
    var covered := PutLe(number, 4) + [version] + Repeat(255, 19);
    state + covered + PutLe(crc(covered), 4)
  }

  /** How a page of an image starts, byte by byte: state active, number, version, CRC. */
  ghost predicate StartsPage(crc: Crc, version: byte, number: nat, page: bytes) {
    && |page| >= 32
    && page[..4] == [0xFE, 0xFF, 0xFF, 0xFF]
    && GetLe(page[4..8]) == number % 0x1_0000_0000
    && page[8] == version
    && (forall i :: 9 <= i < 28 ==> page[i] == 0xFF)
    && page[28..32] == PutLe(crc(page[4..28]), 4)
  }

  lemma PageHeaderBytes(crc: Crc, version: byte, number: nat, page: bytes)
    requires |page| >= 32 && page[..32] == PageHeader(crc, version, number)
    ensures StartsPage(crc, version, number, page)
  {
    var h := PageHeader(crc, version, number);
    var covered := PutLe(number, 4) + [version] + Repeat(255, 19);
    assert h == [0xFE, 0xFF, 0xFF, 0xFF] + covered + PutLe(crc(covered), 4);
    hide PageHeader, PutLe, GetLe;
    assert covered[..4] == PutLe(number, 4) && covered[4] == version;
    assert h[4..28] == covered && h[28..32] == PutLe(crc(covered), 4) && h[..4] == [0xFE, 0xFF, 0xFF, 0xFF];
    SliceOfSlice(page, 0, 32, 0, 4);
    SliceOfSlice(page, 0, 32, 4, 28);
    SliceOfSlice(page, 0, 32, 28, 32);
    assert page[..4] == h[..4] && page[4..28] == h[4..28] && page[28..32] == h[28..32];
    assert page[4..8] == covered[..4] && page[8] == covered[4];
    forall i | 9 <= i < 28 ensures page[i] == 0xFF {
      assert page[i] == page[4..28][i - 4];
    }
    GetPut(number, 4);
    PowersOf256();
  }

  /** A page, byte by byte: its start, the bitmap of n written entries, and bytes 255 after these. */
  ghost predicate PageBytes(crc: Crc, version: byte, number: nat, n: nat, page: bytes) {
    && |page| == 4096 && n <= 126
    && StartsPage(crc, version, number, page)
    && BitmapBytes(page[32..64], n)
    && forall i :: 64 + 32 * n <= i < 4096 ==> page[i] == 0xFF
  }

  /** Page k of an image. */
  function PageAt(image: bytes, k: nat): bytes {
    if 4096 * k + 4096 <= |image| then image[4096 * k..4096 * k + 4096] else []
  }

  ghost predicate GoodBytes(crc: Crc, version: byte, image: bytes, k: nat) {
    exists n :: PageBytes(crc, version, k, n, PageAt(image, k))
  }

  // One page more leaves those before it.
  lemma PageAdded(data: bytes, page: bytes, n: nat)
    requires |data| == 4096 * n && |page| == 4096
    ensures PageAt(data + page, n) == page
    ensures forall k: nat :: k < n ==> PageAt(data + page, k) == PageAt(data, k)
  {}

  lemma OkBytes(crc: Crc, version: byte, number: nat, n: nat, buf: bytes)
    requires PageOk(crc, version, number, n, buf)
    ensures PageBytes(crc, version, number, n, buf)
  {
    hide PageHeader, Marks;
    PageHeaderBytes(crc, version, number, buf);
    MarkedBytes(buf[32..64], n);
  }

  function BlankPage(): (p: bytes)
    ensures |p| == PAGE_SIZE
  {
    Repeat(255, PAGE_SIZE)
  }

  /** A page buffer with n written entries: header, bitmap, and nothing but erased bytes after them. */
  predicate PageOk(crc: Crc, version: byte, number: nat, n: nat, buf: bytes) {
    && n <= MAX_ENTRIES && |buf| == PAGE_SIZE
    && buf[..32] == PageHeader(crc, version, number)
    && Marks(buf[32..64], n)
    && forall i :: 64 + 32 * n <= i < PAGE_SIZE ==> buf[i] == 255
  }

  function WrittenArea(buf: bytes, n: nat): bytes
    requires |buf| == PAGE_SIZE && n <= MAX_ENTRIES
  {
    buf[64..64 + 32 * n]
  }

  // ----- the reference reader for a partition -----

  function Both(a: Option<seq<Item>>, b: Option<seq<Item>>): Option<seq<Item>> {
    if a.Some? && b.Some? then Some(a.value + b.value) else None
  }

  function ReadPage(crc: Crc, version: byte, number: nat, buf: bytes): Option<seq<Item>>
    requires |buf| == PAGE_SIZE
  {
    if buf == BlankPage() then Some([])
    else if buf[..32] != PageHeader(crc, version, number) then None
    else Walk(ItemReader(crc), WrittenArea(buf, CountWritten(buf[32..64], 0)))
  }

  /** The items of the n pages of an image, in page order. */
  function ReadPages(crc: Crc, version: byte, image: bytes, n: nat): Option<seq<Item>>
    requires |image| == PAGE_SIZE * n
  {
    if n == 0 then Some([])
    else
      var last := PAGE_SIZE * (n - 1);
      Both(ReadPages(crc, version, image[..last], n - 1), ReadPage(crc, version, n - 1, image[last..]))
  }

  function ReadImage(crc: Crc, version: byte, image: bytes): Option<seq<Record>> {
    if |image| % PAGE_SIZE != 0 then None
    else
      match ReadPages(crc, version, image, |image| / PAGE_SIZE)
      case None => None
      case Some(items) => Join(items, Idle)
  }

  // ----- what the pages hold, by their written areas -----

  function ItemsOf(crc: Crc, areas: seq<bytes>): Option<seq<Item>> {
    if areas == [] then Some([])
    else
      var last := |areas| - 1;
      Both(ItemsOf(crc, areas[..last]), Walk(ItemReader(crc), areas[last]))
  }

  lemma ItemsAfterNewPage(crc: Crc, areas: seq<bytes>)
    ensures ItemsOf(crc, areas + [[]]) == ItemsOf(crc, areas)
  {
    var more := areas + [[]];
    assert more[..|areas|] == areas && Walk(ItemReader(crc), []) == Some([]);
    assert ItemsOf(crc, areas).Some? ==> ItemsOf(crc, areas).value + [] == ItemsOf(crc, areas).value;
  }

  /** One more item at the end of the last page is one more item read. */
  lemma ItemsAfterWrite(crc: Crc, areas: seq<bytes>, i: Item)
    requires areas != [] && ItemsOf(crc, areas).Some? && Encodable(i)
    ensures ItemsOf(crc, areas[|areas| - 1 := areas[|areas| - 1] + Encode(crc, i)])
      == Some(ItemsOf(crc, areas).value + [i])
  {
    var last := |areas| - 1;
    var after := areas[last := areas[last] + Encode(crc, i)];
    assert after[..last] == areas[..last];
    var before, page := ItemsOf(crc, areas[..last]).value, Walk(ItemReader(crc), areas[last]).value;
    WalkEncoded(crc, areas[last], page, i);
    assert before + (page + [i]) == (before + page) + [i];
  }

  type PageBuf = b: bytes | |b| == PAGE_SIZE witness BlankPage()

  function Concat(bufs: seq<PageBuf>): (image: bytes)
    ensures |image| == PAGE_SIZE * |bufs|
  {
    if bufs == [] then [] else Concat(bufs[..|bufs| - 1]) + bufs[|bufs| - 1]
  }

  lemma ReadOnePage(crc: Crc, version: byte, number: nat, n: nat, buf: bytes)
    requires PageOk(crc, version, number, n, buf)
    ensures ReadPage(crc, version, number, buf) == Walk(ItemReader(crc), WrittenArea(buf, n))
  {
    CountMarked(buf[32..64], n, 0);
    assert buf[..32][0] == 0xFE;
  }

  ghost predicate PageHolds(crc: Crc, version: byte, number: nat, buf: PageBuf, area: bytes) {
    ReadPage(crc, version, number, buf) == Walk(ItemReader(crc), area)
  }

  /** Reading an image page by page gives what the written areas of its pages hold. */
  lemma {:induction false} ReadGoodPages(crc: Crc, version: byte, bufs: seq<PageBuf>, areas: seq<bytes>)
    requires |bufs| == |areas|
    requires forall k :: 0 <= k < |bufs| ==> PageHolds(crc, version, k, bufs[k], areas[k])
    ensures ReadPages(crc, version, Concat(bufs), |bufs|) == ItemsOf(crc, areas)
    decreases |bufs|
  {
    if bufs != [] {
      var last := |bufs| - 1;
      ReadGoodPages(crc, version, bufs[..last], areas[..last]);
      assert PageHolds(crc, version, last, bufs[last], areas[last]);
      ReadLastPage(crc, version, Concat(bufs[..last]), last, bufs[last]);
    }
  }

  lemma {:induction false} ConcatPages(bufs: seq<PageBuf>)
    ensures forall k :: 0 <= k < |bufs| ==> PageAt(Concat(bufs), k) == bufs[k]
  {
    if bufs != [] {
      var last := |bufs| - 1;
      ConcatPages(bufs[..last]);
      PageAdded(Concat(bufs[..last]), bufs[last], last);
    }
  }

  lemma ReadLastPage(crc: Crc, version: byte, image: bytes, n: nat, buf: PageBuf)
    requires |image| == PAGE_SIZE * n
    ensures ReadPages(crc, version, image + buf, n + 1)
      == Both(ReadPages(crc, version, image, n), ReadPage(crc, version, n, buf))
  {
    assert (image + buf)[..PAGE_SIZE * n] == image && (image + buf)[PAGE_SIZE * n..] == buf;
  }

  /** The reserved page at the end is blank and holds nothing. */
  lemma ReadReserved(crc: Crc, version: byte, image: bytes, n: nat)
    requires |image| == PAGE_SIZE * n
    ensures ReadPages(crc, version, image + BlankPage(), n + 1) == ReadPages(crc, version, image, n)
  {
    ReadLastPage(crc, version, image, n, BlankPage());
    var r := ReadPages(crc, version, image, n);
    assert r.Some? ==> r.value + [] == r.value;
  }

  // ----- what any image can give -----

  predicate Named(items: seq<Item>) {
    forall k :: 0 <= k < |items| ==> ValidKey(items[k].key)
  }

  predicate RecordsNamed(records: seq<Record>) {
    forall k :: 0 <= k < |records| ==> ValidKey(records[k].key)
  }

  lemma {:induction false} WalkKeys(crc: Crc, area: bytes)
    ensures var r := Walk(ItemReader(crc), area); r.Some? ==> Named(r.value)
    decreases |area|
  {
    if area != [] && ReadItem(crc, area).Some? {
      var i := ReadItem(crc, area).value;
      ReadItemFields(crc, area);
      WalkKeys(crc, area[32 * Span(i)..]);
    }
  }

  lemma {:induction false} PagesKeys(crc: Crc, version: byte, image: bytes, n: nat)
    requires |image| == PAGE_SIZE * n
    ensures var r := ReadPages(crc, version, image, n); r.Some? ==> Named(r.value)
  {
    hide Walk;
    if n > 0 {
      var last := PAGE_SIZE * (n - 1);
      PagesKeys(crc, version, image[..last], n - 1);
      WalkKeys(crc, WrittenArea(image[last..], CountWritten(image[last..][32..64], 0)));
    }
  }

  lemma {:induction false} JoinKeys(items: seq<Item>, g: Gathering)
    requires Named(items)
    ensures var r := Join(items, g); r.Some? ==> RecordsNamed(r.value)
    decreases |items|
  {
    if items != [] && Feed(g, items[0]).Some? {
      JoinKeys(items[1..], Feed(g, items[0]).value.0);
    }
  }

  /** No image gives a key of more than 16 bytes, or with a zero byte. */
  lemma ImageKeys(crc: Crc, version: byte, image: bytes)
    ensures var r := ReadImage(crc, version, image); r.Some? ==> RecordsNamed(r.value)
  {
    hide ReadPages, Join;
    if |image| % PAGE_SIZE == 0 {
      var n := |image| / PAGE_SIZE;
      PagesKeys(crc, version, image, n);
      if ReadPages(crc, version, image, n).Some? {
        JoinKeys(ReadPages(crc, version, image, n).value, Idle);
      }
    }
  }
}
