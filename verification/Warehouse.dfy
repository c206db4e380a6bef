// The current recorder in the EEPROM (Warehouse.cpp): a ring of date records and the hours of a day.

module Warehouse {
  import opened Bytes

  const CYCLE_RECORD := 0x00
  const HOUR_HEAD_PTR := 0x03
  const DATE_HEAD_PTR := 0x04
  const HOUR_DATA_PTR := 0x05
  const DATE_DATA_PTR := 0x4d
  const DATE_RECORD_NUM := 31
  const HOURS := 24
  /** Addresses are 16 bits wide. */
  const ADDRESSES := 0x1_0000

  type word = x: int | 0 <= x < 0x1_0000

  type memory = m: seq<byte> | |m| == ADDRESSES
    ghost witness Repeat(0, ADDRESSES)

  datatype DateRecord = DateRecord(year: byte, month: byte, day: byte, average: word)

  datatype HourRecord = HourRecord(hour: byte, current: word)

  /** A line of the date export: the calendar's year and month, which are stored from 1900 and from 0. */
  datatype Entry = Entry(year: nat, month: nat, day: byte, average: word)

  function EntryOf(r: DateRecord): Entry {
    Entry(1900 + r.year, r.month + 1, r.day, r.average)
  }

  function Entries(rs: seq<DateRecord>): (es: seq<Entry>)
    ensures |es| == |rs|
  {
    seq(|rs|, i requires 0 <= i < |rs| => EntryOf(rs[i]))
  }

  // ----- what the bytes say -----

  function WordAt(m: memory, a: nat): word
    requires a + 1 < ADDRESSES
  {
    m[a] as int + 256 * m[a + 1] as int
  }

  function DateAddress(slot: byte): nat {
    DATE_DATA_PTR + slot * 5
  }

  function DateAt(m: memory, slot: byte): DateRecord {
    var a := DateAddress(slot);
    DateRecord(m[a], m[a + 1], m[a + 2], WordAt(m, a + 3))
  }

  function HourAt(m: memory, slot: byte): HourRecord {
    var a := HOUR_DATA_PTR + slot * 3;
    HourRecord(m[a], WordAt(m, a + 1))
  }

  function Cycles(m: memory): nat {
    m[CYCLE_RECORD] as int * 0x1_0000 + m[CYCLE_RECORD + 1] as int * 0x100 + m[CYCLE_RECORD + 2] as int
  }

  /** The date that is in slot 0 of the ring of n dates: where the current turn started. */
  function TurnStart(n: nat): (start: nat)
    requires n > 0
    ensures start < n <= start + DATE_RECORD_NUM
    ensures start > 0 ==> start >= DATE_RECORD_NUM
  {
    (n - 1) / DATE_RECORD_NUM * DATE_RECORD_NUM
  }

  /** A turn ends when the ring is full. */
  lemma TurnGoesOn(n: nat)
    requires n > 0
    ensures TurnStart(1) == 0
    ensures TurnStart(n + 1) == if n == TurnStart(n) + DATE_RECORD_NUM then n else TurnStart(n)
  {}

  /** A run of slots holds a run of dates. */
  ghost predicate SlotsHold(m: memory, lo: nat, hi: nat, dates: seq<DateRecord>, offset: int) {
    && lo <= hi <= DATE_RECORD_NUM && 0 <= lo + offset && hi + offset <= |dates|
    && forall slot: nat :: lo <= slot < hi ==> DateAt(m, slot) == dates[slot + offset]
  }

  /** The ring holds the current turn up to its head, and beyond the head what is left of the turn before.
      Until the ring is full its last slot has no year. */
  ghost predicate DatesStored(m: memory, dates: seq<DateRecord>) {
    if dates == [] then
      m[DATE_HEAD_PTR] == 255 && DateAt(m, DATE_RECORD_NUM - 1).year == 0
    else
      var start := TurnStart(|dates|);
      && m[DATE_HEAD_PTR] == |dates| - 1 - start
      && SlotsHold(m, 0, |dates| - start, dates, start)
      && (start > 0 ==> SlotsHold(m, |dates| - start, DATE_RECORD_NUM, dates, start - DATE_RECORD_NUM))
      && (|dates| < DATE_RECORD_NUM ==> DateAt(m, DATE_RECORD_NUM - 1).year == 0)
  }

  ghost predicate HoursStored(m: memory, hours: seq<HourRecord>) {
    && |hours| <= HOURS
    && m[HOUR_HEAD_PTR] == (if hours == [] then 255 else |hours| - 1)
    && forall k :: 0 <= k < |hours| ==> HourAt(m, k) == hours[k]
  }

  function LastDates(dates: seq<DateRecord>): seq<DateRecord> {
    if |dates| <= DATE_RECORD_NUM then dates else dates[|dates| - DATE_RECORD_NUM..]
  }

  /** When the ring has been overwritten in part, its last slot, with the last date of the turn before, must hold
      a year for the ring to count as full. */
  ghost predicate LengthIsTold(dates: seq<DateRecord>) {
    |dates| > DATE_RECORD_NUM ==>
      || |dates| == TurnStart(|dates|) + DATE_RECORD_NUM
      || dates[TurnStart(|dates|) - 1].year != 0
  }

  lemma YearsTellLength(dates: seq<DateRecord>)
    requires forall k :: 0 <= k < |dates| ==> dates[k].year != 0
    ensures LengthIsTold(dates)
  {}

  /** Dates of the year 1900, whose year byte is 0, are such a case: the 32nd hides the 31 before it. */
  lemma LengthCanBeLost(dates: seq<DateRecord>)
    requires dates == seq(DATE_RECORD_NUM + 1, _ => DateRecord(0, 0, 1, 0))
    ensures !LengthIsTold(dates) && |dates| - TurnStart(|dates|) == 1
  {
    TurnGoesOn(DATE_RECORD_NUM);
  }

  lemma NothingStored(m: memory, m1: memory, deep: bool)
    requires m1[HOUR_HEAD_PTR] == m1[DATE_HEAD_PTR] == 255 && m1[DATE_DATA_PTR + (DATE_RECORD_NUM - 1) * 5] == 0
    requires forall i :: 0 <= i < 3 ==> m1[i] == if deep then 0 else m[i]
    ensures DatesStored(m1, []) && HoursStored(m1, [])
    ensures Cycles(m1) == (if deep then 0 else Cycles(m)) && Cycles(m) < 0x100_0000
  {}

  // What the length is computed from.
  lemma LastSlot(m: memory, dates: seq<DateRecord>)
    requires DatesStored(m, dates)
    ensures |dates| < DATE_RECORD_NUM ==> m[DATE_DATA_PTR + (DATE_RECORD_NUM - 1) * 5] == 0
    ensures |dates| > DATE_RECORD_NUM && |dates| < TurnStart(|dates|) + DATE_RECORD_NUM ==>
      m[DATE_DATA_PTR + (DATE_RECORD_NUM - 1) * 5] == dates[TurnStart(|dates|) - 1].year
  {
    hide TurnStart;
    if |dates| > DATE_RECORD_NUM && |dates| < TurnStart(|dates|) + DATE_RECORD_NUM {
      var slot := DATE_RECORD_NUM - 1;
      assert DateAt(m, slot) == dates[slot + (TurnStart(|dates|) - DATE_RECORD_NUM)];
    }
  }

  // What the two loops of the export go over.
  lemma RingParts(m: memory, dates: seq<DateRecord>)
    requires DatesStored(m, dates)
    ensures m[DATE_HEAD_PTR] == if dates == [] then 255 else |dates| - 1 - TurnStart(|dates|)
    ensures dates != [] ==> SlotsHold(m, 0, m[DATE_HEAD_PTR] + 1, dates, TurnStart(|dates|))
    ensures |dates| >= DATE_RECORD_NUM ==>
      SlotsHold(m, m[DATE_HEAD_PTR] + 1, DATE_RECORD_NUM, dates, TurnStart(|dates|) - DATE_RECORD_NUM)
  {
    hide TurnStart, DateAt;
  }

  lemma EntriesJoin(dates: seq<DateRecord>, a: nat, b: nat)
    requires a <= b <= |dates|
    ensures Entries(dates[a..b]) + Entries(dates[b..]) == Entries(dates[a..])
  {}

  // What the loops of the export bring together.
  lemma ExportedParts(dates: seq<DateRecord>, length: nat, es: seq<Entry>)
    requires length == |LastDates(dates)| <==> LengthIsTold(dates)
    requires !LengthIsTold(dates) ==> length == |dates| - TurnStart(|dates|)
    requires es == ExportedBy(dates, length)
    ensures es == Entries(LastDates(dates)) <==> LengthIsTold(dates)
    ensures !LengthIsTold(dates) ==> es == Entries(dates[TurnStart(|dates|)..])
  {
    var n := |dates|;
    if n > 0 {
      var start := TurnStart(n);
      hide TurnStart;
      assert dates[0 + start..n - 1 - start + 1 + start] == dates[start..];
      if length == DATE_RECORD_NUM {
        EntriesJoin(dates, n - DATE_RECORD_NUM, start);
      }
    }
    hide Entries;
    assert dates[0..] == dates;
  }

  /** All dates up to 31, and then 31; but after the last full turn only those since, if the last date of that turn is
      of year byte 0. */
  function LengthGiven(dates: seq<DateRecord>): nat {
    var n := |dates|;
    if n <= 31 then n
    else if n % 31 == 0 || dates[(n - 1) / 31 * 31 - 1].year != 0 then 31
    else n % 31
  }

  lemma LengthMeans(dates: seq<DateRecord>)
    ensures LengthGiven(dates) == if LengthIsTold(dates) then |LastDates(dates)| else |dates| - TurnStart(|dates|)
    ensures LengthGiven(dates) <= |dates|
  {}

  /** The newest dates, with their years from 1900 and their months from 1. */
  predicate Newest(es: seq<Entry>, dates: seq<DateRecord>, n: nat) {
    && |es| == n <= |dates|
    && forall i :: 0 <= i < n ==>
         var r := dates[|dates| - n + i];
         && es[i].year == 1900 + r.year && es[i].month == r.month + 1 && es[i].day == r.day
         && es[i].average == r.average
  }

  lemma ExportedNewest(dates: seq<DateRecord>, es: seq<Entry>)
    requires LengthIsTold(dates) ==> es == Entries(LastDates(dates))
    requires !LengthIsTold(dates) ==> es == Entries(dates[TurnStart(|dates|)..])
    ensures Newest(es, dates, LengthGiven(dates))
  {
    LengthMeans(dates);
  }

  lemma LengthCases(dates: seq<DateRecord>, length: nat)
    requires length == |LastDates(dates)| <==> LengthIsTold(dates)
    requires !LengthIsTold(dates) ==> length == |dates| - TurnStart(|dates|)
    ensures length == 0 <==> dates == []
    ensures length == DATE_RECORD_NUM ==> |dates| >= DATE_RECORD_NUM
  {}

  ghost function ExportedBy(dates: seq<DateRecord>, length: nat): seq<Entry>
    requires length == |LastDates(dates)| <==> LengthIsTold(dates)
    requires !LengthIsTold(dates) ==> length == |dates| - TurnStart(|dates|)
  {
    if dates == [] then [] else
    var head, start := |dates| - 1 - TurnStart(|dates|), TurnStart(|dates|);
    (if length == DATE_RECORD_NUM
     then Entries(dates[head + 1 + (start - DATE_RECORD_NUM)..DATE_RECORD_NUM + (start - DATE_RECORD_NUM)])
     else [])
    + Entries(dates[0 + start..head + 1 + start])
  }

  // ----- what operations write -----

  function PutWord(m: memory, a: nat, w: word): memory
    requires a + 1 < ADDRESSES
  {
    m[a := w % 256][a + 1 := w / 256]
  }

  function PutDate(m: memory, slot: byte, r: DateRecord): memory {
    var a := DateAddress(slot);
    PutWord(m[a := r.year][a + 1 := r.month][a + 2 := r.day], a + 3, r.average)
  }

  function PutHour(m: memory, slot: byte, r: HourRecord): memory {
    var a := HOUR_DATA_PTR + slot * 3;
    PutWord(m[a := r.hour], a + 1, r.current)
  }

  function PutCycles(m: memory, c: nat): memory {
    m[CYCLE_RECORD := c / 0x1_0000 % 256][CYCLE_RECORD + 1 := c / 0x100 % 256][CYCLE_RECORD + 2 := c % 256]
  }

  function NextDateSlot(head: byte): byte {
    var d := (head + 1) % 256;
    if d == DATE_RECORD_NUM then 0 else d
  }

  function AfterDate(m: memory, r: DateRecord): memory {
    var d := NextDateSlot(m[DATE_HEAD_PTR]);
    PutDate(m, d, r)[DATE_HEAD_PTR := d]
  }

  function AfterHour(m: memory, r: HourRecord): memory {
    var d := (m[HOUR_HEAD_PTR] as int + 1) % 256;
    var m1 := PutHour(m, d, r)[HOUR_HEAD_PTR := d];
    PutCycles(m1, Cycles(m1) + 1)
  }

  // ----- what is written, byte by byte -----

  predicate SameBut(m: memory, m1: memory, lo: nat, n: nat) {
    forall i :: 0 <= i < ADDRESSES && !(lo <= i < lo + n) ==> m1[i] == m[i]
  }

  /** The next slot gets the five bytes of the date, and byte 4 its number. */
  predicate DateWritten(m: memory, m1: memory, r: DateRecord) {
    var d := if m[4] == 30 then 0 else (m[4] as int + 1) % 256;
    && m1[4] == d
    && m1[0x4d + 5 * d..0x4d + 5 * d + 5] == [r.year, r.month, r.day, r.average % 256, r.average / 256]
    && forall i :: 0 <= i < ADDRESSES && i != 4 && !(0x4d + 5 * d <= i < 0x4d + 5 * d + 5) ==> m1[i] == m[i]
  }

  lemma AfterDateBytes(m: memory, r: DateRecord)
    ensures DateWritten(m, AfterDate(m, r), r)
  {}

  /** The next hour of the day gets its three bytes, byte 3 its number, and bytes 0 to 2 count one more. */
  predicate HourWritten(m: memory, m1: memory, r: HourRecord) {
    var d := (m[3] as int + 1) % 256;
    && m1[3] == d
    && m1[5 + 3 * d..5 + 3 * d + 3] == [r.hour, r.current % 256, r.current / 256]
    && CounterOf(m1) == (CounterOf(m) + 1) % 0x100_0000
    && forall i :: 4 <= i < ADDRESSES && !(5 + 3 * d <= i < 5 + 3 * d + 3) ==> m1[i] == m[i]
  }

  /** Three bytes, high byte first. */
  function CounterOf(m: memory): nat {
    m[0] as int * 65536 + m[1] as int * 256 + m[2] as int
  }

  lemma AfterHourBytes(m: memory, r: HourRecord)
    ensures HourWritten(m, AfterHour(m, r), r)
  {
    var d := (m[HOUR_HEAD_PTR] as int + 1) % 256;
    var m1 := PutHour(m, d, r)[HOUR_HEAD_PTR := d];
    assert Cycles(m1) == Cycles(m);
    CyclesAfterPut(m1, Cycles(m) + 1);
    assert CounterOf(AfterHour(m, r)) == Cycles(AfterHour(m, r));
  }

  lemma DateSlotRead(m: memory, slot: byte, r: DateRecord, other: byte)
    ensures DateAt(PutDate(m, slot, r), other) == if other == slot then r else DateAt(m, other)
  {}

  // Bytes outside the ring do not matter to it.
  lemma DatesFrame(m: memory, m1: memory, dates: seq<DateRecord>)
    requires DatesStored(m, dates) && m1[DATE_HEAD_PTR] == m[DATE_HEAD_PTR]
    requires m1[DATE_DATA_PTR..DATE_DATA_PTR + 5 * DATE_RECORD_NUM]
      == m[DATE_DATA_PTR..DATE_DATA_PTR + 5 * DATE_RECORD_NUM]
    ensures DatesStored(m1, dates)
  {
    forall slot: byte | slot < DATE_RECORD_NUM
      ensures DateAt(m1, slot) == DateAt(m, slot)
    {
      SameInside(m, m1, DATE_DATA_PTR, DATE_DATA_PTR + 5 * DATE_RECORD_NUM, DateAddress(slot), 5);
    }
  }

  lemma SameInside(m: memory, m1: memory, lo: nat, hi: nat, a: nat, n: nat)
    requires lo <= a && a + n <= hi <= ADDRESSES && m1[lo..hi] == m[lo..hi]
    ensures forall i :: a <= i < a + n ==> m1[i] == m[i]
  {
    forall i | a <= i < a + n ensures m1[i] == m[i] {
      assert m[lo..hi][i - lo] == m1[lo..hi][i - lo];
    }
  }

  // One slot has a new record, which goes after all others.
  lemma SlotsAfterAppend(m: memory, m1: memory, lo: nat, hi: nat, dates: seq<DateRecord>, offset: int, d: byte,
                         r: DateRecord)
    requires SlotsHold(m, lo, hi, dates, offset)
    requires forall slot: byte :: slot < DATE_RECORD_NUM ==>
      DateAt(m1, slot) == if slot == d then r else DateAt(m, slot)
    ensures d == hi < DATE_RECORD_NUM && hi + offset == |dates| ==> SlotsHold(m1, lo, hi + 1, dates + [r], offset)
    ensures d == lo < hi ==> SlotsHold(m1, lo + 1, hi, dates + [r], offset)
    ensures !(lo <= d < hi) ==> SlotsHold(m1, lo, hi, dates + [r], offset)
  {
    hide DateAt;
  }

  /** Appending to the ring is appending to the log of dates. */
  lemma DatesAfterAppend(m: memory, dates: seq<DateRecord>, r: DateRecord)
    requires DatesStored(m, dates)
    ensures DatesStored(AfterDate(m, r), dates + [r])
  {
    var d := NextDateSlot(m[DATE_HEAD_PTR]);
    var n := |dates|;
    var m1 := AfterDate(m, r);
    forall slot: byte | slot < DATE_RECORD_NUM
      ensures DateAt(m1, slot) == if slot == d then r else DateAt(m, slot)
    {
      DateSlotRead(m, d, r, slot);
      assert DateAt(m1, slot) == DateAt(PutDate(m, d, r), slot);
    }
    assert m1[DATE_HEAD_PTR] == d;
    hide TurnStart, DateAt, PutDate, AfterDate;
    if n == 0 {
      TurnGoesOn(1);
    } else {
      var start := TurnStart(n);
      TurnGoesOn(n);
      SlotsAfterAppend(m, m1, 0, n - start, dates, start, d, r);
      if n < start + DATE_RECORD_NUM && start > 0 {
        SlotsAfterAppend(m, m1, n - start, DATE_RECORD_NUM, dates, start - DATE_RECORD_NUM, d, r);
      }
    }
  }

  lemma OthersAfterDate(m: memory, hours: seq<HourRecord>, r: DateRecord)
    requires HoursStored(m, hours)
    ensures HoursStored(AfterDate(m, r), hours) && Cycles(AfterDate(m, r)) == Cycles(m)
  {
    assert forall k: byte :: k < HOURS ==> HourAt(AfterDate(m, r), k) == HourAt(m, k);
  }

  /** A new average goes to the newest date. */
  lemma DatesAfterAverage(m: memory, dates: seq<DateRecord>, average: word)
    requires DatesStored(m, dates) && dates != []
    ensures DatesStored(PutWord(m, DateAddress(m[DATE_HEAD_PTR]) + 3, average),
                        dates[|dates| - 1 := dates[|dates| - 1].(average := average)])
  {
    var d := m[DATE_HEAD_PTR];
    var m1 := PutWord(m, DateAddress(d) + 3, average);
    forall slot: byte | slot < DATE_RECORD_NUM
      ensures DateAt(m1, slot) == if slot == d then DateAt(m, slot).(average := average) else DateAt(m, slot)
    {}
    assert m1[DATE_HEAD_PTR] == d;
    hide TurnStart, DateAt;
  }

  lemma CyclesAfterPut(m: memory, c: nat)
    ensures Cycles(PutCycles(m, c)) == c % 0x100_0000
  {
    DivModNested(c, 0x1_0000);
    DivModNested(c / 256, 256);
    FundamentalDivMod(c, 256);
    FundamentalDivMod(c / 256, 256);
    DivModUnique(c, 0x1_0000, c / 256 / 256, c % 256 + 256 * (c / 256 % 256));
  }

  lemma HoursAfterAppend(m: memory, hours: seq<HourRecord>, r: HourRecord)
    requires HoursStored(m, hours) && |hours| < HOURS
    ensures HoursStored(AfterHour(m, r), hours + [r])
    ensures Cycles(AfterHour(m, r)) == (Cycles(m) + 1) % 0x100_0000
  {
    var d := |hours|;
    var m1 := PutHour(m, d, r)[HOUR_HEAD_PTR := d];
    assert Cycles(m1) == Cycles(m);
    CyclesAfterPut(m1, Cycles(m) + 1);
    var m2 := AfterHour(m, r);
    forall k: byte | k < HOURS ensures HourAt(m2, k) == if k == d then r else HourAt(m, k) {
      HourSlotRead(m, d, r, k, Cycles(m1) + 1);
    }
    assert m2[HOUR_HEAD_PTR] == d;
    hide HourAt, Cycles, PutCycles, AfterHour;
  }

  lemma HourSlotRead(m: memory, slot: byte, r: HourRecord, other: byte, c: nat)
    ensures HourAt(PutCycles(PutHour(m, slot, r)[HOUR_HEAD_PTR := slot], c), other)
      == if other == slot then r else HourAt(m, other)
  {
    var m1 := PutHour(m, slot, r)[HOUR_HEAD_PTR := slot];
    assert HourAt(PutCycles(m1, c), other) == HourAt(m1, other);
  }

  lemma DatesAfterHour(m: memory, dates: seq<DateRecord>, hours: seq<HourRecord>, r: HourRecord)
    requires DatesStored(m, dates) && HoursStored(m, hours) && |hours| < HOURS
    ensures DatesStored(AfterHour(m, r), dates)
  {
    hide DatesStored;
    DatesFrame(m, AfterHour(m, r), dates);
  }

  ghost predicate HourSparesDates(m: memory, r: HourRecord) {
    forall slot: byte :: slot < DATE_RECORD_NUM ==> DateAt(AfterHour(m, r), slot) == DateAt(m, slot)
  }

  /** There is room for 24 hours between the pointers and the dates. The 25th to the 76th record of a day go into
      the ring of dates; those after that lie beyond it. */
  lemma HoursOverrunDates(m: memory)
    ensures (forall r :: HourSparesDates(m, r)) <==> !(24 <= (m[HOUR_HEAD_PTR] as int + 1) % 256 <= 75)
  {
    var d := (m[HOUR_HEAD_PTR] as int + 1) % 256;
    if 24 <= d <= 75 {
      var a := HOUR_DATA_PTR + d * 3;
      var slot := (a - DATE_DATA_PTR) / 5;
      var hour: byte, current: word := (m[a] as int + 1) % 256, (WordAt(m, a + 1) as int + 1) % 0x1_0000;
      var r := HourRecord(hour, current);
      assert HourAt(AfterHour(m, r), d) == r;
      assert DateAt(AfterHour(m, r), slot) != DateAt(m, slot);
      assert !HourSparesDates(m, r);
    } else {
      forall r ensures HourSparesDates(m, r) {
        forall slot: byte | slot < DATE_RECORD_NUM ensures DateAt(AfterHour(m, r), slot) == DateAt(m, slot) {}
      }
    }
  }

  // The three bytes of the counter, or-ed together.
  lemma CyclesOr(b0: byte, b1: byte, b2: byte)
    ensures BitOr(BitOr(b0 * 0x1_0000, b1 * 0x100), b2) == b0 * 0x1_0000 + b1 * 0x100 + b2
  {
    var high := b0 * 0x100 + b1;
    assert TwoTo(8) == 0x100 && TwoTo(16) == 0x1_0000 by { TwoToBytes(1); TwoToBytes(2); }
    BitOrCommutes(b0 * 0x1_0000, b1 * 0x100);
    BitOrAdds(b1 * 0x100, b0, 16);
    BitOrCommutes(high * 0x100, b2);
    BitOrAdds(b2, high, 8);
  }

  lemma WordOr(lo: byte, hi: byte)
    ensures BitOr(lo, hi * 0x100) == lo as int + 256 * hi as int
  {
    assert TwoTo(8) == 0x100 by { TwoToBytes(1); }
    BitOrAdds(lo, hi, 8);
  }

  class Recorder {
    const eeprom: array<byte>
    /** Every date since the last format, with its final average; the hours since the last restart of the day. */
    ghost var dates: seq<DateRecord>
    ghost var hours: seq<HourRecord>
    /** All hours since the last deep format. */
    ghost var cycles: nat

    ghost predicate Valid()
      reads this, eeprom
    {
      && eeprom.Length == ADDRESSES
      && DatesStored(eeprom[..], dates) && HoursStored(eeprom[..], hours)
      && Cycles(eeprom[..]) == cycles % 0x100_0000
    }

    /** A recorder on an EEPROM with any contents. */
    constructor (contents: memory)
      ensures eeprom[..] == contents && fresh(eeprom)
    {
      eeprom := new byte[ADDRESSES](i requires 0 <= i < ADDRESSES => contents[i]);
      dates, hours, cycles := [], [], 0;
      new;
      assert eeprom[..] == contents;
    }

    method WriteAsInt16(value: word, a: nat)
      requires eeprom.Length == ADDRESSES && a + 1 < ADDRESSES
      modifies eeprom
      ensures eeprom[..] == PutWord(old(eeprom[..]), a, value)
    {
      eeprom[a] := value % 256;
      eeprom[a + 1] := value / 256;
    }

    method ReadAsInt16(a: nat) returns (w: word)
      requires eeprom.Length == ADDRESSES && a + 1 < ADDRESSES
      ensures w == WordAt(eeprom[..], a)
    {
      WordOr(eeprom[a], eeprom[a + 1]);
      w := BitOr(eeprom[a], eeprom[a + 1] as int * 0x100);
    }

    method GetCycleRecord() returns (c: nat)
      requires eeprom.Length == ADDRESSES
      ensures c == CounterOf(eeprom[..]) == Cycles(eeprom[..])
    {
      CyclesOr(eeprom[CYCLE_RECORD], eeprom[CYCLE_RECORD + 1], eeprom[CYCLE_RECORD + 2]);
      c := eeprom[CYCLE_RECORD] as int * 0x1_0000;
      c := BitOr(c, eeprom[CYCLE_RECORD + 1] as int * 0x100);
      c := BitOr(c, eeprom[CYCLE_RECORD + 2]);
    }

    method IncreaseCycleRecord()
      requires eeprom.Length == ADDRESSES
      modifies eeprom
      ensures eeprom[..] == PutCycles(old(eeprom[..]), Cycles(old(eeprom[..])) + 1)
    {
      var c := GetCycleRecord();
      c := c + 1;
      eeprom[CYCLE_RECORD] := c / 0x1_0000 % 256;
      eeprom[CYCLE_RECORD + 1] := c / 0x100 % 256;
      eeprom[CYCLE_RECORD + 2] := c % 256;
    }

    /** The bytes written do not depend on how the day went; what they mean does. */
    method AppendHourlyRecord(hr: byte, current: word)
      requires eeprom.Length == ADDRESSES
      modifies this, eeprom
      ensures HourWritten(old(eeprom[..]), eeprom[..], HourRecord(hr, current))
      ensures eeprom[..] == AfterHour(old(eeprom[..]), HourRecord(hr, current))
      ensures old(Valid()) && |old(hours)| < HOURS ==> Valid()
      ensures dates == old(dates) && hours == old(hours) + [HourRecord(hr, current)] && cycles == old(cycles) + 1
    {
      hide DatesStored, HoursStored, DateAt, HourAt, Cycles, PutCycles, HourWritten;
      ghost var m, was := eeprom[..], hours;
      var designated := (eeprom[HOUR_HEAD_PTR] as int + 1) % 256;
      eeprom[HOUR_DATA_PTR + designated * 3] := hr;
      WriteAsInt16(current, HOUR_DATA_PTR + designated * 3 + 1);
      eeprom[HOUR_HEAD_PTR] := designated;
      IncreaseCycleRecord();
      hours, cycles := hours + [HourRecord(hr, current)], cycles + 1;
      AfterHourBytes(m, HourRecord(hr, current));
      if old(Valid()) && |was| < HOURS {
        HoursAfterAppend(m, was, HourRecord(hr, current));
        DatesAfterHour(m, dates, was, HourRecord(hr, current));
      }
    }

    method AppendDateRecord(yy: byte, mm: byte, dd: byte, average: word)
      requires Valid()
      modifies this, eeprom
      ensures Valid()
      ensures DateWritten(old(eeprom[..]), eeprom[..], DateRecord(yy, mm, dd, average))
      ensures dates == old(dates) + [DateRecord(yy, mm, dd, average)] && hours == old(hours) && cycles == old(cycles)
    {
      hide DatesStored, HoursStored, SlotsHold, DateAt, Cycles, DateWritten;
      ghost var m := eeprom[..];
      var designated := (eeprom[DATE_HEAD_PTR] as int + 1) % 256;
      if designated == DATE_RECORD_NUM {
        designated := 0;
      }
      eeprom[DATE_DATA_PTR + designated * 5] := yy;
      eeprom[DATE_DATA_PTR + designated * 5 + 1] := mm;
      eeprom[DATE_DATA_PTR + designated * 5 + 2] := dd;
      WriteAsInt16(average, DATE_DATA_PTR + designated * 5 + 3);
      eeprom[DATE_HEAD_PTR] := designated;
      AfterDateBytes(m, DateRecord(yy, mm, dd, average));
      DatesAfterAppend(m, dates, DateRecord(yy, mm, dd, average));
      OthersAfterDate(m, hours, DateRecord(yy, mm, dd, average));
      dates := dates + [DateRecord(yy, mm, dd, average)];
    }

    /** Whatever was there before, nothing is recorded after. */
    method FormatZero(deep: bool)
      requires eeprom.Length == ADDRESSES
      modifies this, eeprom
      ensures Valid() && dates == [] && hours == []
      ensures cycles == if deep then 0 else Cycles(old(eeprom[..]))
      ensures eeprom[3] == eeprom[4] == 255 && forall i :: 0x4d + 150 <= i < 0x4d + 155 ==> eeprom[i] == 0
      ensures deep ==> eeprom[0] == eeprom[1] == eeprom[2] == 0
      ensures forall i :: 5 <= i < ADDRESSES && !(0x4d + 150 <= i < 0x4d + 155) ==> eeprom[i] == old(eeprom[i])
      ensures !deep ==> forall i :: 0 <= i < 3 ==> eeprom[i] == old(eeprom[i])
    {
      hide DatesStored, HoursStored, Cycles;
      ghost var m := eeprom[..];
      cycles := Cycles(eeprom[..]);
      if deep {
        eeprom[CYCLE_RECORD], eeprom[CYCLE_RECORD + 1], eeprom[CYCLE_RECORD + 2] := 0, 0, 0;
        cycles := 0;
      }
      eeprom[HOUR_HEAD_PTR] := 255;
      eeprom[DATE_HEAD_PTR] := 255;
      var last := DATE_DATA_PTR + (DATE_RECORD_NUM - 1) * 5;
      eeprom[last], eeprom[last + 1], eeprom[last + 2] := 0, 0, 0;
      WriteAsInt16(0, last + 3);
      dates, hours := [], [];
      NothingStored(m, eeprom[..], deep);
    }

    /** updateRecordedHourPtr(255), at midnight. */
    method RestartDay()
      requires Valid()
      modifies this, eeprom
      ensures Valid() && hours == [] && dates == old(dates) && cycles == old(cycles)
      ensures eeprom[3] == 255 && SameBut(old(eeprom[..]), eeprom[..], 3, 1)
    {
      ghost var m := eeprom[..];
      eeprom[HOUR_HEAD_PTR] := 255;
      hours := [];
      DatesFrame(m, eeprom[..], dates);
    }

    /** At the end of a day its average is written over the one of the newest date. */
    method WriteAverage(average: word)
      requires Valid() && dates != []
      modifies this, eeprom
      ensures Valid() && hours == old(hours) && cycles == old(cycles)
      ensures dates == old(dates)[|old(dates)| - 1 := old(dates)[|old(dates)| - 1].(average := average)]
      ensures
        var a := 0x4d + 5 * eeprom[4] + 3;
        && eeprom[a] == average % 256 && eeprom[a + 1] == average / 256
        && SameBut(old(eeprom[..]), eeprom[..], a, 2)
    {
      DatesAfterAverage(eeprom[..], dates, average);
      WriteAsInt16(average, DATE_DATA_PTR + eeprom[DATE_HEAD_PTR] * 5 + 3);
      dates := dates[|dates| - 1 := dates[|dates| - 1].(average := average)];
    }

    method GetHourDataLength() returns (n: nat)
      requires Valid()
      ensures n == |hours|
    {
      n := (eeprom[HOUR_HEAD_PTR] as int + 1) % 256;
    }

    /** The number of dates kept, exactly when LengthIsTold; otherwise the dates of the current turn only. */
    method GetDateDataLength() returns (n: nat)
      requires Valid()
      ensures n == |LastDates(dates)| <==> LengthIsTold(dates)
      ensures !LengthIsTold(dates) ==> n == |dates| - TurnStart(|dates|)
      ensures n == LengthGiven(dates)
    {
      LengthMeans(dates);
      hide HoursStored, TurnStart, SlotsHold;
      LastSlot(eeprom[..], dates);
      n := (eeprom[DATE_HEAD_PTR] as int + 1) % 256;
      if n < DATE_RECORD_NUM && eeprom[DATE_DATA_PTR + (DATE_RECORD_NUM - 1) * 5] > 0 {
        n := DATE_RECORD_NUM;
      }
    }

    method ReadDate(slot: byte) returns (e: Entry)
      requires eeprom.Length == ADDRESSES
      ensures e == EntryOf(DateAt(eeprom[..], slot))
      ensures var a := 0x4d + 5 * slot;
        && e.year == 1900 + eeprom[a] as int && e.month == eeprom[a + 1] as int + 1 && e.day == eeprom[a + 2]
        && e.average == eeprom[a + 3] as int + 256 * eeprom[a + 4] as int
    {
      var a := DateAddress(slot);
      var average := ReadAsInt16(a + 3);
      e := Entry(1900 + eeprom[a] as int, eeprom[a + 1] as int + 1, eeprom[a + 2], average);
    }

    // One of the two loops of the export.
    method ReadSlots(lo: nat, hi: nat, ghost offset: int) returns (es: seq<Entry>)
      requires eeprom.Length == ADDRESSES && SlotsHold(eeprom[..], lo, hi, dates, offset)
      ensures es == Entries(dates[lo + offset..hi + offset])
    {
      es := [];
      for i := lo to hi
        invariant es == Entries(dates[lo + offset..i + offset])
      {
        assert DateAt(eeprom[..], i) == dates[i + offset];
        var e := ReadDate(i);
        es := es + [e];
      }
    }

    /** parseDateDatainJson: the last dates, oldest first, exactly when LengthIsTold. */
    method ExportDates() returns (es: seq<Entry>)
      requires Valid()
      ensures es == Entries(LastDates(dates)) <==> LengthIsTold(dates)
      ensures !LengthIsTold(dates) ==> es == Entries(dates[TurnStart(|dates|)..])
      ensures Newest(es, dates, LengthGiven(dates))
    {
      hide Newest, LengthGiven;
      hide DatesStored, HoursStored, DateAt, SlotsHold, Entries, Cycles, TurnStart, LengthIsTold, LastDates;
      var length := GetDateDataLength();
      var head := eeprom[DATE_HEAD_PTR];
      ghost var n := |dates|;
      RingParts(eeprom[..], dates);
      LengthCases(dates, length);
      es := [];
      if length == DATE_RECORD_NUM && head < DATE_RECORD_NUM {
        es := ReadSlots(head + 1, DATE_RECORD_NUM, TurnStart(n) - DATE_RECORD_NUM);
      }
      if length > 0 {
        var newer := ReadSlots(0, head + 1, TurnStart(n));
        es := es + newer;
      }
      ExportedParts(dates, length, es);
      ExportedNewest(dates, es);
    }

    /** parseHourDatainJson: the hours of this day. */
    method ExportHours() returns (hs: seq<HourRecord>)
      requires Valid()
      ensures hs == hours
    {
      hs := [];
      var i := 0;
      var n := GetHourDataLength();
      while i < n
        invariant 0 <= i <= n && n == |hours| && hs == hours[..i]
      {
        assert HourAt(eeprom[..], i) == hours[i];
        var current := ReadAsInt16(HOUR_DATA_PTR + i * 3 + 1);
        hs := hs + [HourRecord(eeprom[HOUR_DATA_PTR + i * 3], current)];
        i := i + 1;
        n := GetHourDataLength();
      }
    }

    method IsLastDateDataToday(year: nat, month: nat, day: nat) returns (r: bool)
      requires Valid()
      ensures r <==>
        && dates != []
        && var last := dates[|dates| - 1]; last.year == year && last.month == month && last.day == day
      ensures r <==> dates != [] && IsDay(dates[|dates| - 1], year, month, day)
    {
      RingParts(eeprom[..], dates);
      var head := eeprom[DATE_HEAD_PTR];
      assert dates != [] ==> DateAt(eeprom[..], head) == dates[head + TurnStart(|dates|)];
      r := head < DATE_RECORD_NUM
        && year == eeprom[DATE_DATA_PTR + head * 5]
        && month == eeprom[DATE_DATA_PTR + head * 5 + 1]
        && day == eeprom[DATE_DATA_PTR + head * 5 + 2];
    }

    /** A whole run from a format on, with what can be read after it. */
    method Run(deep: bool, ops: seq<Op>) returns (cycleRecord: nat, length: nat, es: seq<Entry>, hs: seq<HourRecord>)
      requires eeprom.Length == ADDRESSES && WithinDay(ops)
      modifies this, eeprom
      ensures Valid()
      ensures cycleRecord == ((if deep then 0 else Cycles(old(eeprom[..]))) + HourCount(ops)) % 0x100_0000
      ensures hs == HoursOf(ops)
      ensures length == |LastDates(DatesOf(ops))| <==> LengthIsTold(DatesOf(ops))
      ensures es == Entries(LastDates(DatesOf(ops))) <==> LengthIsTold(DatesOf(ops))
      ensures length == LengthGiven(DatesOf(ops)) && Newest(es, DatesOf(ops), length)
    {
      hide DatesStored, HoursStored, Cycles, LengthIsTold, Entries, LastDates, LengthGiven, Newest;
      FormatZero(deep);
      ghost var base := cycles;
      for i := 0 to |ops|
        invariant Valid() && cycles == base + HourCount(ops[..i])
        invariant dates == DatesOf(ops[..i]) && hours == HoursOf(ops[..i])
      {
        assert ops[..i + 1][..i] == ops[..i];
        assert |HoursOf(ops[..i + 1])| <= HOURS;
        match ops[i] {
          case Hour(hr, current) =>
            AppendHourlyRecord(hr, current);
          case Date(r) =>
            AppendDateRecord(r.year, r.month, r.day, r.average);
          case Midnight =>
            RestartDay();
          case Average(average) =>
            var n := GetDateDataLength();
            LengthCases(dates, n);
            if n > 0 {
              WriteAverage(average);
            }
        }
      }
      assert ops[..|ops|] == ops;
      cycleRecord := GetCycleRecord();
      length := GetDateDataLength();
      es := ExportDates();
      hs := ExportHours();
    }
  }

  predicate IsDay(r: DateRecord, year: nat, month: nat, day: nat) {
    r.year == year && r.month == month && r.day == day
  }

  // ----- runs -----

  datatype Op = Hour(hr: byte, current: word) | Date(r: DateRecord) | Midnight | Average(average: word)

  function DatesOf(ops: seq<Op>): seq<DateRecord> {
    if ops == [] then [] else
    var dates := DatesOf(ops[..|ops| - 1]);
    match ops[|ops| - 1] {
      case Date(r) => dates + [r]
      case Average(w) => if dates == [] then [] else dates[|dates| - 1 := dates[|dates| - 1].(average := w)]
      case _ => dates
    }
  }

  /** The hours since the last midnight. */
  function HoursOf(ops: seq<Op>): seq<HourRecord> {
    if ops == [] then [] else
    var hours := HoursOf(ops[..|ops| - 1]);
    match ops[|ops| - 1] {
      case Hour(hr, current) => hours + [HourRecord(hr, current)]
      case Midnight => []
      case _ => hours
    }
  }

  function HourCount(ops: seq<Op>): nat {
    if ops == [] then 0 else HourCount(ops[..|ops| - 1]) + if ops[|ops| - 1].Hour? then 1 else 0
  }

  /** No day has more than 24 hourly records. */
  predicate WithinDay(ops: seq<Op>) {
    forall i :: 0 <= i <= |ops| ==> |HoursOf(ops[..i])| <= HOURS
  }

  /** Dates with years, as those that the clock gives, are exported whatever else happens. */
  lemma {:induction false} YearsTellLengthOfRun(ops: seq<Op>)
    requires forall i :: 0 <= i < |ops| && ops[i].Date? ==> ops[i].r.year != 0
    ensures forall k :: 0 <= k < |DatesOf(ops)| ==> DatesOf(ops)[k].year != 0
    ensures LengthIsTold(DatesOf(ops))
  {
    if ops != [] {
      YearsTellLengthOfRun(ops[..|ops| - 1]);
    }
    YearsTellLength(DatesOf(ops));
  }
}
