/** Time-based UUIDs as structs: how a 60-bit timestamp is spread over the
    fields (sections 4.1.2 to 4.1.5 of RFC 4122), how it is read back, and the
    increment with carries that hands out consecutive timestamps.
    Where the C code ORs bits into a field those bits are clear in the other
    operand, so the OR is written as a sum and a mask as a remainder. */
module UuidTime {
  import opened Bytes
  import opened UuidLayout

  /** 100 ns ticks between 15 October 1582 and 1 January 1970. */
  const OFFSET: int := 0x01B2_1DD2 * TWO32 + 0x1381_4000
  const TICKS_PER_SECOND: int := 10_000_000

  /** Gregorian leap years. */
  predicate IsLeap(year: int) {
    year % 4 == 0 && (year % 100 != 0 || year % 400 == 0)
  }

  function DaysIn(year: int, month: int): int {
    if month == 2 then (if IsLeap(year) then 29 else 28)
    else if month == 4 || month == 6 || month == 9 || month == 11 then 30
    else 31
  }

  /** The days of a year before a month. */
  function DaysBefore(year: int, month: int): int
    requires 1 <= month <= 13
    decreases month
  {
    if month == 1 then 0 else DaysBefore(year, month - 1) + DaysIn(year, month - 1)
  }

  /** The number of a Gregorian date, counted from 1 January of the year 1. */
  function DayNumber(year: int, month: int, day: int): int
    requires 1 <= month <= 12
  {
    var y := year - 1;
    365 * y + y / 4 - y / 100 + y / 400 + DaysBefore(year, month) + day
  }

  /** Years follow each other without gap or overlap: 1 January comes the day after
      31 December, and a year has 366 days exactly if it is a leap year. */
  lemma YearsAreWhole(year: int)
    ensures DayNumber(year + 1, 1, 1) == DayNumber(year, 12, 31) + 1
    ensures DayNumber(year + 1, 1, 1) - DayNumber(year, 1, 1) == if IsLeap(year) then 366 else 365
  {
    MonthsAreWhole(year);
    Quotients(year - 1, 4);
    Quotients(year - 1, 100);
    Quotients(year - 1, 400);
  }

  lemma Quotients(y: int, n: int)
    requires n == 4 || n == 100 || n == 400
    ensures (y + 1) / n == y / n + if (y + 1) % n == 0 then 1 else 0
  {
  }

  lemma MonthsAreWhole(year: int)
    ensures DaysBefore(year, 10) == if IsLeap(year) then 274 else 273
    ensures DaysBefore(year, 13) == if IsLeap(year) then 366 else 365
    ensures DaysBefore(year, 12) + 31 == DaysBefore(year, 13)
  {
    var feb := DaysBefore(year, 3);
    assert feb == if IsLeap(year) then 60 else 59 by {
      assert DaysBefore(year, 2) == 31;
    }
    assert DaysBefore(year, 5) == feb + 61;
    assert DaysBefore(year, 7) == feb + 122;
    assert DaysBefore(year, 9) == feb + 184;
    assert DaysBefore(year, 10) == feb + 214;
    assert DaysBefore(year, 11) == feb + 245;
    assert DaysBefore(year, 12) == feb + 275;
  }

  /** Timestamps count from the Gregorian reform (section 4.1.4 of RFC 4122): the offset
      is the time from 15 October 1582 to 1 January 1970 in units of 100 ns. */
  lemma OffsetIsTheReform()
    ensures OFFSET == (DayNumber(1970, 1, 1) - DayNumber(1582, 10, 15)) * 86_400 * 10_000_000
    ensures TICKS_PER_SECOND == 10_000_000
  {
    MonthsAreWhole(1582);
    assert DayNumber(1970, 1, 1) - DayNumber(1582, 10, 15) == 141_427;
  }

  datatype TimeVal = TimeVal(sec: int, usec: int)

  type ClockSeq = x: int | 0 <= x < 0x4000

  datatype Variant = Ncs | Dce | Microsoft | Other

  /** The struct that uuid__generate_time builds from the clock register. */
  function Stamp(reg: Word64, clockSeq: ClockSeq, node: Node): Uuid {
    var high := reg / TWO32;
    Uuid(reg % TWO32, high % TWO16, high / TWO16 % 0x1000 + 0x1000, clockSeq + 0x8000, node)
  }

  /** The part of uuid__generate_time after the clock has been asked. */
  method PackTime(reg: Word64, clockSeq: ClockSeq, node: Node, out: array<Byte>)
    requires out.Length == 16
    modifies out
    ensures out[..] == Wire(Stamp(reg, clockSeq, node))
  {
    var clockMid, seq16: int := reg / TWO32, clockSeq;
    var uu := Uuid(reg % TWO32, clockMid % TWO16, clockMid / TWO16 % 0x1000 + 0x1000, seq16 + 0x8000, node);
    Pack(uu, out);
    LayoutIsBijective(out[..], uu, Wire(uu), uu);
  }

  /** The 60-bit timestamp held in the time fields. */
  function Timestamp(uu: Uuid): int {
    (uu.timeMid + uu.timeHi % 0x1000 * TWO16) * TWO32 + uu.timeLow
  }

  /** uuid_type */
  function TypeOf(b: Packed): int {
    Fields(b).timeHi / 0x1000 % 0x10
  }

  /** uuid_variant: test bits 15, 14 and 13 of the clock sequence field in turn. */
  function VariantOf(b: Packed): Variant {
    var v := Fields(b).clockSeq;
    if v / 0x8000 % 2 == 0 then Ncs
    else if v / 0x4000 % 2 == 0 then Dce
    else if v / 0x2000 % 2 == 0 then Microsoft
    else Other
  }

  /** The type is the high half of byte 6 and the variant the leading one-bits of
      byte 8 (sections 4.1.3 and 4.1.1 of RFC 4122). */
  lemma TypeAndVariantBits(b: Packed)
    ensures TypeOf(b) == b[6] / 16
    ensures VariantOf(b) == if b[8] < 0x80 then Ncs else if b[8] < 0xC0 then Dce
                            else if b[8] < 0xE0 then Microsoft else Other
  {
    FieldValues(b);
    ByteSplit(b[6], b[7]);
    ByteSplit(b[8], b[9]);
  }

  lemma ByteSplit(hi: Byte, lo: Byte)
    ensures var v: int := 256 * hi + lo;
            && v / 0x1000 % 0x10 == hi / 16
            && (v / 0x8000 % 2 == 0 <==> hi < 0x80)
            && (0x80 <= hi ==> (v / 0x4000 % 2 == 0 <==> hi < 0xC0))
            && (0xC0 <= hi ==> (v / 0x2000 % 2 == 0 <==> hi < 0xE0))
  {
  }

  /** Everything written into a time-based UUID can be read off its wire form,
      the timestamp modulo 2^60. */
  lemma StampReadsBack(reg: Word64, clockSeq: ClockSeq, node: Node)
    ensures var b := Wire(Stamp(reg, clockSeq, node));
            && Timestamp(Fields(b)) == reg % TWO60
            && Fields(b).clockSeq % 0x4000 == clockSeq
            && Fields(b).node == node
            && TypeOf(b) == 1
            && VariantOf(b) == Dce
  {
    var uu := Stamp(reg, clockSeq, node);
    WireRoundTrip(uu, Wire(uu));
    SpreadSums(reg);
  }

  /** Cutting a register into 32, 16 and 12 bits and adding the pieces up again. */
  lemma SpreadSums(reg: Word64)
    ensures (reg / TWO32 % TWO16 + reg / TWO32 / TWO16 % 0x1000 * TWO16) * TWO32 + reg % TWO32 == reg % TWO60
  {
    var high := reg / TWO32;
    var top := high / TWO16;
    assert high == top * TWO16 + high % TWO16;
    assert reg == (top / 0x1000) * TWO60 + ((top % 0x1000) * TWO16 + high % TWO16) * TWO32 + reg % TWO32;
  }

  /** Two stamps have one wire form exactly when they agree on the low 60 bits
      of the time, the sequence and the node. */
  lemma StampsCollide(reg: Word64, clockSeq: ClockSeq, node: Node, reg': Word64, clockSeq': ClockSeq, node': Node)
    ensures Wire(Stamp(reg, clockSeq, node)) == Wire(Stamp(reg', clockSeq', node')) <==>
            reg % TWO60 == reg' % TWO60 && clockSeq == clockSeq' && node == node'
  {
    var uu, uu' := Stamp(reg, clockSeq, node), Stamp(reg', clockSeq', node');
    StampReadsBack(reg, clockSeq, node);
    StampReadsBack(reg', clockSeq', node');
    WireRoundTrip(uu, Wire(uu));
    WireRoundTrip(uu', Wire(uu'));
    if reg % TWO60 == reg' % TWO60 && clockSeq == clockSeq' && node == node' {
      SameTimeFields(uu, uu');
    }
  }

  /** Below 2^60, different times or sequences give different wire forms. */
  lemma StampsDiffer(reg: Word64, clockSeq: ClockSeq, node: Node, reg': Word64, clockSeq': ClockSeq, node': Node)
    requires reg < TWO60 && reg' < TWO60 && (reg != reg' || clockSeq != clockSeq')
    ensures Wire(Stamp(reg, clockSeq, node)) != Wire(Stamp(reg', clockSeq', node'))
  {
    StampTimestamp(reg, clockSeq, node);
    StampTimestamp(reg', clockSeq', node');
    var uu, uu' := Stamp(reg, clockSeq, node), Stamp(reg', clockSeq', node');
    LayoutIsBijective(Wire(uu), uu, Wire(uu'), uu');
  }

  /** The timestamp and the version nibble together determine the time fields. */
  lemma SameTimeFields(uu: Uuid, uu': Uuid)
    requires Timestamp(uu) == Timestamp(uu') && uu.timeHi / 0x1000 == uu'.timeHi / 0x1000
    ensures uu.timeLow == uu'.timeLow && uu.timeMid == uu'.timeMid && uu.timeHi == uu'.timeHi
  {
    var high, high' := uu.timeMid + uu.timeHi % 0x1000 * TWO16, uu'.timeMid + uu'.timeHi % 0x1000 * TWO16;
    assert Timestamp(uu) / TWO32 == high && Timestamp(uu') / TWO32 == high';
    assert high / TWO16 == uu.timeHi % 0x1000 && high' / TWO16 == uu'.timeHi % 0x1000;
  }

  /** uuid_time, with the 64-bit wrap-around of the subtraction. */
  method ReadTime(b: Packed) returns (tv: TimeVal)
    ensures tv == TimeOf(b)
  {
    var uuid := Fields(b);
    var high: Word32 := uuid.timeMid + uuid.timeHi % 0x1000 * TWO16;
    var clockReg: Word64 := uuid.timeLow + high * TWO32;
    clockReg := (clockReg - OFFSET) % TWO64;
    tv := TimeVal(clockReg / TICKS_PER_SECOND, clockReg % TICKS_PER_SECOND / 10);
  }

  /** The clock reading a wire form stands for: the whole microseconds of its
      ticks since 1970. */
  ghost function TimeOf(b: Packed): TimeVal {
    MicrosToTime((Timestamp(Fields(b)) - OFFSET) % TWO64 / 10)
  }

  function MicrosToTime(us: nat): TimeVal {
    TimeVal(us / 1_000_000, us % 1_000_000)
  }

  /** The value get_clock leaves in its 64-bit register. */
  function Register(tick: int): Word64 {
    (tick + OFFSET) % TWO64
  }

  /** Reading the time back from a generated UUID gives the microsecond of its
      tick if and only if the timestamp fits 60 bits, except that when the
      64-bit register itself overflowed, the two overflows cancel out. */
  lemma TimeInvertsGeneration(tick: nat, clockSeq: ClockSeq, node: Node)
    ensures TimeOf(Wire(Stamp(Register(tick), clockSeq, node))) == MicrosToTime(tick / 10) <==>
            tick + OFFSET < TWO60 || TWO64 <= tick + OFFSET < TWO64 + OFFSET
  {
    var ts := tick + OFFSET;
    StampReadsBack(Register(tick), clockSeq, node);
    ModDrops(ts);
    WrapCancels(tick, ts / TWO60, ts % TWO60);
    MicrosUnique((ts % TWO60 - OFFSET) % TWO64 / 10, tick / 10);
  }

  /** Dropping `q` laps of 2^60 and then wrapping below zero at 2^64 moves a tick
      by a multiple of 2^60, which is zero exactly for no laps or for sixteen. */
  lemma WrapCancels(tick: nat, q: int, r: int)
    requires tick + OFFSET == q * TWO60 + r && 0 <= r < TWO60
    ensures (r - OFFSET) % TWO64 / 10 == tick / 10 <==>
            tick + OFFSET < TWO60 || TWO64 <= tick + OFFSET < TWO64 + OFFSET
  {
    var back := if r < OFFSET then r - OFFSET + TWO64 else r - OFFSET;
    var laps := if r < OFFSET then 16 else 0;
    assert (r - OFFSET) % TWO64 == back;
    assert back - tick == (laps - q) * TWO60;
    if laps != q {
      assert back - tick >= TWO60 || tick - back >= TWO60;
    }
  }

  lemma ModDrops(ts: nat)
    ensures ts % TWO64 % TWO60 == ts % TWO60
  {
    var q, r := ts / TWO64, ts % TWO64;
    assert ts == (q * 16 + r / TWO60) * TWO60 + r % TWO60;
  }

  lemma MicrosUnique(x: nat, y: nat)
    ensures MicrosToTime(x) == MicrosToTime(y) <==> x == y
  {
  }

  lemma MicrosOfTick(tv: TimeVal, adj: int)
    requires 0 <= tv.sec && 0 <= tv.usec < 1_000_000 && 0 <= adj <= 10
    ensures MicrosToTime(TickOf(tv, adj) / 10) ==
            if adj < 10 then tv else if tv.usec == 999_999 then TimeVal(tv.sec + 1, 0) else TimeVal(tv.sec, tv.usec + 1)
  {
    var us := tv.sec * 1_000_000 + tv.usec;
    assert TickOf(tv, adj) / 10 == us + adj / 10;
  }

  /** A generated UUID reads back as the reading it was made from, except that the
      extra tick after the tenth of a microsecond reads back as the following
      microsecond, with its carry into the second. */
  lemma GeneratedReadsBack(tv: TimeVal, adj: int, clockSeq: ClockSeq, node: Node)
    requires 0 <= tv.sec && 0 <= tv.usec < 1_000_000 && 0 <= adj <= 10
    requires TickOf(tv, adj) + OFFSET < TWO60
    ensures TimeOf(Wire(Stamp(Register(TickOf(tv, adj)), clockSeq, node))) ==
            if adj < 10 then tv else if tv.usec == 999_999 then TimeVal(tv.sec + 1, 0) else TimeVal(tv.sec, tv.usec + 1)
  {
    MicrosOfTick(tv, adj);
    TimeInvertsGeneration(TickOf(tv, adj), clockSeq, node);
  }

  /** 100 ns ticks since 1970 of a reading plus an adjustment. */
  function TickOf(tv: TimeVal, adj: int): int {
    tv.sec * TICKS_PER_SECOND + tv.usec * 10 + adj
  }

  /** The increment of the cached UUID, field by field with wrap-around. */
  function Next(uu: Uuid): Uuid {
    var low := (uu.timeLow + 1) % TWO32;
    var mid := if low == 0 then (uu.timeMid + 1) % TWO16 else uu.timeMid;
    var hi := if low == 0 && mid == 0 then (uu.timeHi + 1) % TWO16 else uu.timeHi;
    uu.(timeLow := low, timeMid := mid, timeHi := hi)
  }

  /** The increment is plus one on the timestamp and nothing else, if and only
      if the timestamp is not the last one; from the last it spills into the version. */
  lemma NextIsPlusOne(uu: Uuid)
    ensures Timestamp(Next(uu)) == Timestamp(uu) + 1 && Next(uu).timeHi / 0x1000 == uu.timeHi / 0x1000 <==>
            Timestamp(uu) != TWO60 - 1
    ensures Next(uu).clockSeq == uu.clockSeq && Next(uu).node == uu.node
    ensures Timestamp(uu) == TWO60 - 1 ==>
              Timestamp(Next(uu)) == 0 && Next(uu).timeHi / 0x1000 == (uu.timeHi / 0x1000 + 1) % 16
  {
  }

  /** `k` increments in a row. */
  function NextBy(uu: Uuid, k: nat): Uuid {
    if k == 0 then uu else Next(NextBy(uu, k - 1))
  }

  /** Handing out `k` further UUIDs from a cached one walks through the `k`
      following timestamps with version, sequence and node untouched. */
  lemma {:induction false} NextWalksTheBlock(reg: Word64, clockSeq: ClockSeq, node: Node, k: nat)
    requires reg + k < TWO60
    ensures NextBy(Stamp(reg, clockSeq, node), k) == Stamp(reg + k, clockSeq, node)
  {
    if k > 0 {
      NextWalksTheBlock(reg, clockSeq, node, k - 1);
      NextOfStamp(reg + k - 1, clockSeq, node);
    }
  }

  lemma NextOfStamp(reg: Word64, clockSeq: ClockSeq, node: Node)
    requires reg + 1 < TWO60
    ensures Next(Stamp(reg, clockSeq, node)) == Stamp(reg + 1, clockSeq, node)
  {
    StampTimestamp(reg, clockSeq, node);
    StampTimestamp(reg + 1, clockSeq, node);
    NextUnique(Stamp(reg, clockSeq, node), Stamp(reg + 1, clockSeq, node));
  }

  lemma NextUnique(uu: Uuid, uu': Uuid)
    requires Timestamp(uu') == Timestamp(uu) + 1 && uu'.timeHi / 0x1000 == uu.timeHi / 0x1000
    requires uu'.clockSeq == uu.clockSeq && uu'.node == uu.node
    ensures Next(uu) == uu'
  {
    NextIsPlusOne(uu);
    assert Timestamp(uu') < TWO60;
    SameTimeFields(Next(uu), uu');
  }

  lemma StampTimestamp(reg: Word64, clockSeq: ClockSeq, node: Node)
    requires reg < TWO60
    ensures Timestamp(Stamp(reg, clockSeq, node)) == reg
    ensures Stamp(reg, clockSeq, node).timeHi / 0x1000 == 1
  {
    SpreadSums(reg);
  }
}
