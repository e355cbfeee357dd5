/**
 * The real-time clock of src/rtc.c. The CMOS registers behind ports 0x70/0x71 are a
 * byte sequence the class holds; rtc_set_time truncates each field of the date to a
 * byte, rejects a date out of range without touching the clock, converts the fields
 * to BCD unless register B selects binary mode, and writes them; rtc_get_time reads
 * them back the other way.
 */
module Rtc {
  import opened CInt
  import Time

  const RegSec := 0x00
  const RegMin := 0x02
  const RegHour := 0x04
  const RegWeekDay := 0x06
  const RegDay := 0x07
  const RegMonth := 0x08
  const RegYear := 0x09
  const RegB := 0x0B
  /** REGB_DM: set when the clock keeps binary values instead of BCD. */
  const RegBDm := 4
  const CmosSize := 128

  /** A byte of two decimal digits, one per nibble. */
  predicate IsBcd(b: byte)
  {
    b / 16 < 10 && b % 16 < 10
  }

  /** bcd_to_bin: the low nibble plus ten times the high nibble; below 100 for a BCD byte. */
  function BcdToBin(b: byte): (v: byte)
    ensures IsBcd(b) ==> v < 100
    ensures v % 10 == b % 16 % 10
  {
    b % 16 + b / 16 * 10
  }

  /** bin_to_bcd: the tens in the high nibble and the units in the low one, kept to a byte. */
  function BinToBcd(v: byte): (b: byte)
    ensures v < 100 ==> IsBcd(b)
  {
    Wrap8(v / 10 * 16 + v % 10)
  }

  /** Every value below 100 survives the trip through BCD. */
  lemma BcdRoundTrip(v: byte)
    requires v < 100
    ensures BcdToBin(BinToBcd(v)) == v
  {
    var b := v / 10 * 16 + v % 10;
    assert b < 0x100 && BinToBcd(v) == b;
    DivMod(b, 16, v / 10, v % 10);
    DivMod(v, 10, v / 10, v % 10);
  }

  /** Every BCD byte survives the trip through binary. */
  lemma BinRoundTrip(b: byte)
    requires IsBcd(b)
    ensures BinToBcd(BcdToBin(b)) == b
  {
    var v := BcdToBin(b);
    assert v / 10 == b / 16 && v % 10 == b % 16;
  }

  /** Whether register B selects binary values: `~regb & REGB_DM` is 0 exactly then. */
  predicate BinaryMode(regb: byte)
  {
    regb / RegBDm % 2 == 1
  }

  /** The seven clock fields as the registers hold them. */
  datatype Fields = Fields(sec: byte, min: byte, hour: byte, weekDay: byte, day: byte, month: byte, year: byte)

  /** The uint8_t locals of rtc_set_time: each field truncated, the year less 2000, the week day plus 1. */
  function Truncated(date: Time.DateTime): (f: Fields)
    ensures 0 <= date.sec < 0x100 ==> f.sec == date.sec
    ensures 2000 <= date.year < 0x100 + 2000 ==> f.year == date.year - 2000
    ensures -1 <= date.weekDay < 0xFF ==> f.weekDay == date.weekDay + 1
  {
    Fields(Wrap8(date.sec), Wrap8(date.min), Wrap8(date.hour), Wrap8(date.weekDay + 1), Wrap8(date.day),
           Wrap8(date.month), Wrap8(date.year - 2000))
  }

  /** The check of rtc_set_time, made on the truncated bytes; a day or month of 0 passes. */
  predicate Accepted(f: Fields)
  {
    f.sec < 60 && f.min < 60 && f.hour < 24 && f.day <= 31 && f.month <= 12 && f.year < 100 && f.weekDay <= 7
  }

  /** For fields that fit their bytes, the date is accepted exactly when it is in range. */
  lemma AcceptedInRange(date: Time.DateTime)
    requires 0 <= date.sec < 0x100 && 0 <= date.min < 0x100 && 0 <= date.hour < 0x100
    requires 0 <= date.day < 0x100 && 0 <= date.month < 0x100
    requires 2000 <= date.year < 0x100 + 2000 && -1 <= date.weekDay < 0xFF
    ensures Accepted(Truncated(date)) <==>
      date.sec < 60 && date.min < 60 && date.hour < 24 && date.day <= 31 && date.month <= 12 &&
      date.year < 2100 && date.weekDay <= 6
  {
  }

  /** The values written: BCD unless the clock is in binary mode; the week day is never converted. */
  function Encoded(f: Fields, binary: bool): (e: Fields)
    ensures e.weekDay == f.weekDay
    ensures binary ==> e == f
    ensures !binary && Accepted(f) ==> IsBcd(e.sec) && IsBcd(e.min) && IsBcd(e.hour) && IsBcd(e.day) && IsBcd(e.month) && IsBcd(e.year)
  {
    if binary then f
    else
      Fields(BinToBcd(f.sec), BinToBcd(f.min), BinToBcd(f.hour), f.weekDay, BinToBcd(f.day), BinToBcd(f.month), BinToBcd(f.year))
  }

  /** The registers once the seven fields are written; nothing else changes. */
  function Stored(regs: seq<byte>, f: Fields): (r: seq<byte>)
    requires |regs| == CmosSize
    ensures |r| == CmosSize
    ensures r[RegSec] == f.sec && r[RegMin] == f.min && r[RegHour] == f.hour && r[RegWeekDay] == f.weekDay
    ensures r[RegDay] == f.day && r[RegMonth] == f.month && r[RegYear] == f.year
    ensures forall k :: 0 <= k < CmosSize && k !in {RegSec, RegMin, RegHour, RegWeekDay, RegDay, RegMonth, RegYear} ==> r[k] == regs[k]
  {
    regs[RegSec := f.sec][RegMin := f.min][RegHour := f.hour][RegWeekDay := f.weekDay][RegDay := f.day]
      [RegMonth := f.month][RegYear := f.year]
  }

  /** A register as rtc_get_time takes it: converted from BCD unless the clock is in binary mode. */
  function Decoded(b: byte, binary: bool): (v: byte)
    ensures binary ==> v == b
    ensures !binary && IsBcd(b) ==> v < 100
  {
    if binary then b else BcdToBin(b)
  }

  /**
   * What rtc_get_time stores into a date that held prev: the six decoded fields, the year
   * plus 2000, the week day less 1 as a uint8_t, the local zone; the year day is left as it was.
   */
  function Read(regs: seq<byte>, prev: Time.DateTime): (date: Time.DateTime)
    requires |regs| == CmosSize
    ensures date.yearDay == prev.yearDay && date.tzOffset == Time.LocalTimeZone
    ensures 2000 <= date.year < 2256 && 0 <= date.weekDay < 0x100
  {
    var binary := BinaryMode(regs[RegB]);
    prev.(sec := Decoded(regs[RegSec], binary), min := Decoded(regs[RegMin], binary),
          hour := Decoded(regs[RegHour], binary), day := Decoded(regs[RegDay], binary),
          month := Decoded(regs[RegMonth], binary), year := Decoded(regs[RegYear], binary) + 2000,
          weekDay := Wrap8(regs[RegWeekDay] as int - 1), tzOffset := Time.LocalTimeZone)
  }

  /** A date set in range is read back as it was, in the local zone, in either mode. */
  lemma SetThenGet(regs: seq<byte>, date: Time.DateTime)
    requires |regs| == CmosSize
    requires 0 <= date.sec < 60 && 0 <= date.min < 60 && 0 <= date.hour < 24 && 0 <= date.day <= 31
    requires 0 <= date.month <= 12 && 2000 <= date.year < 2100 && 0 <= date.weekDay <= 6
    ensures Accepted(Truncated(date))
    ensures Read(Stored(regs, Encoded(Truncated(date), BinaryMode(regs[RegB]))), date) == date.(tzOffset := Time.LocalTimeZone)
  {
    var f := Truncated(date);
    BcdRoundTrip(f.sec);
    BcdRoundTrip(f.min);
    BcdRoundTrip(f.hour);
    BcdRoundTrip(f.day);
    BcdRoundTrip(f.month);
    BcdRoundTrip(f.year);
  }

  /** The CMOS registers of the clock. */
  class Cmos {
    var regs: seq<byte>

    predicate Valid()
      reads this
    {
      |regs| == CmosSize
    }

    constructor(init: seq<byte>)
      requires |init| == CmosSize
      ensures Valid() && regs == init
    {
      regs := init;
    }

    /** rtc_write: one register is set. */
    method Write(addr: byte, value: byte)
      requires Valid() && addr < CmosSize
      modifies this
      ensures Valid() && regs == old(regs)[addr := value]
    {
      regs := regs[addr := value];
    }

    /**
     * rtc_set_time: rejected (the "invalid date" message) leaves the clock as it was;
     * otherwise the truncated fields, encoded for the mode register B selects, are written.
     */
    method SetTime(date: Time.DateTime) returns (rejected: bool)
      requires Valid()
      modifies this
      ensures Valid()
      ensures rejected <==> !Accepted(Truncated(date))
      ensures rejected ==> regs == old(regs)
      ensures !rejected ==> regs == Stored(old(regs), Encoded(Truncated(date), BinaryMode(old(regs)[RegB])))
    {
      var sec, min, hour := Wrap8(date.sec), Wrap8(date.min), Wrap8(date.hour);
      var day, month := Wrap8(date.day), Wrap8(date.month);
      var year, weekDay := Wrap8(date.year - 2000), Wrap8(date.weekDay + 1);
      if sec >= 60 || min >= 60 || hour >= 24 || day > 31 || month > 12 || year >= 100 || weekDay > 7 {
        return true;
      }
      var regb := regs[RegB];
      if !BinaryMode(regb) {
        sec, min, hour := BinToBcd(sec), BinToBcd(min), BinToBcd(hour);
        day, month, year := BinToBcd(day), BinToBcd(month), BinToBcd(year);
      }
      Write(RegSec, sec);
      Write(RegMin, min);
      Write(RegHour, hour);
      Write(RegWeekDay, weekDay);
      Write(RegDay, day);
      Write(RegMonth, month);
      Write(RegYear, year);
      return false;
    }

    /** rtc_get_time into a date that held prev: the registers are read, nothing changes. */
    method GetTime(prev: Time.DateTime) returns (date: Time.DateTime)
      requires Valid()
      ensures date == Read(regs, prev)
    {
      var sec, min, hour := regs[RegSec], regs[RegMin], regs[RegHour];
      var weekDay, day, month := regs[RegWeekDay], regs[RegDay], regs[RegMonth];
      var year: u16 := regs[RegYear];
      var regb := regs[RegB];
      if !BinaryMode(regb) {
        sec, min, hour := BcdToBin(sec), BcdToBin(min), BcdToBin(hour);
        day, month, year := BcdToBin(day), BcdToBin(month), BcdToBin(year as byte);
      }
      year := year + 2000;
      weekDay := Wrap8(weekDay as int - 1);
      date := prev.(sec := sec, min := min, hour := hour, day := day, month := month, year := year,
                    weekDay := weekDay, tzOffset := Time.LocalTimeZone);
    }
  }
}
