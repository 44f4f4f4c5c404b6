/** What `fat_dir_read` says of an entry besides its name. */
module Timestamps {
  import opened Bytes
  import opened Powers
  import opened LongName
  import opened SlotWriter

  datatype Timestamp = Timestamp(year: nat, month: nat, day: nat, hour: nat, min: nat, sec: nat)

  /** `decode_timestamp`. */
  function Decode(date: nat, time: nat): (t: Timestamp)
  {
    Timestamp(date / 0x200 % 0x40 + 1980, date / 0x20 % 0x10, date % 0x20,
              time / 0x800 % 0x20, time / 0x20 % 0x40, 2 * (time % 0x20))
  }

  /** `encode_timestamp`: what does not fit a field is cut off. */
  function EncodeDate(t: Timestamp): (date: nat)
    ensures date < 0x8000
  {
    (t.year - 1980) % 0x40 * 0x200 + t.month % 0x10 * 0x20 + t.day % 0x20
  }

  function EncodeTime(t: Timestamp): (time: nat)
    ensures time < 0x1_0000
  {
    t.sec / 2 % 0x20 + t.min % 0x40 * 0x20 + t.hour % 0x20 * 0x800
  }

  /** What the two words can hold: the year has six bits here, where the format gives it seven. */
  predicate Fits(t: Timestamp)
  {
    1980 <= t.year < 2044 && t.month < 16 && t.day < 32 && t.hour < 32 && t.min < 64 && t.sec < 64 && t.sec % 2 == 0
  }

  lemma DateFields(y: nat, m: nat, d: nat)
    requires y < 0x40 && m < 0x10 && d < 0x20
    ensures
      var date := y * 0x200 + m * 0x20 + d;
      date / 0x200 % 0x40 == y && date / 0x20 % 0x10 == m && date % 0x20 == d
  {
  }

  lemma TimeFields(h: nat, m: nat, s: nat)
    requires h < 0x20 && m < 0x40 && s < 0x20
    ensures
      var time := s + m * 0x20 + h * 0x800;
      time / 0x800 % 0x20 == h && time / 0x20 % 0x40 == m && time % 0x20 == s
  {
  }

  /** The date word: bits 0 to 4 the day, 5 to 8 the month, 9 to 14 the year from 1980 on, bit 15 always 0. The time word: bits
      0 to 4 half the seconds, 5 to 10 the minute, 11 to 15 the hour. */
  lemma WordFields(t: Timestamp)
    ensures
      var d := EncodeDate(t);
      d % 32 == t.day % 32 && d / 32 % 16 == t.month % 16 && d / 512 % 64 == (t.year - 1980) % 64 && d < 32768
    ensures
      var w := EncodeTime(t);
      w % 32 == t.sec / 2 % 32 && w / 32 % 64 == t.min % 64 && w / 2048 == t.hour % 32 && w < 65536
  {
    var h, n, s := t.hour % 0x20, t.min % 0x40, t.sec / 2 % 0x20;
    DateFields((t.year - 1980) % 0x40, t.month % 0x10, t.day % 0x20);
    TimeFields(h, n, s);
    assert EncodeTime(t) == s + n * 0x20 + h * 0x800;
    TopField(h, s + n * 0x20);
    hide EncodeTime;
  }

  lemma TopField(h: nat, low: nat)
    requires low < 0x800
    ensures (low + h * 0x800) / 0x800 == h
  {
  }

  /** Bit 15 of a date is not looked at. */
  lemma HighBitIgnored(date: nat, time: nat)
    requires date < 0x8000
    ensures Decode(date + 0x8000, time) == Decode(date, time)
  {
    YearBits(date);
    MonthBits(date);
  }

  lemma YearBits(date: nat)
    ensures (date + 0x8000) / 0x200 % 0x40 == date / 0x200 % 0x40
  {
    assert (date + 0x8000) / 0x200 == date / 0x200 + 0x40;
  }

  lemma MonthBits(date: nat)
    ensures (date + 0x8000) / 0x20 % 0x10 == date / 0x20 % 0x10 && (date + 0x8000) % 0x20 == date % 0x20
  {
    assert (date + 0x8000) / 0x20 == date / 0x20 + 0x400;
  }

  /** What becomes of a time that is stored and read back. */
  lemma ReadBack(t: Timestamp)
    ensures Decode(EncodeDate(t), EncodeTime(t)) ==
      Timestamp((t.year - 1980) % 0x40 + 1980, t.month % 0x10, t.day % 0x20, t.hour % 0x20, t.min % 0x40, 2 * (t.sec / 2 % 0x20))
  {
    var y, m, d := (t.year - 1980) % 0x40, t.month % 0x10, t.day % 0x20;
    var h, n, s := t.hour % 0x20, t.min % 0x40, t.sec / 2 % 0x20;
    assert EncodeDate(t) == y * 0x200 + m * 0x20 + d && EncodeTime(t) == s + n * 0x20 + h * 0x800;
    hide EncodeDate, EncodeTime;
    DateFields(y, m, d);
    TimeFields(h, n, s);
  }

  /** A time stored is the time read back if and only if its fields fit and the seconds are even. */
  lemma TimestampRoundTrip(t: Timestamp)
    ensures Decode(EncodeDate(t), EncodeTime(t)) == t <==> Fits(t)
  {
    hide Decode, EncodeDate, EncodeTime;
    ReadBack(t);
  }

  /** The `DirInfo` of an entry, less its name. */
  datatype DirInfo = DirInfo(created: Timestamp, modified: Timestamp, size: nat, attr: byte)

  function InfoOf(s: Slot): (i: DirInfo)
  {
    DirInfo(Decode(Le16(s, 16), Le16(s, 14)), Decode(Le16(s, 24), Le16(s, 22)), Le32(s, 28), s[11])
  }

  /** An entry that was just added reads back with its attributes, both its times and size 0 if and only if the time
      fits. */
  lemma NewInfo(name: seq<byte>, attr: byte, clust: nat, t: Timestamp)
    requires |name| == 11 && clust < TWO_32
    ensures InfoOf(SfnSlot(name, attr, clust, EncodeDate(t), EncodeTime(t))) == DirInfo(t, t, 0, attr) <==> Fits(t)
  {
    hide Decode, EncodeDate, EncodeTime, Fits;
    TimestampRoundTrip(t);
  }
}
