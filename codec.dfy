/**
 * The register codec of the PCF8523 real-time-clock driver: the pure half of
 * every per-field getter and setter.  A setter validates a calendar value and
 * packs it into the chip's binary-coded-decimal (BCD) byte; a getter masks the
 * tens and units bits out of a register byte and recombines them.
 */
module RegisterCodec {

  /** One chip register. */
  type Byte = bv8

  /** The Python exceptions the driver raises or lets escape. */
  datatype Error = ValueError | IndexError | RuntimeError

  datatype Result<T> = Ok(value: T) | Err(error: Error)

  /** A dynamically typed argument: the driver's setters take an int or a str. */
  datatype Value = Int(n: int) | Str(s: string)

  /** A flag argument: Python's `True`, `False`, or anything else. */
  datatype Flag = Boolean(b: bool) | NotBool

  const WeekdayNames: seq<string> := ["SUN", "MON", "TUE", "WED", "THU", "FRI", "SAT"]
  const MonthNames: seq<string> :=
    ["JAN", "FEB", "MAR", "APR", "MAY", "JUN", "JUL", "AUG", "SEP", "OCT", "NOV", "DEC"]

  // ---------------------------------------------------------------------------
  // Python semantics the driver relies on
  // ---------------------------------------------------------------------------

  /** Python's `v in range(lo, hi)`: a str is never in a range of ints. */
  predicate InRange(v: Value, lo: int, hi: int) {
    v.Int? && lo <= v.n < hi
  }

  /** Python's `list.index(x)` on a list known to hold `x`: the first position of `x`. */
  function Index(names: seq<string>, x: string): (i: nat)
    requires x in names
    ensures i < |names| && names[i] == x
    ensures forall j :: 0 <= j < i ==> names[j] != x
  {
    if names[0] == x then 0 else 1 + Index(names[1..], x)
  }

  /**
   * Python's `names[i]`: every index from `-len` to `len - 1` is the entry at
   * `i` modulo the length (negative ones count from the end); any other raises.
   */
  function PyIndex(names: seq<string>, i: int): (r: Result<string>)
    ensures r.Ok? <==> -|names| <= i < |names|
    ensures r.Ok? ==> r.value == names[i % |names|]
    ensures r.Err? ==> r.error == IndexError
  {
    if 0 <= i < |names| then Ok(names[i])
    else if -|names| <= i < 0 then Ok(names[|names| + i])
    else Err(IndexError)
  }

  // ---------------------------------------------------------------------------
  // BCD packing shared by every field
  // ---------------------------------------------------------------------------

  /** `tens, digit = divmod(v, 10)` followed by `(tens << 4) | digit`. */
  function PackBcd(v: nat): (b: Byte)
    requires v < 160
    ensures (b >> 4) as nat == v / 10
    ensures (b & 0x0F) as nat == v % 10
  {
    var tens, digit := v / 10, v % 10;
    ((tens as Byte) << 4) | (digit as Byte)
  }

  /** `10 * ((b & tensMask) >> 4) + (b & 0x0F)`: the getters' recombination. */
  function UnpackBcd(b: Byte, tensMask: Byte): (v: nat)
    ensures v <= 10 * ((tensMask >> 4) as nat) + 15
  {
    10 * (((b & tensMask) >> 4) as nat) + ((b & 0x0F) as nat)
  }

  /**
   * A byte that a field setter with tens mask `tensMask` can produce: no bit
   * outside the tens and units groups, and a units digit of at most 9.
   */
  predicate IsBcd(b: Byte, tensMask: Byte) {
    b & !(tensMask | 0x0F) == 0 && (b & 0x0F) < 10
  }

  lemma DivModTen(t: nat, d: nat)
    requires d < 10
    ensures (10 * t + d) / 10 == t && (10 * t + d) % 10 == d
  {
  }

  /** A byte is determined by the numbers its two nibbles hold. */
  lemma NibblesDetermine(x: Byte, y: Byte)
    requires (x >> 4) as nat == (y >> 4) as nat && (x & 0x0F) as nat == (y & 0x0F) as nat
    ensures x == y
  {
  }

  /** Packing the number a byte's nibbles spell gives the byte back. */
  lemma PackOfNibbles(b: Byte)
    requires b & 0x0F < 10
    ensures 10 * ((b >> 4) as nat) + (b & 0x0F) as nat < 160
    ensures PackBcd(10 * ((b >> 4) as nat) + (b & 0x0F) as nat) == b
  {
    var t, d := (b >> 4) as nat, (b & 0x0F) as nat;
    DivModTen(t, d);
    NibblesDetermine(PackBcd(10 * t + d), b);
  }

  /** Unpacking then packing gives the byte back, for every byte a setter can produce. */
  lemma PackUnpack(b: Byte, tensMask: Byte)
    requires IsBcd(b, tensMask) && tensMask & 0x0F == 0
    ensures UnpackBcd(b, tensMask) < 160
    ensures PackBcd(UnpackBcd(b, tensMask)) == b
  {
    assert (b & tensMask) >> 4 == b >> 4;
    PackOfNibbles(b);
  }

  // ---------------------------------------------------------------------------
  // Second and minute (registers 0x03, 0x04): tens in bits 4-6
  // ---------------------------------------------------------------------------

  function DecodeSecond(b: Byte): (s: nat)
    ensures s <= 85
  {
    UnpackBcd(b, 0x70)
  }

  /** `set_second`: only 0..59 is accepted, and `get_second` reads it back. */
  function EncodeSecond(v: Value): (r: Result<Byte>)
    ensures r.Ok? <==> InRange(v, 0, 60)
    ensures r.Err? ==> r.error == ValueError
    ensures r.Ok? ==> DecodeSecond(r.value) == v.n && IsBcd(r.value, 0x70)
  {
    if !InRange(v, 0, 60) then Err(ValueError)
    else Ok(PackBcd(v.n))
  }

  function DecodeMinute(b: Byte): (m: nat)
    ensures m <= 85
  {
    UnpackBcd(b, 0x70)
  }

  /** `set_minute`: only 0..59 is accepted, and `get_minute` reads it back. */
  function EncodeMinute(v: Value): (r: Result<Byte>)
    ensures r.Ok? <==> InRange(v, 0, 60)
    ensures r.Err? ==> r.error == ValueError
    ensures r.Ok? ==> DecodeMinute(r.value) == v.n && IsBcd(r.value, 0x70)
  {
    if !InRange(v, 0, 60) then Err(ValueError)
    else Ok(PackBcd(v.n))
  }

  // ---------------------------------------------------------------------------
  // Hour (register 0x05), in 24h or 12h layout
  // ---------------------------------------------------------------------------

  /** `__get_bit_12_24`: bit 3 of control register 1, as 0 (24h mode) or 1 (12h mode). */
  function ModeBit(ctrl1: Byte): (bit: Byte)
    ensures bit == 0 || bit == 1
    ensures bit == 1 <==> ctrl1 & 0x08 != 0
  {
    (ctrl1 & 0x08) >> 3
  }

  /** `get_hour`: tens in bits 4-5 in 24h mode; meridiem in bit 5 and tens in bit 4 in 12h mode. */
  function DecodeHour(b: Byte, mode: Byte): (h: nat)
    ensures mode == 0 ==> h <= 45
    ensures mode != 0 ==> h <= 37
  {
    if mode == 0 then UnpackBcd(b, 0x30)
    else 12 * (((b & 0x20) >> 5) as nat) + 10 * (((b & 0x10) >> 4) as nat) + ((b & 0x0F) as nat)
  }

  /**
   * The 12h layout of `set_hour`: the meridiem bit is set above 12 and the
   * hour is stored modulo 12, except that 12 is stored as 12.
   */
  function PackHour12(h: nat): (b: Byte)
    requires h < 24
    ensures DecodeHour(b, 1) == h
    ensures b & 0x20 != 0 <==> h > 12
  {
    var meridiem: Byte := if h <= 12 then 0 else 1;
    var h12 := if h == 12 then 12 else h % 12;
    var tens, digit := h12 / 10, h12 % 10;
    (meridiem << 5) | ((tens as Byte) << 4) | (digit as Byte)
  }

  /**
   * `set_hour`: 0..23 is accepted whatever the mode, then packed in the
   * layout of the current mode.  Under the same mode, `get_hour` reads it back.
   */
  function EncodeHour(v: Value, mode: Byte): (r: Result<Byte>)
    ensures r.Ok? <==> InRange(v, 0, 24)
    ensures r.Err? ==> r.error == ValueError
    ensures r.Ok? ==> DecodeHour(r.value, mode) == v.n
    ensures r.Ok? && mode == 0 ==> IsBcd(r.value, 0x30)
  {
    if !InRange(v, 0, 24) then Err(ValueError)
    else if mode == 0 then Ok(PackBcd(v.n))
    else Ok(PackHour12(v.n))
  }

  /** The 12h layout on the hours where it differs from the 24h one. */
  lemma TwelveHourLayout()
    ensures EncodeHour(Int(0), 1) == Ok(0x00)
    ensures EncodeHour(Int(12), 1) == Ok(0x12)
    ensures EncodeHour(Int(13), 1) == Ok(0x21)
    ensures EncodeHour(Int(23), 1) == Ok(0x31)
    ensures EncodeHour(Int(23), 0) == Ok(0x23)
  {
  }

  // ---------------------------------------------------------------------------
  // Day (register 0x06): tens in bits 4-5
  // ---------------------------------------------------------------------------

  function DecodeDay(b: Byte): (d: nat)
    ensures d <= 45
  {
    UnpackBcd(b, 0x30)
  }

  /** `set_day`: only 1..30 is accepted (`range(1, 31)`), and `get_day` reads it back. */
  function EncodeDay(v: Value): (r: Result<Byte>)
    ensures r.Ok? <==> InRange(v, 1, 31)
    ensures r.Err? ==> r.error == ValueError
    ensures r.Ok? ==> DecodeDay(r.value) == v.n && IsBcd(r.value, 0x30)
  {
    if !InRange(v, 1, 31) then Err(ValueError)
    else Ok(PackBcd(v.n))
  }

  /** Day 31 is rejected although the day register layout holds it. */
  lemma DayThirtyOneRejected()
    ensures EncodeDay(Int(31)) == Err(ValueError) && EncodeDay(Int(0)) == Err(ValueError)
    ensures DecodeDay(PackBcd(31)) == 31 && IsBcd(PackBcd(31), 0x30)
  {
  }

  // ---------------------------------------------------------------------------
  // Weekday (register 0x07): a raw 0..6, no BCD
  // ---------------------------------------------------------------------------

  function DecodeWeekday(b: Byte): (w: nat)
    ensures w <= 7
  {
    (b & 0x07) as nat
  }

  /** `get_weekday(as_str=True)`: the name of the weekday; 7 is past the table's end. */
  function WeekdayName(b: Byte): (r: Result<string>)
    ensures r.Ok? <==> DecodeWeekday(b) < 7
    ensures r.Ok? ==> r.value in WeekdayNames && r.value == WeekdayNames[DecodeWeekday(b)]
    ensures r.Err? ==> r.error == IndexError
  {
    PyIndex(WeekdayNames, DecodeWeekday(b))
  }

  /** A number below 8 survives the conversion to a byte and the weekday mask. */
  lemma SmallByte(n: nat)
    requires n < 8
    ensures ((n as Byte) & 0x07) as nat == n
  {
  }

  /** The first half of `set_weekday`: a name becomes its position in the table. */
  function WeekdayNumber(v: Value): (r: Result<Value>)
    ensures r.Ok? <==> v.Int? || v.s in WeekdayNames
    ensures r.Ok? ==> r.value.Int?
    ensures r.Ok? && v.Int? ==> r.value == v
    ensures r.Ok? && v.Str? ==> 0 <= r.value.n < 7 && WeekdayNames[r.value.n] == v.s
    ensures r.Err? ==> r.error == ValueError
  {
    match v
    case Str(s) => if s in WeekdayNames then Ok(Int(Index(WeekdayNames, s))) else Err(ValueError)
    case Int(_) => Ok(v)
  }

  /** `set_weekday`: after the name lookup, 0..6 is accepted and stored as is. */
  function EncodeWeekday(v: Value): (r: Result<Byte>)
    ensures r.Ok? <==> InRange(v, 0, 7) || (v.Str? && v.s in WeekdayNames)
    ensures r.Err? ==> r.error == ValueError
    ensures r.Ok? ==> r.value < 7
    ensures r.Ok? && v.Int? ==> DecodeWeekday(r.value) == v.n
    ensures r.Ok? && v.Str? ==> WeekdayName(r.value) == Ok(v.s)
  {
    match WeekdayNumber(v)
    case Err(e) => Err(e)
    case Ok(w) =>
      if !InRange(w, 0, 7) then Err(ValueError)
      else
        SmallByte(w.n);
        Ok(w.n as Byte)
  }

  // ---------------------------------------------------------------------------
  // Month (register 0x08): tens in bit 4
  // ---------------------------------------------------------------------------

  function DecodeMonth(b: Byte): (m: nat)
    ensures m <= 25
  {
    UnpackBcd(b, 0x10)
  }

  /**
   * `get_month(as_str=True)`: `MONTH_STR[month - 1]`.  Month 0 indexes -1 and
   * so reads as the last name; a month above 12 raises.
   */
  function MonthName(b: Byte): (r: Result<string>)
    ensures r.Ok? <==> DecodeMonth(b) <= 12
    ensures 1 <= DecodeMonth(b) <= 12 ==> r == Ok(MonthNames[DecodeMonth(b) - 1])
    ensures DecodeMonth(b) == 0 ==> r == Ok("DEC")
    ensures r.Err? ==> r.error == IndexError
  {
    PyIndex(MonthNames, DecodeMonth(b) as int - 1)
  }

  /** The first half of `set_month`: a name becomes its position in the table plus one. */
  function MonthNumber(v: Value): (r: Result<Value>)
    ensures r.Ok? <==> v.Int? || v.s in MonthNames
    ensures r.Ok? ==> r.value.Int?
    ensures r.Ok? && v.Int? ==> r.value == v
    ensures r.Ok? && v.Str? ==> 1 <= r.value.n <= 12 && MonthNames[r.value.n - 1] == v.s
    ensures r.Err? ==> r.error == ValueError
  {
    match v
    case Str(s) => if s in MonthNames then Ok(Int(Index(MonthNames, s) + 1)) else Err(ValueError)
    case Int(_) => Ok(v)
  }

  /** `set_month`: after the name lookup, 1..12 is accepted. */
  function EncodeMonth(v: Value): (r: Result<Byte>)
    ensures r.Ok? <==> InRange(v, 1, 13) || (v.Str? && v.s in MonthNames)
    ensures r.Err? ==> r.error == ValueError
    ensures r.Ok? ==> IsBcd(r.value, 0x10) && 1 <= DecodeMonth(r.value) <= 12
    ensures r.Ok? && v.Int? ==> DecodeMonth(r.value) == v.n
    ensures r.Ok? && v.Str? ==> MonthName(r.value) == Ok(v.s)
  {
    match MonthNumber(v)
    case Err(e) => Err(e)
    case Ok(m) =>
      if !InRange(m, 1, 13) then Err(ValueError)
      else
        MonthPacking(m.n);
        Ok(PackBcd(m.n))
  }

  lemma MonthPacking(m: nat)
    requires 1 <= m <= 12
    ensures IsBcd(PackBcd(m), 0x10) && DecodeMonth(PackBcd(m)) == m
  {
  }

  // ---------------------------------------------------------------------------
  // Year (register 0x09): offset from 1970, tens in bits 4-7
  // ---------------------------------------------------------------------------

  function DecodeYear(b: Byte): (y: nat)
    ensures 1970 <= y <= 2135
  {
    UnpackBcd(b, 0xF0) + 1970
  }

  /** `set_year`: only 1970..2119 is accepted (`range(1970, 2120)`), stored as `year - 1970`. */
  function EncodeYear(v: Value): (r: Result<Byte>)
    ensures r.Ok? <==> InRange(v, 1970, 2120)
    ensures r.Err? ==> r.error == ValueError
    ensures r.Ok? ==> DecodeYear(r.value) == v.n && IsBcd(r.value, 0xF0)
  {
    if !InRange(v, 1970, 2120) then Err(ValueError)
    else Ok(PackBcd(v.n - 1970))
  }

  /** 2019 is stored as 0x49; 2120..2129 are rejected although the year register holds them. */
  lemma YearLayout()
    ensures EncodeYear(Int(2019)) == Ok(0x49)
    ensures EncodeYear(Int(2120)) == Err(ValueError) && EncodeYear(Int(1969)) == Err(ValueError)
    ensures DecodeYear(PackBcd(2129 - 1970)) == 2129 && IsBcd(PackBcd(2129 - 1970), 0xF0)
  {
  }

  // ---------------------------------------------------------------------------
  // Round trips from the register side
  // ---------------------------------------------------------------------------

  /** A second or minute byte that `set_second` can write is rewritten identically from its reading. */
  lemma SecondMinuteReadThenWrite(b: Byte)
    requires IsBcd(b, 0x70) && DecodeSecond(b) < 60
    ensures EncodeSecond(Int(DecodeSecond(b))) == Ok(b)
    ensures EncodeMinute(Int(DecodeMinute(b))) == Ok(b)
  {
    PackUnpack(b, 0x70);
  }

  /** The same for a 24h hour byte and a day byte. */
  lemma HourDayReadThenWrite(b: Byte)
    requires IsBcd(b, 0x30)
    ensures DecodeHour(b, 0) < 24 ==> EncodeHour(Int(DecodeHour(b, 0)), 0) == Ok(b)
    ensures 1 <= DecodeDay(b) <= 30 ==> EncodeDay(Int(DecodeDay(b))) == Ok(b)
  {
    PackUnpack(b, 0x30);
  }

  /** The same for a month byte. */
  lemma MonthReadThenWrite(b: Byte)
    requires IsBcd(b, 0x10) && 1 <= DecodeMonth(b) <= 12
    ensures EncodeMonth(Int(DecodeMonth(b))) == Ok(b)
  {
  }

  /** The same for a year byte. */
  lemma YearReadThenWrite(b: Byte)
    requires IsBcd(b, 0xF0) && DecodeYear(b) < 2120
    ensures EncodeYear(Int(DecodeYear(b))) == Ok(b)
  {
    PackUnpack(b, 0xF0);
  }

  /** The same for a weekday byte. */
  lemma WeekdayReadThenWrite(b: Byte)
    requires b < 7
    ensures EncodeWeekday(Int(DecodeWeekday(b))) == Ok(b)
  {
  }

  /** No two entries of a name table coincide. */
  predicate Distinct(names: seq<string>) {
    forall j, k :: 0 <= j < k < |names| ==> names[j] != names[k]
  }

  /** In a table of distinct names, each name is found at its own position. */
  lemma IndexOfEntry(names: seq<string>, i: nat)
    requires i < |names| && Distinct(names)
    ensures Index(names, names[i]) == i
  {
  }

  lemma WeekdayNamesDistinct()
    ensures Distinct(WeekdayNames)
  {
  }

  lemma MonthNamesDistinct()
    ensures Distinct(MonthNames)
  {
  }

  /** A weekday read by name and written back by name restores the register. */
  lemma WeekdayNameRoundTrip(b: Byte)
    requires b < 7
    ensures WeekdayName(b).Ok? && EncodeWeekday(Str(WeekdayName(b).value)) == Ok(b)
  {
  }

  /** Writing a month by its name is writing it by its number. */
  lemma MonthByName(m: nat)
    requires 1 <= m <= 12
    ensures EncodeMonth(Str(MonthNames[m - 1])) == EncodeMonth(Int(m))
  {
    MonthNamesDistinct();
    IndexOfEntry(MonthNames, m - 1);
  }

  /** A month read by name and written back by name restores a register `set_month` wrote. */
  lemma MonthNameRoundTrip(b: Byte)
    requires IsBcd(b, 0x10) && 1 <= DecodeMonth(b) <= 12
    ensures MonthName(b).Ok? && EncodeMonth(Str(MonthName(b).value)) == Ok(b)
  {
    MonthByName(DecodeMonth(b));
    MonthReadThenWrite(b);
  }
}
