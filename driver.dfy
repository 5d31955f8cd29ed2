/**
 * The PCF8523 driver proper: the chip's register file seen through the bus,
 * the read-modify-write control-bit operations, the per-field getters and
 * setters, and the whole-datetime operations `now`, `set_time` and `init`.
 */
module ClockDriver {
  import opened RegisterCodec

  /** The chip's fixed bus address. */
  const Address: int := 104

  const Control1: nat := 0x00
  const Control2: nat := 0x01
  const Control3: nat := 0x02
  const SecondReg: nat := 0x03
  const MinuteReg: nat := 0x04
  const HourReg: nat := 0x05
  const DayReg: nat := 0x06
  const WeekdayReg: nat := 0x07
  const MonthReg: nat := 0x08
  const YearReg: nat := 0x09
  const RegisterCount: nat := 10

  datatype Option<T> = None | Some(value: T)

  /** How an operation ended: it returned, or it raised. */
  datatype Outcome = Pass | Fail(error: Error)

  /** The register file after a sequence of writes, and whether the sequence raised. */
  datatype Step = Step(outcome: Outcome, regs: seq<Byte>) {

    /**
     * The next write of a sequence: none once the sequence has raised; a
     * failed encoding raises and writes nothing; otherwise exactly `addr`
     * changes.
     */
    function Then(addr: nat, e: Result<Byte>): (r: Step)
      requires addr < |regs|
      ensures |r.regs| == |regs|
      ensures r.outcome.Pass? <==> outcome.Pass? && e.Ok?
      ensures outcome.Pass? && e.Err? ==> r.outcome == Fail(e.error)
      ensures outcome.Fail? ==> r == this
      ensures r.outcome.Pass? ==> r.regs[addr] == e.value
      ensures forall i :: 0 <= i < |regs| && (i != addr || r.outcome.Fail?) ==> r.regs[i] == regs[i]
    {
      if outcome.Fail? then this
      else if e.Err? then Step(Fail(e.error), regs)
      else Step(Pass, regs[addr := e.value])
    }
  }

  // ---------------------------------------------------------------------------
  // Control bits
  // ---------------------------------------------------------------------------

  /** `__enable_24_mode`: bit 3 of control register 1 cleared, every other bit kept. */
  function With24Mode(ctrl1: Byte): (r: Byte)
    ensures ModeBit(r) == 0
    ensures r & 0xF7 == ctrl1 & 0xF7
  {
    ctrl1 & 0xF7
  }

  /**
   * `battery_switch_over` on a boolean: bit 3 (the interrupt flag) cleared,
   * bits 5-7 cleared to activate the switch-over and set to deactivate it,
   * bits 0, 1, 2 and 4 kept.
   */
  function WithSwitchOver(ctrl3: Byte, activate: bool): (r: Byte)
    ensures r & 0x17 == ctrl3 & 0x17
    ensures r & 0x08 == 0
    ensures r & 0xE0 == if activate then 0x00 else 0xE0
  {
    var cleared := ctrl3 & 0xF7;
    if activate then cleared & 0x1F else cleared | 0xE0
  }

  /** `battery_switch_over`: anything but a boolean raises before the write. */
  function SwitchOverWrite(ctrl3: Byte, activate: Flag): (r: Result<Byte>)
    ensures r.Ok? <==> activate.Boolean?
    ensures r.Err? ==> r.error == ValueError
    ensures r.Ok? ==> r.value & 0x17 == ctrl3 & 0x17 && r.value & 0x08 == 0
    ensures r.Ok? ==> r.value & 0xE0 == if activate.b then 0x00 else 0xE0
  {
    match activate
    case Boolean(b) => Ok(WithSwitchOver(ctrl3, b))
    case NotBool => Err(ValueError)
  }

  /** `vbat_interrupt` on a boolean: bit 0 set to enable, cleared to disable, all else kept. */
  function WithInterrupt(ctrl3: Byte, activate: bool): (r: Byte)
    ensures r & 0xFE == ctrl3 & 0xFE
    ensures r & 0x01 == if activate then 0x01 else 0x00
  {
    if activate then ctrl3 | 0x01 else ctrl3 & 0xFE
  }

  /** `vbat_interrupt`: anything but a boolean raises before the write. */
  function VbatInterruptWrite(ctrl3: Byte, activate: Flag): (r: Result<Byte>)
    ensures r.Ok? <==> activate.Boolean?
    ensures r.Err? ==> r.error == ValueError
    ensures r.Ok? ==> r.value & 0xFE == ctrl3 & 0xFE
    ensures r.Ok? ==> r.value & 0x01 == if activate.b then 0x01 else 0x00
  {
    match activate
    case Boolean(b) => Ok(WithInterrupt(ctrl3, b))
    case NotBool => Err(ValueError)
  }

  /** `battery_low`: the battery-low flag, bit 2 of control register 3. */
  function LowBatteryFlag(ctrl3: Byte): (low: bool)
    ensures low <==> ctrl3 & 0x04 != 0
  {
    (ctrl3 & 0x04) >> 2 == 1
  }

  /** Configuring the switch-over or the interrupt never changes what `battery_low` reports. */
  lemma ConfigurationKeepsBatteryLow(ctrl3: Byte, activate: bool)
    ensures LowBatteryFlag(WithSwitchOver(ctrl3, activate)) == LowBatteryFlag(ctrl3)
    ensures LowBatteryFlag(WithInterrupt(ctrl3, activate)) == LowBatteryFlag(ctrl3)
  {
  }

  /**
   * The two control-register-3 settings touch disjoint bits: applying them
   * in either order gives the same byte, and applying either twice is applying it once.
   */
  lemma ControlSettingsIndependent(ctrl3: Byte, switchOver: bool, interrupt: bool)
    ensures WithInterrupt(WithSwitchOver(ctrl3, switchOver), interrupt)
         == WithSwitchOver(WithInterrupt(ctrl3, interrupt), switchOver)
    ensures WithSwitchOver(WithSwitchOver(ctrl3, switchOver), switchOver) == WithSwitchOver(ctrl3, switchOver)
    ensures WithInterrupt(WithInterrupt(ctrl3, interrupt), interrupt) == WithInterrupt(ctrl3, interrupt)
  {
  }

  // ---------------------------------------------------------------------------
  // The whole datetime
  // ---------------------------------------------------------------------------

  /** `now()`: (year, month, day, hour, minute, second, 0, 0), the hour read in the current mode. */
  function NowOf(rs: seq<Byte>): (t: seq<int>)
    requires |rs| == RegisterCount
    ensures |t| == 8 && t[6] == 0 && t[7] == 0
    ensures 1970 <= t[0] <= 2135 && 0 <= t[1] <= 25 && 0 <= t[2] <= 45
    ensures 0 <= t[3] <= 45 && 0 <= t[4] <= 85 && 0 <= t[5] <= 85
  {
    [DecodeYear(rs[YearReg]), DecodeMonth(rs[MonthReg]), DecodeDay(rs[DayReg]),
     DecodeHour(rs[HourReg], ModeBit(rs[Control1])), DecodeMinute(rs[MinuteReg]),
     DecodeSecond(rs[SecondReg]), 0, 0]
  }

  /** `datetime[i]` of an optional tuple position, 0 when the tuple is shorter. */
  function PositionOrZero(dt: seq<Value>, i: nat): Value
  {
    if i < |dt| then dt[i] else Int(0)
  }

  /** Encoding a required position: a missing position raises before the encoder runs. */
  function EncodeRequired(dt: seq<Value>, i: nat, encode: Value -> Result<Byte>): Result<Byte>
  {
    if i < |dt| then encode(dt[i]) else Err(IndexError)
  }

  /**
   * `set_time`: year, month and day from positions 0-2, then hour, minute and
   * second from positions 3-5 or 0; later positions are ignored.  The writes
   * happen in that order and stop at the first that raises, so the fields
   * written before it keep their new values.
   */
  function SetTimeEffect(rs: seq<Byte>, dt: seq<Value>): (s: Step)
    requires |rs| == RegisterCount
    ensures |s.regs| == RegisterCount
    ensures s.regs[Control1] == rs[Control1] && s.regs[Control2] == rs[Control2]
    ensures s.regs[Control3] == rs[Control3] && s.regs[WeekdayReg] == rs[WeekdayReg]
    ensures |dt| < 3 ==> s.outcome.Fail?
  {
    var mode := ModeBit(rs[Control1]);
    Step(Pass, rs)
      .Then(YearReg, EncodeRequired(dt, 0, EncodeYear))
      .Then(MonthReg, EncodeRequired(dt, 1, EncodeMonth))
      .Then(DayReg, EncodeRequired(dt, 2, EncodeDay))
      .Then(HourReg, EncodeHour(PositionOrZero(dt, 3), mode))
      .Then(MinuteReg, EncodeMinute(PositionOrZero(dt, 4)))
      .Then(SecondReg, EncodeSecond(PositionOrZero(dt, 5)))
  }

  /**
   * `init`: nothing is written when the device does not answer the scan;
   * otherwise 24h mode, then the switch-over, then the interrupt, then the
   * datetime if one is given, each step only if the previous one returned.
   */
  function InitEffect(rs: seq<Byte>, scan: set<int>, datetime: Option<seq<Value>>,
                      switchOver: Flag, vbatInterrupt: Flag): (s: Step)
    requires |rs| == RegisterCount
    ensures |s.regs| == RegisterCount
    ensures Address !in scan ==> s == Step(Fail(RuntimeError), rs)
  {
    if Address !in scan then Step(Fail(RuntimeError), rs)
    else
      var s1 := Step(Pass, rs).Then(Control1, Ok(With24Mode(rs[Control1])));
      var s2 := s1.Then(Control3, SwitchOverWrite(s1.regs[Control3], switchOver));
      var s3 := s2.Then(Control3, VbatInterruptWrite(s2.regs[Control3], vbatInterrupt));
      if s3.outcome.Fail? || datetime.None? then s3 else SetTimeEffect(s3.regs, datetime.value)
  }

  // ---------------------------------------------------------------------------
  // Properties of the whole-datetime operations
  // ---------------------------------------------------------------------------

  /** The fields `set_time` accepts, read from positions 0-5 with the defaults of the optional ones. */
  predicate AcceptedTime(dt: seq<Value>, mode: Byte) {
    && |dt| >= 3
    && EncodeYear(dt[0]).Ok? && EncodeMonth(dt[1]).Ok? && EncodeDay(dt[2]).Ok?
    && EncodeHour(PositionOrZero(dt, 3), mode).Ok?
    && EncodeMinute(PositionOrZero(dt, 4)).Ok? && EncodeSecond(PositionOrZero(dt, 5)).Ok?
  }

  /** `set_time` returns exactly when every field it writes is accepted; otherwise it raises. */
  lemma SetTimeSucceeds(rs: seq<Byte>, dt: seq<Value>)
    requires |rs| == RegisterCount
    ensures SetTimeEffect(rs, dt).outcome.Pass? <==> AcceptedTime(dt, ModeBit(rs[Control1]))
  {
  }

  /**
   * A full tuple of in-range numbers written by `set_time` is what `now()`
   * reads back, in either hour mode, with the two trailing fields 0.
   */
  lemma SetTimeThenNow(rs: seq<Byte>, year: int, month: int, day: int, hour: int, minute: int, second: int)
    requires |rs| == RegisterCount
    requires 1970 <= year < 2120 && 1 <= month <= 12 && 1 <= day <= 30
    requires 0 <= hour < 24 && 0 <= minute < 60 && 0 <= second < 60
    ensures var s := SetTimeEffect(rs, [Int(year), Int(month), Int(day), Int(hour), Int(minute), Int(second)]);
      s.outcome == Pass && NowOf(s.regs) == [year, month, day, hour, minute, second, 0, 0]
  {
  }

  /**
   * A tuple without year, month and day raises: `IndexError` at the first
   * missing position, unless a field present before it already raised
   * `ValueError`; an empty tuple always gives `IndexError`.
   */
  lemma SetTimeShortTuple(rs: seq<Byte>, dt: seq<Value>)
    requires |rs| == RegisterCount && |dt| < 3
    ensures var s := SetTimeEffect(rs, dt);
      (s.outcome == Fail(IndexError) <==> forall i :: 0 <= i < |dt| ==> [EncodeYear, EncodeMonth, EncodeDay][i](dt[i]).Ok?)
      && (s.outcome == Fail(IndexError) || s.outcome == Fail(ValueError))
  {
  }

  /** Positions after the sixth are never looked at. */
  lemma SetTimeIgnoresExtra(rs: seq<Byte>, dt: seq<Value>)
    requires |rs| == RegisterCount && |dt| > 6
    ensures SetTimeEffect(rs, dt) == SetTimeEffect(rs, dt[..6])
  {
  }

  /** A missing hour, minute or second is written as 0. */
  lemma SetTimeDefaults(rs: seq<Byte>, dt: seq<Value>)
    requires |rs| == RegisterCount && 3 <= |dt| < 6
    ensures SetTimeEffect(rs, dt) == SetTimeEffect(rs, dt + seq(6 - |dt|, _ => Int(0)))
  {
  }

  /**
   * Once the device answers, `init` leaves the chip in 24h mode with the
   * other bits of control register 1 kept, even when a later step raises.
   */
  lemma InitForces24h(rs: seq<Byte>, scan: set<int>, datetime: Option<seq<Value>>,
                      switchOver: Flag, vbatInterrupt: Flag)
    requires |rs| == RegisterCount && Address in scan
    ensures var s := InitEffect(rs, scan, datetime, switchOver, vbatInterrupt);
      ModeBit(s.regs[Control1]) == 0 && s.regs[Control1] & 0xF7 == rs[Control1] & 0xF7
  {
    var s1 := Step(Pass, rs).Then(Control1, Ok(With24Mode(rs[Control1])));
    var s2 := s1.Then(Control3, SwitchOverWrite(s1.regs[Control3], switchOver));
    var s3 := s2.Then(Control3, VbatInterruptWrite(s2.regs[Control3], vbatInterrupt));
    assert s3.regs[Control1] == With24Mode(rs[Control1]);
    if s3.outcome.Pass? && datetime.Some? {
      assert SetTimeEffect(s3.regs, datetime.value).regs[Control1] == s3.regs[Control1];
    }
  }

  /**
   * Once the device answers, `init` returns exactly when no datetime is given
   * or `set_time` accepts it in 24h mode, and control register 3 ends with
   * the switch-over and then the interrupt setting applied, whatever follows.
   */
  lemma InitOutcome(rs: seq<Byte>, scan: set<int>, datetime: Option<seq<Value>>,
                    switchOver: bool, vbatInterrupt: bool)
    requires |rs| == RegisterCount && Address in scan
    ensures var s := InitEffect(rs, scan, datetime, Boolean(switchOver), Boolean(vbatInterrupt));
      && (s.outcome.Pass? <==> datetime.None? || AcceptedTime(datetime.value, 0))
      && s.regs[Control3] == WithInterrupt(WithSwitchOver(rs[Control3], switchOver), vbatInterrupt)
  {
  }

  /**
   * `init(datetime, switch_over=False)` as the driver's example script calls
   * it: switch-over bits 5-7 set, interrupt bit 0 cleared, and `now()`
   * reading back the date and time given.
   */
  lemma InitExample(rs: seq<Byte>, scan: set<int>)
    requires |rs| == RegisterCount && Address in scan
    ensures var s := InitEffect(rs, scan, Some([Int(2015), Int(10), Int(21), Int(16), Int(29), Int(0), Int(0), Int(0)]),
                                Boolean(false), Boolean(false));
      && s.outcome == Pass
      && s.regs[Control3] & 0xE0 == 0xE0 && s.regs[Control3] & 0x09 == 0
      && NowOf(s.regs) == [2015, 10, 21, 16, 29, 0, 0, 0]
  {
  }

  // ---------------------------------------------------------------------------
  // The driver object
  // ---------------------------------------------------------------------------

  /** `RTC`: the driver holds no state of its own; every operation goes to the chip's registers. */
  class Rtc {
    /** The chip's registers 0x00-0x09, one byte each, as the bus reads and writes them. */
    const regs: array<Byte>
    /** The addresses that answer the bus's `scan()`. */
    const scan: set<int>

    ghost predicate Valid() {
      regs.Length == RegisterCount
    }

    /** A driver on a bus whose scan answers `devices` and whose chip holds `contents`. */
    constructor (devices: set<int>, contents: seq<Byte>)
      requires |contents| == RegisterCount
      ensures Valid() && fresh(regs)
      ensures regs[..] == contents && scan == devices
    {
      regs := new Byte[RegisterCount](i requires 0 <= i < RegisterCount => contents[i]);
      scan := devices;
    }

    /** `__read_register`: one byte from the chip. */
    method ReadRegister(addr: nat) returns (v: Byte)
      requires Valid() && addr < RegisterCount
      ensures v == regs[addr]
    {
      v := regs[addr];
    }

    /** `__write_register`: one register overwritten, every other one kept. */
    method WriteRegister(addr: nat, v: Byte)
      requires Valid() && addr < RegisterCount
      modifies regs
      ensures regs[..] == old(regs[..])[addr := v]
    {
      regs[addr] := v;
    }

    /** A setter's tail: raise on a failed encoding, write the byte otherwise. */
    method Commit(addr: nat, e: Result<Byte>) returns (r: Outcome)
      requires Valid() && addr < RegisterCount
      modifies regs
      ensures Step(r, regs[..]) == Step(Pass, old(regs[..])).Then(addr, e)
    {
      if e.Err? {
        return Fail(e.error);
      }
      WriteRegister(addr, e.value);
      r := Pass;
    }

    // ----- control bits -----

    method Enable24Mode()
      requires Valid()
      modifies regs
      ensures regs[..] == old(regs[..])[Control1 := With24Mode(old(regs[Control1]))]
    {
      var ctrl1 := ReadRegister(Control1);
      WriteRegister(Control1, With24Mode(ctrl1));
    }

    method GetBit1224() returns (bit: Byte)
      requires Valid()
      ensures bit == ModeBit(regs[Control1])
    {
      var ctrl1 := ReadRegister(Control1);
      bit := ModeBit(ctrl1);
    }

    method BatterySwitchOver(activate: Flag) returns (r: Outcome)
      requires Valid()
      modifies regs
      ensures Step(r, regs[..])
           == Step(Pass, old(regs[..])).Then(Control3, SwitchOverWrite(old(regs[Control3]), activate))
      ensures activate.NotBool? ==> r == Fail(ValueError) && regs[..] == old(regs[..])
    {
      var ctrl3 := ReadRegister(Control3);
      r := Commit(Control3, SwitchOverWrite(ctrl3, activate));
    }

    method VbatInterrupt(activate: Flag) returns (r: Outcome)
      requires Valid()
      modifies regs
      ensures Step(r, regs[..])
           == Step(Pass, old(regs[..])).Then(Control3, VbatInterruptWrite(old(regs[Control3]), activate))
      ensures activate.NotBool? ==> r == Fail(ValueError) && regs[..] == old(regs[..])
    {
      var ctrl3 := ReadRegister(Control3);
      r := Commit(Control3, VbatInterruptWrite(ctrl3, activate));
    }

    method BatteryLow() returns (low: bool)
      requires Valid()
      ensures low <==> regs[Control3] & 0x04 != 0
    {
      var ctrl3 := ReadRegister(Control3);
      low := LowBatteryFlag(ctrl3);
    }

    // ----- field getters -----

    method GetSecond() returns (s: nat)
      requires Valid()
      ensures s == DecodeSecond(regs[SecondReg])
    {
      var b := ReadRegister(SecondReg);
      s := DecodeSecond(b);
    }

    method GetMinute() returns (m: nat)
      requires Valid()
      ensures m == DecodeMinute(regs[MinuteReg])
    {
      var b := ReadRegister(MinuteReg);
      m := DecodeMinute(b);
    }

    method GetHour() returns (h: nat)
      requires Valid()
      ensures h == DecodeHour(regs[HourReg], ModeBit(regs[Control1]))
    {
      var b := ReadRegister(HourReg);
      var mode := GetBit1224();
      h := DecodeHour(b, mode);
    }

    method GetDay() returns (d: nat)
      requires Valid()
      ensures d == DecodeDay(regs[DayReg])
    {
      var b := ReadRegister(DayReg);
      d := DecodeDay(b);
    }

    /** `get_weekday(as_str)`: the number, or its name; weekday 7 has no name and raises. */
    method GetWeekday(asStr: bool) returns (r: Result<Value>)
      requires Valid()
      ensures !asStr ==> r == Ok(Int(DecodeWeekday(regs[WeekdayReg])))
      ensures asStr ==> (r.Ok? <==> DecodeWeekday(regs[WeekdayReg]) < 7)
      ensures asStr && r.Ok? ==> r.value == Str(WeekdayNames[DecodeWeekday(regs[WeekdayReg])])
      ensures r.Err? ==> r.error == IndexError
    {
      var b := ReadRegister(WeekdayReg);
      if !asStr {
        return Ok(Int(DecodeWeekday(b)));
      }
      match WeekdayName(b)
      case Ok(name) => r := Ok(Str(name));
      case Err(e) => r := Err(e);
    }

    /**
     * `get_month(as_str)`: the number, or the name at position month - 1,
     * which for month 0 is the last name and for a month above 12 raises.
     */
    method GetMonth(asStr: bool) returns (r: Result<Value>)
      requires Valid()
      ensures !asStr ==> r == Ok(Int(DecodeMonth(regs[MonthReg])))
      ensures asStr ==> (r.Ok? <==> DecodeMonth(regs[MonthReg]) <= 12)
      ensures asStr && r.Ok? ==> r.value == Str(MonthName(regs[MonthReg]).value)
      ensures r.Err? ==> r.error == IndexError
    {
      var b := ReadRegister(MonthReg);
      if !asStr {
        return Ok(Int(DecodeMonth(b)));
      }
      match MonthName(b)
      case Ok(name) => r := Ok(Str(name));
      case Err(e) => r := Err(e);
    }

    method GetYear() returns (y: nat)
      requires Valid()
      ensures y == DecodeYear(regs[YearReg])
    {
      var b := ReadRegister(YearReg);
      y := DecodeYear(b);
    }

    // ----- field setters -----

    method SetSecond(v: Value) returns (r: Outcome)
      requires Valid()
      modifies regs
      ensures Step(r, regs[..]) == Step(Pass, old(regs[..])).Then(SecondReg, EncodeSecond(v))
    {
      r := Commit(SecondReg, EncodeSecond(v));
    }

    method SetMinute(v: Value) returns (r: Outcome)
      requires Valid()
      modifies regs
      ensures Step(r, regs[..]) == Step(Pass, old(regs[..])).Then(MinuteReg, EncodeMinute(v))
    {
      r := Commit(MinuteReg, EncodeMinute(v));
    }

    /** `set_hour`: the range is checked before the mode bit is read. */
    method SetHour(v: Value) returns (r: Outcome)
      requires Valid()
      modifies regs
      ensures Step(r, regs[..])
           == Step(Pass, old(regs[..])).Then(HourReg, EncodeHour(v, ModeBit(old(regs[Control1]))))
    {
      if !InRange(v, 0, 24) {
        return Fail(ValueError);
      }
      var mode := GetBit1224();
      r := Commit(HourReg, EncodeHour(v, mode));
    }

    method SetDay(v: Value) returns (r: Outcome)
      requires Valid()
      modifies regs
      ensures Step(r, regs[..]) == Step(Pass, old(regs[..])).Then(DayReg, EncodeDay(v))
    {
      r := Commit(DayReg, EncodeDay(v));
    }

    method SetWeekday(v: Value) returns (r: Outcome)
      requires Valid()
      modifies regs
      ensures Step(r, regs[..]) == Step(Pass, old(regs[..])).Then(WeekdayReg, EncodeWeekday(v))
    {
      r := Commit(WeekdayReg, EncodeWeekday(v));
    }

    method SetMonth(v: Value) returns (r: Outcome)
      requires Valid()
      modifies regs
      ensures Step(r, regs[..]) == Step(Pass, old(regs[..])).Then(MonthReg, EncodeMonth(v))
    {
      r := Commit(MonthReg, EncodeMonth(v));
    }

    method SetYear(v: Value) returns (r: Outcome)
      requires Valid()
      modifies regs
      ensures Step(r, regs[..]) == Step(Pass, old(regs[..])).Then(YearReg, EncodeYear(v))
    {
      r := Commit(YearReg, EncodeYear(v));
    }

    // ----- whole datetime -----

    method Now() returns (t: seq<int>)
      requires Valid()
      ensures t == NowOf(regs[..])
    {
      var year := GetYear();
      var month := GetMonth(false);
      var day := GetDay();
      var hour := GetHour();
      var minute := GetMinute();
      var second := GetSecond();
      t := [year, month.value.n, day, hour, minute, second, 0, 0];
    }

    method SetTime(dt: seq<Value>) returns (r: Outcome)
      requires Valid()
      modifies regs
      ensures Step(r, regs[..]) == SetTimeEffect(old(regs[..]), dt)
    {
      ghost var s := Step(Pass, regs[..]);
      ghost var mode := ModeBit(regs[Control1]);
      s := s.Then(YearReg, EncodeRequired(dt, 0, EncodeYear));
      if |dt| < 1 {
        return Fail(IndexError);
      }
      r := SetYear(dt[0]);
      if r.Fail? {
        return;
      }
      s := s.Then(MonthReg, EncodeRequired(dt, 1, EncodeMonth));
      if |dt| < 2 {
        return Fail(IndexError);
      }
      r := SetMonth(dt[1]);
      if r.Fail? {
        return;
      }
      s := s.Then(DayReg, EncodeRequired(dt, 2, EncodeDay));
      if |dt| < 3 {
        return Fail(IndexError);
      }
      r := SetDay(dt[2]);
      if r.Fail? {
        return;
      }
      s := s.Then(HourReg, EncodeHour(PositionOrZero(dt, 3), mode));
      r := SetHour(PositionOrZero(dt, 3));
      if r.Fail? {
        return;
      }
      s := s.Then(MinuteReg, EncodeMinute(PositionOrZero(dt, 4)));
      r := SetMinute(PositionOrZero(dt, 4));
      if r.Fail? {
        return;
      }
      s := s.Then(SecondReg, EncodeSecond(PositionOrZero(dt, 5)));
      r := SetSecond(PositionOrZero(dt, 5));
    }

    method Init(datetime: Option<seq<Value>>, switchOver: Flag, vbatInterrupt: Flag) returns (r: Outcome)
      requires Valid()
      modifies regs
      ensures Step(r, regs[..]) == InitEffect(old(regs[..]), scan, datetime, switchOver, vbatInterrupt)
    {
      if Address !in scan {
        return Fail(RuntimeError);
      }
      Enable24Mode();
      r := BatterySwitchOver(switchOver);
      if r.Fail? {
        return;
      }
      r := VbatInterrupt(vbatInterrupt);
      if r.Fail? {
        return;
      }
      if datetime.Some? {
        r := SetTime(datetime.value);
      }
    }
  }
}
