# PCF8523 real-time-clock driver, modelled in Dafny

This project models the MicroPython driver for the NXP PCF8523 real-time clock
(`RTCom/PCF8523.py`, class `RTC`). The driver reaches the chip's ten registers
over an I2C bus. Registers 0x00-0x02 are control registers. Registers 0x03-0x09
hold second, minute, hour, day, weekday, month and year. The model has two layers:

- `codec.dfy`, module `RegisterCodec`: the pure half of every getter and setter.
  - Setters validate a value, split it with `divmod(v, 10)` and pack it as
    `(tens << 4) | digit`.
  - Getters mask the tens and units bits out of a byte and recombine them.
  - It also holds the weekday and month name tables, Python's `list.index`,
    and Python's negative list indexing.
  - Registers are `bv8`, so the masks read exactly as in the driver.
- `driver.dfy`, module `ClockDriver`:
  - the read-modify-write control-bit operations, as functions on bytes;
  - `now`, `set_time` and `init`, as functions on the register file;
  - the class `Rtc`. Its `regs: array<bv8>` of length 10 is the chip as the bus
    sees it. Its `scan` is the set of addresses the bus's `scan()` reports.
  - Each method of `Rtc` reads or overwrites cells of `regs` as the driver does
    over the bus. Its `ensures` ties the new register file and the outcome to
    the functions above.

Python's dynamic arguments are modelled as datatypes:
- a setter argument is `Value = Int(n) | Str(s)`;
- a boolean switch is `Flag = Boolean(b) | NotBool`;
- a raised exception is `Error = ValueError | IndexError | RuntimeError`.

Setters, `set_time` and `init` return an `Outcome`, either `Pass` or `Fail(error)`.
A failure leaves every earlier write in place, as in the driver: `set_time` and
`init` are not atomic. `Step(outcome, regs).Then(addr, encoding)` is the single
definition of "write if nothing has raised yet".

Behaviour kept as the code has it, where the docstrings say otherwise:
- `set_day` accepts 1..30 (`range(1, 31)`), although its docstring and the day
  register allow 31 (`DayThirtyOneRejected`).
- `set_year` accepts 1970..2119 (`range(1970, 2120)`), although its docstring
  and error message say 2129 (`YearLayout`).
- `get_month(as_str=True)` on a month register reading 0 returns `"DEC"`,
  because Python reads index -1 from the end. A reading above 12, or a weekday
  reading of 7 under `get_weekday(as_str=True)`, raises `IndexError`.
- In 12h mode, `set_hour` stores 12 as 0x12, 13 as 0x21 and 23 as 0x31.
  `get_hour` in the same mode reads every hour 0..23 back (`EncodeHour`,
  `TwelveHourLayout`).
- `init` always checks that address 104 answers the bus scan. It raises
  `RuntimeError` before any write when it does not.
- The exceptions are the driver's own `ValueError`, `RuntimeError` and
  `IndexError`. No dedicated range or device error types exist.

## Model

| member | source | states |
|---|---|---|
| `RegisterCodec.Index` | RTCom/PCF8523.py:433-439 | `list.index`: a position of the name, and no earlier position holds it |
| `RegisterCodec.IndexOfEntry` | RTCom/PCF8523.py:29-30 | in a table of distinct names, `list.index` of the entry at a position is that position |
| `RegisterCodec.WeekdayNamesDistinct` | RTCom/PCF8523.py:29 | the seven weekday names are pairwise distinct |
| `RegisterCodec.MonthNamesDistinct` | RTCom/PCF8523.py:30 | the twelve month names are pairwise distinct |
| `RegisterCodec.PyIndex` | RTCom/PCF8523.py:306-307 | list subscript: exactly the indices -n..n-1 succeed, giving the entry at the index modulo n (so -1 is the last); any other raises `IndexError` |
| `RegisterCodec.PackBcd` | RTCom/PCF8523.py:339-343 | the high nibble holds `v / 10`, the low nibble `v % 10` |
| `RegisterCodec.UnpackBcd` | RTCom/PCF8523.py:203-207 | the reading is bounded by the width of the tens mask |
| `RegisterCodec.PackOfNibbles` | RTCom/PCF8523.py:339-343 | packing the number a byte's nibbles spell gives that byte |
| `RegisterCodec.PackUnpack` | RTCom/PCF8523.py:203-207 | for every byte a setter can produce, unpacking then packing is the identity |
| `RegisterCodec.DecodeSecond` | RTCom/PCF8523.py:201-207 | `get_second` reads at most 85 from any byte (tens 0-7, units 0-15) |
| `RegisterCodec.EncodeSecond` | RTCom/PCF8523.py:330-346 | accepted exactly for ints 0..59, otherwise `ValueError`; `DecodeSecond` gives the value back; the byte is valid BCD |
| `RegisterCodec.DecodeMinute` | RTCom/PCF8523.py:217-224 | `get_minute` reads at most 85 from any byte |
| `RegisterCodec.EncodeMinute` | RTCom/PCF8523.py:349-365 | accepted exactly for ints 0..59, otherwise `ValueError`; `DecodeMinute` gives the value back |
| `RegisterCodec.SecondMinuteReadThenWrite` | RTCom/PCF8523.py:194-225 | a valid second/minute byte is rewritten identically from its own reading |
| `RegisterCodec.ModeBit` | RTCom/PCF8523.py:528-534 | `__get_bit_12_24` is 0 or 1, and 1 exactly when bit 3 of control 1 is set |
| `RegisterCodec.DecodeHour` | RTCom/PCF8523.py:238-248 | `get_hour` reads at most 45 in 24h mode and at most 37 in 12h mode |
| `RegisterCodec.PackHour12` | RTCom/PCF8523.py:386-400 | the 12h layout decodes back to the hour in 12h mode; bit 5 (meridiem) is set exactly above 12 |
| `RegisterCodec.EncodeHour` | RTCom/PCF8523.py:368-403 | accepted exactly for ints 0..23 in both modes, otherwise `ValueError`; under the same mode `DecodeHour` gives the hour back |
| `RegisterCodec.TwelveHourLayout` | RTCom/PCF8523.py:386-400 | 0 -> 0x00, 12 -> 0x12, 13 -> 0x21, 23 -> 0x31 in 12h mode; 23 -> 0x23 in 24h mode |
| `RegisterCodec.HourDayReadThenWrite` | RTCom/PCF8523.py:238-242 | a valid 24h hour byte or day byte is rewritten identically from its own reading |
| `RegisterCodec.DecodeDay` | RTCom/PCF8523.py:260-267 | `get_day` reads at most 45 from any byte |
| `RegisterCodec.EncodeDay` | RTCom/PCF8523.py:406-424 | accepted exactly for ints 1..30, otherwise `ValueError`; `DecodeDay` gives the value back |
| `RegisterCodec.DayThirtyOneRejected` | RTCom/PCF8523.py:414 | days 31 and 0 raise, though the day layout holds 31 |
| `RegisterCodec.DecodeWeekday` | RTCom/PCF8523.py:279-282 | `get_weekday` reads 0..7 (three bits) |
| `RegisterCodec.WeekdayName` | RTCom/PCF8523.py:284-285 | a name exactly when the reading is below 7, and it is the table entry at the reading; 7 raises `IndexError` |
| `RegisterCodec.WeekdayNumber` | RTCom/PCF8523.py:433-439 | an int passes through; a known name becomes its table position; an unknown name raises `ValueError` |
| `RegisterCodec.EncodeWeekday` | RTCom/PCF8523.py:427-445 | accepted exactly for ints 0..6 and the seven names; stored unpacked below 7; read back as the int, or by name as the name |
| `RegisterCodec.WeekdayReadThenWrite` | RTCom/PCF8523.py:279-282 | a weekday byte below 7 is rewritten identically from its reading |
| `RegisterCodec.WeekdayNameRoundTrip` | RTCom/PCF8523.py:284-285 | a weekday read by name and written back by name restores the register |
| `RegisterCodec.DecodeMonth` | RTCom/PCF8523.py:298-304 | `get_month` reads at most 25 (one tens bit) |
| `RegisterCodec.MonthName` | RTCom/PCF8523.py:306-307 | a name exactly when the reading is at most 12: entry `month - 1` for 1..12, `"DEC"` for 0; above 12 raises `IndexError` |
| `RegisterCodec.MonthNumber` | RTCom/PCF8523.py:456-462 | an int passes through; a known name becomes its position plus one; an unknown name raises `ValueError` |
| `RegisterCodec.EncodeMonth` | RTCom/PCF8523.py:448-475 | accepted exactly for ints 1..12 and the twelve names; read back as the int, or by name as the name |
| `RegisterCodec.MonthByName` | RTCom/PCF8523.py:456-458 | writing a month by name writes the same byte as writing its number |
| `RegisterCodec.MonthReadThenWrite` | RTCom/PCF8523.py:298-304 | a valid month byte is rewritten identically from its reading |
| `RegisterCodec.MonthNameRoundTrip` | RTCom/PCF8523.py:306-307 | a month read by name and written back by name restores the register |
| `RegisterCodec.DecodeYear` | RTCom/PCF8523.py:318-325 | `get_year` reads 1970..2135 from any byte |
| `RegisterCodec.EncodeYear` | RTCom/PCF8523.py:479-497 | accepted exactly for ints 1970..2119, otherwise `ValueError`; `DecodeYear` gives the year back |
| `RegisterCodec.YearLayout` | RTCom/PCF8523.py:486-494 | 2019 is stored as 0x49; 1969 and 2120 raise, though 2129 fits the layout |
| `RegisterCodec.YearReadThenWrite` | RTCom/PCF8523.py:318-325 | a valid year byte below 2120 is rewritten identically from its reading |
| `ClockDriver.Step.Then` | RTCom/PCF8523.py:509-513 | a register write after a validation: nothing once raised; a failed encoding raises and writes nothing; otherwise only `addr` changes |
| `ClockDriver.With24Mode` | RTCom/PCF8523.py:516-525 | bit 3 of control 1 cleared, so the mode bit reads 0; all other bits kept |
| `ClockDriver.WithSwitchOver` | RTCom/PCF8523.py:87-100 | bit 3 cleared; bits 5-7 cleared when activating and set when deactivating; bits 0, 1, 2 and 4 kept |
| `ClockDriver.SwitchOverWrite` | RTCom/PCF8523.py:93-102 | a non-boolean raises `ValueError`; a boolean gives the masked byte above |
| `ClockDriver.WithInterrupt` | RTCom/PCF8523.py:113-123 | bit 0 set to enable and cleared to disable; bits 1-7 kept |
| `ClockDriver.VbatInterruptWrite` | RTCom/PCF8523.py:116-125 | a non-boolean raises `ValueError`; a boolean gives the masked byte above |
| `ClockDriver.LowBatteryFlag` | RTCom/PCF8523.py:137-142 | true exactly when bit 2 of control 3 is set |
| `ClockDriver.ConfigurationKeepsBatteryLow` | RTCom/PCF8523.py:82-142 | configuring the switch-over or the interrupt never changes what `battery_low` reports |
| `ClockDriver.ControlSettingsIndependent` | RTCom/PCF8523.py:82-128 | the switch-over and interrupt settings commute, and each is idempotent |
| `ClockDriver.NowOf` | RTCom/PCF8523.py:147-158 | eight fields, the last two 0, each within its getter's bounds |
| `ClockDriver.SetTimeEffect` | RTCom/PCF8523.py:161-189 | control and weekday registers are never touched; a tuple shorter than 3 raises |
| `ClockDriver.SetTimeSucceeds` | RTCom/PCF8523.py:161-189 | `set_time` returns exactly when all six fields, with the defaults, are accepted |
| `ClockDriver.SetTimeThenNow` | RTCom/PCF8523.py:147-189 | `now()` after a successful `set_time((y, mo, d, h, mi, s))` returns `(y, mo, d, h, mi, s, 0, 0)` in either hour mode |
| `ClockDriver.SetTimeShortTuple` | RTCom/PCF8523.py:165-171 | a tuple without year, month and day raises `IndexError` exactly when every field present is accepted, `ValueError` otherwise |
| `ClockDriver.SetTimeIgnoresExtra` | RTCom/PCF8523.py:165-166 | positions after the sixth are ignored |
| `ClockDriver.SetTimeDefaults` | RTCom/PCF8523.py:173-189 | a missing hour, minute or second is the same as 0 |
| `ClockDriver.InitEffect` | RTCom/PCF8523.py:54-77 | no device at address 104 raises `RuntimeError` with the registers untouched |
| `ClockDriver.InitForces24h` | RTCom/PCF8523.py:66-67 | with the device present, `init` leaves 24h mode set and keeps the other control-1 bits, even if a later step raises |
| `ClockDriver.InitOutcome` | RTCom/PCF8523.py:54-77 | with the device present and boolean switches, `init` returns exactly when no datetime is given or `set_time` accepts it in 24h mode; control 3 ends with the switch-over and then the interrupt setting applied |
| `ClockDriver.InitExample` | RTCom/PCF8523.py:54-77 | `init((2015, 10, 21, 16, 29, 0, 0, 0), switch_over=False)` succeeds; bits 5-7 of control 3 set; bits 0 and 3 clear; `now()` returns the tuple |
| `ClockDriver.Rtc.constructor` | RTCom/PCF8523.py:40-50 | a driver on a given bus: the register file and scan answer are as given |
| `ClockDriver.Rtc.ReadRegister` | RTCom/PCF8523.py:502-506 | returns the addressed register |
| `ClockDriver.Rtc.WriteRegister` | RTCom/PCF8523.py:509-513 | overwrites exactly the addressed register |
| `ClockDriver.Rtc.Commit` | RTCom/PCF8523.py:336-346 | raises on a failed encoding without writing, writes the byte otherwise (`Then`) |
| `ClockDriver.Rtc.Enable24Mode` | RTCom/PCF8523.py:516-525 | control 1 becomes `With24Mode` of its old value; no other register changes |
| `ClockDriver.Rtc.GetBit1224` | RTCom/PCF8523.py:528-534 | the mode bit of the current control 1 |
| `ClockDriver.Rtc.BatterySwitchOver` | RTCom/PCF8523.py:82-105 | control 3 rewritten by `SwitchOverWrite`; a non-boolean raises with nothing written |
| `ClockDriver.Rtc.VbatInterrupt` | RTCom/PCF8523.py:108-128 | control 3 rewritten by `VbatInterruptWrite`; a non-boolean raises with nothing written |
| `ClockDriver.Rtc.BatteryLow` | RTCom/PCF8523.py:131-142 | true exactly when bit 2 of control 3 is set |
| `ClockDriver.Rtc.GetSecond` | RTCom/PCF8523.py:194-207 | `DecodeSecond` of the second register |
| `ClockDriver.Rtc.GetMinute` | RTCom/PCF8523.py:210-224 | `DecodeMinute` of the minute register |
| `ClockDriver.Rtc.GetHour` | RTCom/PCF8523.py:227-250 | `DecodeHour` of the hour register in the mode control 1 selects |
| `ClockDriver.Rtc.GetDay` | RTCom/PCF8523.py:253-267 | `DecodeDay` of the day register |
| `ClockDriver.Rtc.GetWeekday` | RTCom/PCF8523.py:270-287 | the number; or, with `as_str`, the name when the reading is below 7 and `IndexError` otherwise |
| `ClockDriver.Rtc.GetMonth` | RTCom/PCF8523.py:290-309 | the number; or, with `as_str`, `MonthName` when the reading is at most 12 and `IndexError` otherwise |
| `ClockDriver.Rtc.GetYear` | RTCom/PCF8523.py:312-325 | `DecodeYear` of the year register |
| `ClockDriver.Rtc.SetSecond` | RTCom/PCF8523.py:330-346 | the second register receives `EncodeSecond`, or `ValueError` with nothing written |
| `ClockDriver.Rtc.SetMinute` | RTCom/PCF8523.py:349-365 | the minute register receives `EncodeMinute`, or `ValueError` with nothing written |
| `ClockDriver.Rtc.SetHour` | RTCom/PCF8523.py:368-403 | the hour register receives `EncodeHour` in the mode of the old control 1, or `ValueError` with nothing written |
| `ClockDriver.Rtc.SetDay` | RTCom/PCF8523.py:406-424 | the day register receives `EncodeDay`, or `ValueError` with nothing written |
| `ClockDriver.Rtc.SetWeekday` | RTCom/PCF8523.py:427-445 | the weekday register receives `EncodeWeekday`, or `ValueError` with nothing written |
| `ClockDriver.Rtc.SetMonth` | RTCom/PCF8523.py:448-475 | the month register receives `EncodeMonth`, or `ValueError` with nothing written |
| `ClockDriver.Rtc.SetYear` | RTCom/PCF8523.py:479-497 | the year register receives `EncodeYear`, or `ValueError` with nothing written |
| `ClockDriver.Rtc.Now` | RTCom/PCF8523.py:147-158 | returns `NowOf` of the register file |
| `ClockDriver.Rtc.SetTime` | RTCom/PCF8523.py:161-189 | the outcome and the register file are `SetTimeEffect` of the old register file |
| `ClockDriver.Rtc.Init` | RTCom/PCF8523.py:54-77 | the outcome and the register file are `InitEffect` of the old register file and the scan answer |

## Left out

- The construction of the default bus, `I2C(0, I2C.MASTER, baudrate=10000)`, when no bus is passed in. This is hardware set-up; the constructor takes the scan answer and the register contents instead.
- `struct.pack`/`struct.unpack` in the register helpers, the bus's `readfrom_mem`/`writeto_mem`, and transport failures. A register is one `bv8` cell of `regs`, and a read or write cannot fail.
- Sharing one bus between several driver instances, and concurrent access. The driver holds no state of its own, so this is outside the model.
- Python argument types other than int and str for field setters, such as floats or bools, which `range` membership and `int()` would also accept. Likewise the `as_str` switch of the getters is a `bool`; the driver tests it with `is True`.
- Default arguments: `init`'s `datetime=None, switch_over=True, vbat_interrupt=False`, the `activate=True` of `battery_switch_over` and `vbat_interrupt`, and the getters' `as_str=False` are passed explicitly to `Rtc.Init`, `Rtc.BatterySwitchOver`, `Rtc.VbatInterrupt`, `Rtc.GetWeekday` and `Rtc.GetMonth`.
- The unused `DAYS_IN_MONTH` table and the alarm registers, which the driver never implements. There is no calendar consistency check to model: the day is not checked against the month.
- The example script `examples/example_PCF8523.py`, an endless print loop. `ClockDriver.InitExample` covers the `init` call it makes.
