/** The real-time clock library (Vim3RealTimeClockLib) over the HYM8563: BCD time
    registers, setting the chip with its counter halted, and the time served from
    the anchor. */
module Rtc {
  import Arith
  import opened AoI2c
  import opened Efi
  import opened Wrappers

  const ADDRESS := 0x51
  const REG_CTL1 := 0x00
  const REG_TIME := 0x02
  const CTL1_STOP := 0x20
  const SEC_VL := 0x80
  const MON_CENTURY := 0x80
  const TIME_BYTES := 7
  const CHIP_REGS := 16
  const WORD64 := 0x1_0000_0000_0000_0000

  datatype Time = Time(year: nat, month: nat, day: nat, hour: nat, minute: nat, second: nat)

  /** Calendar fields in range, in the two centuries the chip can tell apart. */
  predicate Encodable(t: Time) {
    && 2000 <= t.year <= 2199 && 1 <= t.month <= 12 && 1 <= t.day <= 31
    && t.hour < 24 && t.minute < 60 && t.second < 60
  }

  function Bcd(x: nat): nat {
    x / 10 * 16 + x % 10
  }

  function FromBcd(b: nat): nat {
    b / 16 * 10 + b % 16
  }

  function Century(t: Time): nat {
    if t.year >= 2100 then 2100 else 2000
  }

  /** The seven registers that hold a time. */
  function Encoded(t: Time, weekday: nat): (r: seq<nat>)
    requires Encodable(t)
    ensures |r| == TIME_BYTES
  {
    [Bcd(t.second), Bcd(t.minute), Bcd(t.hour), Bcd(t.day), weekday,
     Bcd(t.month) + (if t.year >= 2100 then MON_CENTURY else 0), Bcd(t.year - Century(t))]
  }

  method TimeToRegisters(t: Time, weekday: nat, registers: array<nat>)
    requires Encodable(t) && registers.Length == TIME_BYTES
    modifies registers
    ensures registers[..] == Encoded(t, weekday)
  {
    hide Bcd;
    var year := t.year;
    registers[0] := Bcd(t.second);
    registers[1] := Bcd(t.minute);
    registers[2] := Bcd(t.hour);
    registers[3] := Bcd(t.day);
    registers[4] := weekday;
    registers[5] := Bcd(t.month);
    if year >= 2100 {
      registers[5] := registers[5] + MON_CENTURY;
      year := year - 100;
    }
    registers[6] := Bcd(year - 2000);
  }

  /** A register read masks the bits that are flags. */
  function RegistersToTime(r: seq<nat>): (t: Time)
    requires |r| == TIME_BYTES && Below(r, 256)
  {
    var year := 2000 + FromBcd(r[6]);
    Time(if r[5] >= MON_CENTURY then year + 100 else year,
         FromBcd(r[5] % 0x20), FromBcd(r[3] % 0x40), FromBcd(r[2] % 0x40), FromBcd(r[1] % 0x80), FromBcd(r[0] % 0x80))
  }

  /** A byte of two decimal digits, the tens in the high half. */
  lemma BcdDigits(tens: nat, ones: nat)
    requires tens < 10 && ones < 10
    ensures Bcd(10 * tens + ones) == 16 * tens + ones && FromBcd(16 * tens + ones) == 10 * tens + ones
  {
  }

  lemma BcdBack(x: nat)
    requires x < 100
    ensures FromBcd(Bcd(x)) == x && Bcd(x) <= 0x99
    ensures x < 80 ==> Bcd(x) < 0x80
    ensures x < 40 ==> Bcd(x) < 0x40
    ensures x < 20 ==> Bcd(x) < 0x20
  {
  }

  /** A mask wider than the digits changes nothing; the month's also drops the flag. */
  lemma Masked(b: nat)
    ensures b < 0x80 ==> b % 0x80 == b
    ensures b < 0x40 ==> b % 0x40 == b
    ensures b < 0x20 ==> b % 0x20 == b && (b + MON_CENTURY) % 0x20 == b
  {
  }

  lemma EncodedBytes(t: Time, weekday: nat)
    requires Encodable(t) && weekday < 7
    ensures Below(Encoded(t, weekday), 256) && Encoded(t, weekday)[0] < SEC_VL
  {
  }

  /** What the registers hold is read back as the time that was set, and the
      voltage-low flag is clear. */
  lemma RegistersRoundTrip(t: Time, weekday: nat)
    requires Encodable(t) && weekday < 7
    ensures Below(Encoded(t, weekday), 256) && RegistersToTime(Encoded(t, weekday)) == t
    ensures Encoded(t, weekday)[0] < SEC_VL
  {
    hide Bcd, FromBcd, Below;
    EncodedBytes(t, weekday);
    BcdBack(t.second);
    BcdBack(t.minute);
    BcdBack(t.hour);
    BcdBack(t.day);
    BcdBack(t.month);
    BcdBack(t.year - Century(t));
    Masked(Bcd(t.second));
    Masked(Bcd(t.minute));
    Masked(Bcd(t.hour));
    Masked(Bcd(t.day));
    Masked(Bcd(t.month));
  }

  // ---- Setting the chip ------------------------------------------------------------

  predicate Halted(control: nat) {
    control / CTL1_STOP % 2 == 1
  }

  function WithStop(control: nat): nat {
    if Halted(control) then control else control + CTL1_STOP
  }

  function WithoutStop(control: nat): nat {
    if Halted(control) then control - CTL1_STOP else control
  }

  lemma StopBit(control: nat)
    requires control < 256
    ensures Halted(WithStop(control)) && WithStop(control) < 256
    ensures !Halted(WithoutStop(WithStop(control)))
    ensures WithoutStop(WithStop(control)) == WithoutStop(control) < 256
  {
  }

  /** How each transfer of a SetTime goes. */
  datatype Faults = Faults(point: Fault, read: Fault, stop: Fault, time: Fault, release: Fault)
  {
    predicate TimeWritten() {
      point.NoFault? && read.NoFault? && stop.NoFault? && time.NoFault?
    }

    /** Whether the counter ends halted: as it was unless the stop reached the chip,
        and then unless the stop was also reported and the release arrived. */
    predicate LeftHalted(before: bool) {
      if !(point.NoFault? && read.NoFault?) || !Delivered(stop) then before
      else !stop.NoFault? || !Delivered(release)
    }
  }

  /** The one payload byte of the transfer reached the chip. */
  predicate Delivered(fault: Fault) {
    fault.NoFault? || fault.cut >= 4
  }

  class RealTimeClock {
    const bus: Bus
    var present: bool
    var epochAnchor: nat
    var counterAnchor: nat
    var counterFrequency: nat

    ghost predicate Valid()
      reads this, bus
    {
      bus.Valid() && ADDRESS in bus.devices && |bus.devices[ADDRESS].regs| == CHIP_REGS
    }

    /** Before the chip is read, time is anchored on the build's epoch. */
    constructor (bus: Bus, buildEpoch: nat, counter: nat, frequency: nat)
      ensures this.bus == bus && !present
      ensures epochAnchor == buildEpoch && counterAnchor == counter && counterFrequency == frequency
    {
      this.bus := bus;
      present := false;
      epochAnchor, counterAnchor, counterFrequency := buildEpoch, counter, frequency;
    }

    ghost function Regs(): seq<nat>
      reads this, bus
      requires Valid()
    {
      bus.devices[ADDRESS].regs
    }

    method LibSetTime(time: Option<Time>, valid: bool, runtime: bool, weekday: nat, epoch: nat, counter: nat,
                      faults: Faults)
      returns (status: Status)
      requires Valid() && weekday < 7
      requires valid && time.Some? ==> Encodable(time.value)
      modifies this, bus
      ensures Valid()
      ensures status == InvalidParameter <==> time.None? || !valid
      ensures status == Unsupported <==> time.Some? && valid && (runtime || !present)
      ensures status in {InvalidParameter, Unsupported} ==> bus.devices == old(bus.devices)
      ensures present == old(present) && counterFrequency == old(counterFrequency)
      ensures status == Success <==> time.Some? && valid && !runtime && present && faults.TimeWritten()
      ensures if status == Success then epochAnchor == epoch && counterAnchor == counter
              else epochAnchor == old(epochAnchor) && counterAnchor == old(counterAnchor)
      ensures status == Success ==> Regs()[REG_TIME..REG_TIME + TIME_BYTES] == Encoded(time.value, weekday)
      ensures Halted(Regs()[REG_CTL1]) <==>
                if status in {InvalidParameter, Unsupported} then old(Halted(Regs()[REG_CTL1]))
                else faults.LeftHalted(old(Halted(Regs()[REG_CTL1])))
      ensures forall i :: 0 <= i < CHIP_REGS && i != REG_CTL1 && !(REG_TIME <= i < REG_TIME + TIME_BYTES) ==>
                Regs()[i] == old(Regs()[i])
    {
      if time.None? || !valid {
        return InvalidParameter;
      }
      if runtime || !present {
        return Unsupported;
      }
      var registers := new nat[TIME_BYTES];
      TimeToRegisters(time.value, weekday, registers);
      RegistersRoundTrip(time.value, weekday);
      status := SetChip(registers[..], faults);
      if status != Success {
        return;
      }
      epochAnchor, counterAnchor := epoch, counter;
    }

    /** Outside the control and time registers the chip keeps what it held, and the
        outcome is that of the transfers up to the time write: a lost release goes
        unreported, and an error reported for a stop that arrived leaves it in force. */
    method SetChip(registers: seq<nat>, faults: Faults) returns (status: Status)
      requires Valid() && |registers| == TIME_BYTES && Below(registers, 256)
      modifies bus
      ensures Valid() && status in {Success, DeviceError, Timeout}
      ensures status == Success <==> faults.TimeWritten()
      ensures status == Success ==> Regs()[REG_TIME..REG_TIME + TIME_BYTES] == registers
      ensures Halted(Regs()[REG_CTL1]) <==> faults.LeftHalted(old(Halted(Regs()[REG_CTL1])))
      ensures forall i :: 0 <= i < CHIP_REGS && i != REG_CTL1 && !(REG_TIME <= i < REG_TIME + TIME_BYTES) ==>
                Regs()[i] == old(Regs()[i])
    {
      var control;
      status, control := bus.Read(ADDRESS, REG_CTL1, 1, (faults.point, faults.read));
      if status != Success {
        return;
      }
      StopBit(control[0]);
      status := WriteControl(WithStop(control[0]), faults.stop);
      if status != Success {
        return;
      }
      status := WriteHalted(registers, faults.time);
      var ignored := WriteControl(WithoutStop(WithStop(control[0])), faults.release);
    }

    method WriteControl(control: nat, fault: Fault) returns (status: Status)
      requires Valid() && control < 256
      modifies bus
      ensures Valid() && status == StatusOf(fault)
      ensures Regs() == if Delivered(fault) then old(Regs())[REG_CTL1 := control] else old(Regs())
    {
      status := bus.Write(ADDRESS, REG_CTL1, [control], fault);
      assert Arrived([control], fault) == if Delivered(fault) then [control] else [];
      assert [control][1..] == [];
    }

    /** Demands a halted counter, and leaves every register but the time as it was,
        wherever the transfer is cut. */
    method WriteHalted(registers: seq<nat>, fault: Fault) returns (status: Status)
      requires Valid() && Halted(Regs()[REG_CTL1]) && |registers| == TIME_BYTES && Below(registers, 256)
      modifies bus
      ensures Valid() && status == StatusOf(fault)
      ensures status == Success ==> Regs()[REG_TIME..REG_TIME + TIME_BYTES] == registers
      ensures forall i :: 0 <= i < CHIP_REGS && !(REG_TIME <= i < REG_TIME + TIME_BYTES) ==> Regs()[i] == old(Regs()[i])
    {
      StoredSlice(Regs(), REG_TIME, Arrived(registers, fault));
      status := bus.Write(ADDRESS, REG_TIME, registers, fault);
    }

    /** Read the chip once and anchor on it, unless it says its count is worthless or
        holds no date. `IsTimeValid` and the epoch of a time are the time library's. */
    method AnchorFromRtc(isTimeValid: Time -> bool, epochOf: Time -> nat, counter: nat, faults: (Fault, Fault))
      returns (status: Status)
      requires Valid()
      modifies this, bus
      ensures Valid() && Regs() == old(Regs()) && counterFrequency == old(counterFrequency)
      ensures status == Success <==> faults == (NoFault, NoFault)
      ensures present <==> old(present) || status == Success
      ensures var r := old(Regs())[REG_TIME..REG_TIME + TIME_BYTES];
        if status == Success && r[0] < SEC_VL && isTimeValid(RegistersToTime(r))
        then epochAnchor == epochOf(RegistersToTime(r)) && counterAnchor == counter
        else epochAnchor == old(epochAnchor) && counterAnchor == old(counterAnchor)
    {
      LoadedIsSlice(Regs(), REG_TIME, TIME_BYTES);
      var registers;
      status, registers := bus.Read(ADDRESS, REG_TIME, TIME_BYTES, faults);
      if status != Success {
        return;
      }
      present := true;
      if registers[0] >= SEC_VL {
        return;
      }
      var t := RegistersToTime(registers);
      if !isTimeValid(t) {
        return;
      }
      epochAnchor, counterAnchor := epochOf(t), counter;
    }

    /** Served from the anchor and the counter alone: no bus. */
    method LibGetTime(counter: nat, wanted: bool) returns (status: Status, epoch: nat)
      requires counter < WORD64
      ensures status == if !wanted then InvalidParameter else if counterFrequency == 0 then DeviceError else Success
      ensures status == Success ==> epoch == Served(epochAnchor, counterAnchor, counterFrequency, counter)
    {
      epoch := 0;
      if !wanted {
        return InvalidParameter, epoch;
      }
      if counterFrequency == 0 {
        return DeviceError, epoch;
      }
      var elapsed := (counter - counterAnchor) % WORD64 / counterFrequency;
      return Success, (epochAnchor + elapsed) % WORD64;
    }

    /** Set the time, then start again from the chip, at some later reading of the
        counter: the time set is anchored there, even if the release was lost. */
    method SetThenAnchor(t: Time, weekday: nat, isTimeValid: Time -> bool, epochOf: Time -> nat, epoch: nat,
                         counter: nat, later: nat, faults: Faults)
      returns (status: Status)
      requires Valid() && weekday < 7 && Encodable(t) && isTimeValid(t) && present && faults.TimeWritten()
      modifies this, bus
      ensures status == Success && epochAnchor == epochOf(t) && counterAnchor == later
    {
      status := LibSetTime(Some(t), true, false, weekday, epoch, counter, faults);
      RegistersRoundTrip(t, weekday);
      status := AnchorFromRtc(isTimeValid, epochOf, later, (NoFault, NoFault));
    }
  }

  function Served(epochAnchor: nat, counterAnchor: nat, frequency: nat, counter: nat): nat
    requires frequency > 0
  {
    (epochAnchor + (counter - counterAnchor) % WORD64 / frequency) % WORD64
  }

  /** Time served never goes back, and two readings differ by the whole seconds
      between them, or one more where a second ends in between - also when the
      counter has wrapped since the anchor. */
  lemma ServedAdvances(epochAnchor: nat, counterAnchor: nat, frequency: nat, since: nat, later: nat)
    requires frequency > 0 && counterAnchor < WORD64 && since <= later < WORD64
    requires epochAnchor + later / frequency < WORD64
    ensures var a := Served(epochAnchor, counterAnchor, frequency, (counterAnchor + since) % WORD64);
      var b := Served(epochAnchor, counterAnchor, frequency, (counterAnchor + later) % WORD64);
      a == epochAnchor + since / frequency
      && (later - since) / frequency <= b - a <= (later - since) / frequency + 1
  {
    WrapBack(counterAnchor, since);
    WrapBack(counterAnchor, later);
    Arith.DivDifference(since, later, frequency);
  }

  lemma WrapBack(anchor: nat, since: nat)
    requires anchor < WORD64 && since < WORD64
    ensures ((anchor + since) % WORD64 - anchor) % WORD64 == since
  {
  }
}
