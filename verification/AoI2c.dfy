/** The always-on I2C bus library (Vim3AoI2cLib): token lists and data windows
    packed into registers, and what the controller and a slave make of them.

    Registers are numbers; a bitwise OR into empty bits is an addition. */
module AoI2c {
  import Arith
  import opened Efi
  import opened Sequences

  const MAX_READ := 8
  const MAX_WRITE := 7
  const TOKENS_PER_LIST := 8
  const WAIT_POLLS := 100000

  const START: nat := 1
  const ADDR_WRITE: nat := 2
  const ADDR_READ: nat := 3
  const DATA: nat := 4
  const DATA_LAST: nat := 5
  const STOP: nat := 6

  type Octet = x: int | 0 <= x < 256

  // ---- Digits --------------------------------------------------------------------

  function Pow(base: nat, n: nat): nat {
    if n == 0 then 1 else base * Pow(base, n - 1)
  }

  /** The number with these digits, least first. */
  function Value(digits: seq<nat>, base: nat): nat {
    if digits == [] then 0 else digits[0] + base * Value(digits[1..], base)
  }

  function Digits(x: nat, base: nat, n: nat): (r: seq<nat>)
    requires base > 0
    ensures |r| == n
    decreases n
  {
    if n == 0 then [] else [Arith.Mod(x, base)] + Digits(Arith.Div(x, base), base, n - 1)
  }

  predicate Below(digits: seq<nat>, base: nat) {
    forall i :: 0 <= i < |digits| ==> digits[i] < base
  }

  function Zeros(n: nat): (r: seq<nat>)
    ensures |r| == n
  {
    seq(n, _ => 0)
  }

  /** A digit above all others is added at its own weight; below it nothing moves. */
  lemma {:induction false} ValueAppend(digits: seq<nat>, t: nat, base: nat)
    requires base > 0 && Below(digits, base)
    ensures Value(digits + [t], base) == Value(digits, base) + t * Pow(base, |digits|)
    ensures Value(digits, base) < Pow(base, |digits|)
  {
    if digits != [] {
      assert (digits + [t])[1..] == digits[1..] + [t];
      ValueAppend(digits[1..], t, base);
      var v, p := Value(digits[1..], base), Pow(base, |digits| - 1);
      Arith.Weighted(base, v, t, p);
      Arith.DigitBelow(digits[0], v, p, base);
    } else {
      assert digits + [t] == [t];
    }
  }

  /** Reading the digits back. */
  lemma {:induction false} DigitsOfValue(digits: seq<nat>, base: nat, n: nat)
    requires base > 0 && Below(digits, base) && |digits| <= n
    ensures Digits(Value(digits, base), base, n) == digits + Zeros(n - |digits|)
  {
    if n == 0 {
    } else if digits == [] {
      DigitsOfValue([], base, n - 1);
      ZeroDigit(base);
      assert Zeros(n) == [0] + Zeros(n - 1);
      assert Value([], base) == 0;
    } else {
      var v := Value(digits[1..], base);
      Arith.Quotient(digits[0], v, base);
      DigitsOfValue(digits[1..], base, n - 1);
      assert digits + Zeros(n - |digits|) == [digits[0]] + (digits[1..] + Zeros(n - |digits|));
    }
  }

  lemma ZeroDigit(base: nat)
    requires base > 0
    ensures 0 % base == 0 && 0 / base == 0
  {
  }

  /** A digit by shift and mask. */
  lemma {:induction false} DigitAt(digits: seq<nat>, base: nat, k: nat)
    requires base > 0 && Below(digits, base) && k < |digits|
    ensures Pow(base, k) > 0 && Arith.Mod(Arith.Div(Value(digits, base), Pow(base, k)), base) == digits[k]
  {
    var v := Value(digits[1..], base);
    if k == 0 {
      Arith.Quotient(digits[0], v, base);
    } else {
      DigitAt(digits[1..], base, k - 1);
      Arith.DivNested(digits[0], base, v, Pow(base, k - 1));
    }
  }

  lemma {:induction false} DigitsBelow(x: nat, base: nat, n: nat)
    requires base > 0
    ensures Below(Digits(x, base, n), base)
    decreases n
  {
    if n > 0 {
      DigitsBelow(Arith.Div(x, base), base, n - 1);
    }
  }

  // ---- Two registers side by side ---------------------------------------------------

  function First(s: seq<nat>, n: nat): (r: seq<nat>) {
    if |s| <= n then s else s[..n]
  }

  function Rest(s: seq<nat>, n: nat): (r: seq<nat>) {
    if |s| <= n then [] else s[n..]
  }

  /** Two registers hold these digits, `per` in each, from the lowest on. */
  ghost predicate Packed(r0: nat, r1: nat, digits: seq<nat>, base: nat, per: nat) {
    && |digits| <= 2 * per && Below(digits, base)
    && r0 == Value(First(digits, per), base) && r1 == Value(Rest(digits, per), base)
  }

  lemma PackedAppend(r0: nat, r1: nat, digits: seq<nat>, t: nat, base: nat, per: nat)
    requires base > 0 && Packed(r0, r1, digits, base, per) && |digits| < 2 * per && t < base
    ensures |digits| < per ==> Packed(r0 + t * Pow(base, |digits|), r1, digits + [t], base, per)
    ensures |digits| >= per ==> Packed(r0, r1 + t * Pow(base, |digits| - per), digits + [t], base, per)
  {
    if |digits| < per {
      ValueAppend(digits, t, base);
    } else {
      ValueAppend(Rest(digits, per), t, base);
      assert First(digits + [t], per) == First(digits, per);
      assert Rest(digits + [t], per) == Rest(digits, per) + [t];
    }
  }

  /** Every digit is read back, and zeros after them. */
  lemma PackedBack(r0: nat, r1: nat, digits: seq<nat>, base: nat, per: nat)
    requires base > 0 && Packed(r0, r1, digits, base, per)
    ensures Digits(r0, base, per) + Digits(r1, base, per) == digits + Zeros(2 * per - |digits|)
  {
    var a, b := First(digits, per), Rest(digits, per);
    DigitsOfValue(a, base, per);
    DigitsOfValue(b, base, per);
    if |digits| <= per {
      assert Zeros(per - |a|) + Zeros(per) == Zeros(2 * per - |digits|);
      assert a + Zeros(per - |a|) + (b + Zeros(per)) == digits + (Zeros(per - |a|) + Zeros(per));
    } else {
      assert a + Zeros(0) + (b + Zeros(per - |b|)) == digits + Zeros(2 * per - |digits|);
    }
  }

  /** Put a token in the slot after those already there. */
  method TokenSet(list0: nat, list1: nat, index: nat, token: nat, ghost tokens: seq<nat>)
    returns (l0: nat, l1: nat)
    requires index < 2 * TOKENS_PER_LIST && token < 16
    requires index == |tokens| && Packed(list0, list1, tokens, 16, TOKENS_PER_LIST)
    ensures Packed(l0, l1, tokens + [token], 16, TOKENS_PER_LIST)
  {
    l0, l1 := list0, list1;
    PackedAppend(list0, list1, tokens, token, 16, TOKENS_PER_LIST);
    if index < TOKENS_PER_LIST {
      l0 := list0 + token * Pow(16, index);
    } else {
      l1 := list1 + token * Pow(16, index - TOKENS_PER_LIST);
    }
  }

  // ---- The wire --------------------------------------------------------------------

  datatype Event = Start | AddressWrite | AddressRead | Put(value: nat) | GetAck | GetNack | Stop

  /** What the controller does with a token list: each data token moves a byte in
      the direction last addressed, and an end mark ends it. */
  function Interpret(tokens: seq<nat>, data: seq<nat>, reading: bool): seq<Event>
    decreases |tokens|
  {
    if tokens == [] then []
    else match tokens[0]
      case 1 => [Event.Start] + Interpret(tokens[1..], data, reading)
      case 2 => [AddressWrite] + Interpret(tokens[1..], data, false)
      case 3 => [AddressRead] + Interpret(tokens[1..], data, true)
      case 4 =>
        if reading then [GetAck] + Interpret(tokens[1..], data, reading)
        else [Put(if data == [] then 0 else data[0])] + Interpret(tokens[1..], Rest(data, 1), reading)
      case 5 => [GetNack] + Interpret(tokens[1..], data, reading)
      case 6 => [Event.Stop] + Interpret(tokens[1..], data, reading)
      case _ => []
  }

  function Puts(data: seq<nat>): (r: seq<Event>)
    ensures |r| == |data|
  {
    seq(|data|, i requires 0 <= i < |data| => Put(data[i]))
  }

  function Acks(n: nat): (r: seq<Event>)
    ensures |r| == n
  {
    seq(n, _ => GetAck)
  }

  /** Register write: the register, then the payload. */
  function WriteEvents(register: nat, payload: seq<nat>): seq<Event> {
    [Event.Start, AddressWrite] + Puts([register] + payload) + [Event.Stop]
  }

  /** Pointing the slave at a register, without a stop. */
  function PointEvents(register: nat): seq<Event> {
    [Event.Start, AddressWrite, Put(register)]
  }

  /** A read of n bytes, all but the last acknowledged. */
  function ReadEvents(n: nat): seq<Event>
    requires n > 0
  {
    [Event.Start, AddressRead] + Acks(n - 1) + [GetNack, Event.Stop]
  }

  function Repeat(token: nat, n: nat): (r: seq<nat>)
    ensures |r| == n
  {
    seq(n, _ => token)
  }

  lemma {:induction false} PutsOf(n: nat, data: seq<nat>, rest: seq<nat>)
    requires n <= |data| && rest != [] && rest[0] == STOP && (|rest| == 1 || rest[1] == 0)
    ensures Interpret(Repeat(DATA, n) + rest, data, false) == Puts(data[..n]) + [Event.Stop]
    decreases n
  {
    var tokens := Repeat(DATA, n) + rest;
    if n == 0 {
      assert tokens == rest;
      assert Interpret(rest[1..], data, false) == [];
    } else {
      assert tokens[1..] == Repeat(DATA, n - 1) + rest;
      PutsOf(n - 1, data[1..], rest);
      assert data[1..][..n - 1] == data[1..n];
      assert Puts(data[..n]) == [Put(data[0])] + Puts(data[1..n]);
    }
  }

  lemma {:induction false} AcksOf(n: nat, rest: seq<nat>, data: seq<nat>)
    requires |rest| >= 2 && rest[0] == DATA_LAST && rest[1] == STOP && (|rest| == 2 || rest[2] == 0)
    ensures Interpret(Repeat(DATA, n) + rest, data, true) == Acks(n) + [GetNack, Event.Stop]
    decreases n
  {
    var tokens := Repeat(DATA, n) + rest;
    if n == 0 {
      assert tokens == rest;
      assert rest[1..][1..] == rest[2..];
      assert Interpret(rest[2..], data, true) == [];
    } else {
      assert tokens[1..] == Repeat(DATA, n - 1) + rest;
      AcksOf(n - 1, rest, data);
      assert Acks(n) == [GetAck] + Acks(n - 1);
    }
  }

  // ---- A slave with an auto-incremented register pointer --------------------------

  datatype Slave = Slave(regs: seq<nat>, pointer: nat, pointed: bool)
  {
    predicate Valid() {
      pointer < |regs| && Below(regs, 256)
    }

    /** The register an index stands for: an index past the last goes round. */
    function At(register: nat): (p: nat)
      requires Valid()
      ensures p < |regs| && (register < |regs| ==> p == register)
    {
      Arith.ModBelow(register, |regs|);
      Arith.Mod(register, |regs|)
    }
  }

  function Step(s: Slave, e: Event): (r: Slave)
    requires s.Valid() && (e.Put? ==> e.value < 256)
    ensures r.Valid() && |r.regs| == |s.regs|
  {
    match e
    case AddressWrite => s.(pointed := false)
    case Put(b) =>
      if !s.pointed then s.(pointer := s.At(b), pointed := true)
      else s.(regs := s.regs[s.pointer := b], pointer := Bump(s.pointer, |s.regs|))
    case GetAck => s.(pointer := Bump(s.pointer, |s.regs|))
    case GetNack => s.(pointer := Bump(s.pointer, |s.regs|))
    case _ => s
  }

  function Bump(p: nat, n: nat): nat {
    if p + 1 < n then p + 1 else 0
  }

  predicate Sendable(events: seq<Event>) {
    forall i :: 0 <= i < |events| && events[i].Put? ==> events[i].value < 256
  }

  function After(s: Slave, events: seq<Event>): (r: Slave)
    requires s.Valid() && Sendable(events)
    ensures r.Valid() && |r.regs| == |s.regs|
    decreases |events|
  {
    if events == [] then s else After(Step(s, events[0]), events[1..])
  }

  /** The bytes the slave sends back. */
  function Got(s: Slave, events: seq<Event>): (r: seq<nat>)
    requires s.Valid() && Sendable(events)
    decreases |events|
  {
    if events == [] then []
    else (if events[0] in {GetAck, GetNack} then [s.regs[s.pointer]] else []) + Got(Step(s, events[0]), events[1..])
  }

  /** Registers after `payload` is stored from p on. */
  function Stored(regs: seq<nat>, p: nat, payload: seq<nat>): (r: seq<nat>)
    requires p < |regs|
    ensures |r| == |regs|
    decreases |payload|
  {
    if payload == [] then regs else Stored(regs[p := payload[0]], Bump(p, |regs|), payload[1..])
  }

  function Loaded(regs: seq<nat>, p: nat, n: nat): (r: seq<nat>)
    requires p < |regs|
    ensures |r| == n
    decreases n
  {
    if n == 0 then [] else [regs[p]] + Loaded(regs, Bump(p, |regs|), n - 1)
  }

  lemma {:induction false} AfterSum(s: Slave, a: seq<Event>, b: seq<Event>)
    requires s.Valid() && Sendable(a) && Sendable(b)
    ensures Sendable(a + b)
    ensures After(s, a + b) == After(After(s, a), b) && Got(s, a + b) == Got(s, a) + Got(After(s, a), b)
    decreases |a|
  {
    if a == [] {
      assert a + b == b;
    } else {
      assert (a + b)[1..] == a[1..] + b;
      var t := Step(s, a[0]);
      AfterSum(t, a[1..], b);
      hide Step;
      var first := if a[0] in {GetAck, GetNack} then [s.regs[s.pointer]] else [];
      assert first + (Got(t, a[1..]) + Got(After(t, a[1..]), b)) == first + Got(t, a[1..]) + Got(After(t, a[1..]), b);
    }
  }

  lemma {:induction false} AfterPuts(s: Slave, payload: seq<nat>)
    requires s.Valid() && s.pointed && Below(payload, 256)
    ensures Sendable(Puts(payload))
    ensures var t := After(s, Puts(payload)); t.regs == Stored(s.regs, s.pointer, payload) && t.pointed
    ensures Got(s, Puts(payload)) == []
    decreases |payload|
  {
    if payload != [] {
      var events := Puts(payload);
      assert events[0] == Put(payload[0]) && events[1..] == Puts(payload[1..]);
      AfterPuts(Step(s, events[0]), payload[1..]);
    }
  }

  lemma {:induction false} AfterAcks(s: Slave, n: nat)
    requires s.Valid()
    ensures After(s, Acks(n) + [GetNack, Event.Stop]).regs == s.regs
    ensures Got(s, Acks(n) + [GetNack, Event.Stop]) == Loaded(s.regs, s.pointer, n + 1)
    decreases n
  {
    var events := Acks(n) + [GetNack, Event.Stop];
    if n == 0 {
      assert events == [GetNack] + [Event.Stop];
      AfterOne(s, GetNack);
      AfterOne(Step(s, GetNack), Event.Stop);
      AfterSum(s, [GetNack], [Event.Stop]);
    } else {
      assert events[0] == GetAck && events[1..] == Acks(n - 1) + [GetNack, Event.Stop];
      AfterAcks(Step(s, GetAck), n - 1);
    }
  }

  /** A register write stores its payload from the register on. */
  lemma AfterWrite(s: Slave, register: nat, payload: seq<nat>)
    requires s.Valid() && register < 256 && Below(payload, 256)
    ensures Sendable(WriteEvents(register, payload))
    ensures After(s, WriteEvents(register, payload)).regs == Stored(s.regs, s.At(register), payload)
  {
    var events := WriteEvents(register, payload);
    assert events == PointEvents(register) + (Puts(payload) + [Event.Stop]);
    var t := AfterPoint(s, register);
    AfterPuts(t, payload);
    AfterSum(t, Puts(payload), [Event.Stop]);
    AfterSum(s, PointEvents(register), Puts(payload) + [Event.Stop]);
  }

  lemma AfterPoint(s: Slave, register: nat) returns (t: Slave)
    requires s.Valid() && register < 256
    ensures t == After(s, PointEvents(register)) == s.(pointer := s.At(register), pointed := true)
  {
    var addressed := s.(pointed := false);
    AfterTwo(s, Event.Start, AddressWrite);
    AfterOne(addressed, Put(register));
    assert PointEvents(register) == [Event.Start, AddressWrite] + [Put(register)];
    AfterSum(s, [Event.Start, AddressWrite], [Put(register)]);
    t := After(s, PointEvents(register));
  }

  lemma AfterOne(s: Slave, e: Event)
    requires s.Valid() && (e.Put? ==> e.value < 256)
    ensures After(s, [e]) == Step(s, e)
    ensures Got(s, [e]) == if e in {GetAck, GetNack} then [s.regs[s.pointer]] else []
  {
  }

  lemma AfterTwo(s: Slave, e: Event, f: Event)
    requires s.Valid() && !e.Put? && !f.Put? && e !in {GetAck, GetNack} && f !in {GetAck, GetNack}
    ensures After(s, [e, f]) == Step(Step(s, e), f) && Got(s, [e, f]) == []
  {
    AfterOne(s, e);
    AfterOne(Step(s, e), f);
    assert [e, f] == [e] + [f];
    AfterSum(s, [e], [f]);
  }

  lemma {:induction false} LoadedBelow(regs: seq<nat>, p: nat, n: nat)
    requires p < |regs| && Below(regs, 256)
    ensures Below(Loaded(regs, p, n), 256)
    decreases n
  {
    if n > 0 {
      LoadedBelow(regs, Bump(p, |regs|), n - 1);
    }
  }

  /** A pointed read returns the registers from there on. */
  lemma AfterRead(s: Slave, register: nat, n: nat)
    requires s.Valid() && register < 256 && n > 0
    ensures var t := After(s, PointEvents(register));
      After(t, ReadEvents(n)).regs == s.regs && Got(t, ReadEvents(n)) == Loaded(s.regs, s.At(register), n)
  {
    var t := AfterPoint(s, register);
    var head, tail := [Event.Start, AddressRead], Acks(n - 1) + [GetNack, Event.Stop];
    assert ReadEvents(n) == head + tail;
    hide After, Got, Loaded, Acks;
    AfterTwo(t, Event.Start, AddressRead);
    AfterAcks(t, n - 1);
    AfterSum(t, head, tail);
  }

  /** How far q lies after p, going round. */
  function Ahead(p: nat, q: nat, n: nat): int {
    if q >= p then q - p else q + n - p
  }

  lemma {:induction false} StoredKeeps(regs: seq<nat>, p: nat, payload: seq<nat>, q: nat)
    requires p < |regs| && q < |regs| && |payload| <= Ahead(p, q, |regs|)
    ensures Stored(regs, p, payload)[q] == regs[q]
    decreases |payload|
  {
    if payload != [] {
      StoredKeeps(regs[p := payload[0]], Bump(p, |regs|), payload[1..], q);
    }
  }

  /** What is written is read back. */
  lemma {:induction false} StoredLoaded(regs: seq<nat>, p: nat, payload: seq<nat>)
    requires p < |regs| && |payload| <= |regs|
    ensures Loaded(Stored(regs, p, payload), p, |payload|) == payload
    decreases |payload|
  {
    if payload != [] {
      var first := regs[p := payload[0]];
      StoredLoaded(first, Bump(p, |regs|), payload[1..]);
      if |payload| > 1 {
        StoredKeeps(first, Bump(p, |regs|), payload[1..], p);
      }
    }
  }

  // ---- The controller -----------------------------------------------------------------

  /** How a run goes: to its end, or ended by an error after `cut` of its events. */
  datatype Fault = NoFault | Fault(cut: nat, timeout: bool)

  function Cut(events: seq<Event>, fault: Fault): seq<Event> {
    if fault.Fault? && fault.cut < |events| then events[..fault.cut] else events
  }

  function StatusOf(fault: Fault): Status {
    if fault.NoFault? then Success else if fault.timeout then Timeout else DeviceError
  }

  lemma {:induction false} InterpretSendable(tokens: seq<nat>, data: seq<nat>, reading: bool)
    requires Below(data, 256)
    ensures Sendable(Interpret(tokens, data, reading))
    decreases |tokens|
  {
    if tokens != [] {
      InterpretSendable(tokens[1..], data, reading);
      InterpretSendable(tokens[1..], data, false);
      InterpretSendable(tokens[1..], data, true);
      InterpretSendable(tokens[1..], Rest(data, 1), reading);
    }
  }

  /** The events that the registers of a run stand for. */
  function Commanded(tokens0: nat, tokens1: nat, data0: nat, data1: nat): (r: seq<Event>)
    ensures Sendable(r)
  {
    var data := Digits(data0, 256, 4) + Digits(data1, 256, 4);
    assert Below(data, 256) by {
      DigitsBelow(data0, 256, 4);
      DigitsBelow(data1, 256, 4);
    }
    InterpretSendable(Digits(tokens0, 16, 8) + Digits(tokens1, 16, 8), data, false);
    Interpret(Digits(tokens0, 16, 8) + Digits(tokens1, 16, 8), data, false)
  }

  class Bus {
    var devices: map<nat, Slave>
    var rdata0: nat
    var rdata1: nat
    var started: bool

    ghost predicate Valid()
      reads this
    {
      forall a :: a in devices ==> devices[a].Valid()
    }

    /** One token list against one slave; no other slave hears it. The controller
        launches on a rising START only, whatever state it is found in. */
    method Run(address: nat, tokens0: nat, tokens1: nat, data0: nat, data1: nat, fault: Fault) returns (status: Status)
      requires Valid()
      modifies this
      ensures Valid() && !started
      ensures var events := Cut(Commanded(tokens0, tokens1, data0, data1), fault);
        if address !in old(devices) then status == DeviceError && devices == old(devices)
        else && status == StatusOf(fault)
             && devices == old(devices)[address := After(old(devices[address]), events)]
             && var got := Got(old(devices[address]), events);
                rdata0 == Value(First(got, 4), 256) && rdata1 == Value(Rest(got, 4), 256)
    {
      var late := fault.Fault? && fault.timeout && address in devices;
      var busyFor: nat := *;
      if late != (busyFor >= WAIT_POLLS) {
        busyFor := if late then WAIT_POLLS else 0;
      }
      started := false;
      SetStart(address, Cut(Commanded(tokens0, tokens1, data0, data1), fault));
      status := I2cWait(busyFor, fault.Fault? || address !in devices);
    }

    /** Only a rising START launches the events on the wire. */
    method SetStart(address: nat, events: seq<Event>)
      requires Valid() && Sendable(events)
      modifies this
      ensures Valid() && started
      ensures if old(started) || address !in old(devices)
              then devices == old(devices) && rdata0 == old(rdata0) && rdata1 == old(rdata1)
              else && devices == old(devices)[address := After(old(devices[address]), events)]
                   && var got := Got(old(devices[address]), events);
                      rdata0 == Value(First(got, 4), 256) && rdata1 == Value(Rest(got, 4), 256)
    {
      if !started && address in devices {
        var got := Got(devices[address], events);
        rdata0, rdata1 := Value(First(got, 4), 256), Value(Rest(got, 4), 256);
        devices := devices[address := After(devices[address], events)];
      }
      started := true;
    }

    /** The poll for the end of a run that is busy for `busyFor` polls and then reports
        `error`: START is taken back on every way out. */
    method I2cWait(busyFor: nat, error: bool) returns (status: Status)
      modifies this`started
      ensures !started
      ensures status == if busyFor >= 100000 then Timeout else if error then DeviceError else Success
    {
      for timeout := 0 to WAIT_POLLS
        invariant timeout <= busyFor
      {
        if timeout == busyFor {
          started := false;
          return if error then DeviceError else Success;
        }
      }
      started := false;
      return Timeout;
    }

    method Write(address: nat, register: nat, buffer: seq<nat>, fault: Fault) returns (status: Status)
      requires Valid() && register < 256 && Below(buffer, 256)
      modifies this
      ensures Valid() && devices.Keys == old(devices.Keys)
      ensures status == InvalidParameter <==> |buffer| == 0 || |buffer| > MAX_WRITE
      ensures status == InvalidParameter ==> devices == old(devices)
      ensures forall a :: a in old(devices) && a != address ==> devices[a] == old(devices[a])
      ensures status != InvalidParameter ==>
                status == (if address in old(devices) then StatusOf(fault) else DeviceError)
      ensures status != InvalidParameter && address in old(devices) ==>
                var was := old(devices[address]);
                devices[address].regs == Stored(was.regs, was.At(register), Arrived(buffer, fault))
    {
      hide Packed, Commanded;
      if |buffer| == 0 || |buffer| > MAX_WRITE {
        return InvalidParameter;
      }
      var t0, t1, d0, d1 := PackWrite(register, buffer);
      CommandedWrite(t0, t1, d0, d1, register, buffer);
      if address in devices {
        AfterCutWrite(devices[address], register, buffer, fault);
      }
      status := Run(address, t0, t1, d0, d1, fault);
    }

    method Read(address: nat, register: nat, length: nat, faults: (Fault, Fault)) returns (status: Status, buffer: seq<nat>)
      requires Valid() && register < 256
      modifies this
      ensures Valid() && devices.Keys == old(devices.Keys)
      ensures status in {Success, InvalidParameter, DeviceError, Timeout}
      ensures status == InvalidParameter <==> length == 0 || length > MAX_READ
      ensures forall a :: a in old(devices) && a != address ==> devices[a] == old(devices[a])
      ensures address in old(devices) ==> devices[address].regs == old(devices[address].regs)
      ensures status == Success <==> (0 < length <= MAX_READ && address in old(devices) && faults == (NoFault, NoFault))
      ensures status == Success ==>
                var was := old(devices[address]);
                buffer == Loaded(was.regs, was.At(register), length)
      ensures status != Success ==> buffer == []
    {
      hide Packed, Commanded, After, Got, Loaded, Cut, PointEvents, ReadEvents;
      buffer := [];
      if length == 0 || length > MAX_READ {
        return InvalidParameter, buffer;
      }
      status := Point(address, register, faults.0);
      if status != Success {
        return;
      }
      var t0, t1 := PackRead(length);
      CommandedRead(t0, t1, length);
      ReadCut(old(devices[address]), register, length, faults.1);
      status := Run(address, t0, t1, 0, 0, faults.1);
      if status != Success {
        return;
      }
      ghost var was := old(devices[address]);
      buffer := Unpack(rdata0, rdata1, length, Loaded(was.regs, was.At(register), length));
    }

    /** Leaves the slave's pointer at the register and its registers alone; the bus
        stays claimed. */
    method Point(address: nat, register: nat, fault: Fault) returns (status: Status)
      requires Valid() && register < 256
      modifies this
      ensures Valid() && devices.Keys == old(devices.Keys)
      ensures forall a :: a in old(devices) && a != address ==> devices[a] == old(devices[a])
      ensures address in old(devices) ==> devices[address].regs == old(devices[address].regs)
      ensures status == if address in old(devices) then StatusOf(fault) else DeviceError
      ensures status == Success ==> devices[address] == After(old(devices[address]), PointEvents(register))
    {
      hide Packed, Commanded;
      var t0, t1 := PackHead(ADDR_WRITE);
      t0, t1 := TokenSet(t0, t1, 2, DATA, [START, ADDR_WRITE]);
      CommandedPoint(t0, t1, register);
      if address in devices {
        PointIsQuiet(register, devices[address].pointed);
        CutKeeps(devices[address], PointEvents(register), fault);
      }
      status := Run(address, t0, t1, register, 0, fault);
    }
  }

  lemma ReadIsQuiet(n: nat, pointed: bool)
    requires n > 0
    ensures Sendable(ReadEvents(n)) && Quiet(ReadEvents(n), pointed)
  {
    NoPutIsQuiet(ReadEvents(n), pointed);
  }

  lemma ReadCut(s: Slave, register: nat, n: nat, fault: Fault)
    requires s.Valid() && register < 256 && n > 0
    ensures Sendable(PointEvents(register)) && Sendable(ReadEvents(n))
    ensures var t := After(s, PointEvents(register));
      Sendable(Cut(ReadEvents(n), fault)) && After(t, Cut(ReadEvents(n), fault)).regs == s.regs
      && (fault.NoFault? ==> Got(t, Cut(ReadEvents(n), fault)) == Loaded(s.regs, s.At(register), n))
      && Below(Loaded(s.regs, s.At(register), n), 256)
  {
    assert Sendable(PointEvents(register));
    hide After, Got, Loaded, ReadEvents, PointEvents, Quiet;
    var t := AfterPoint(s, register);
    AfterRead(s, register, n);
    LoadedBelow(s.regs, s.At(register), n);
    ReadIsQuiet(n, t.pointed);
    CutKeeps(t, ReadEvents(n), fault);
  }

  /** No byte of these events is stored: a byte put first after an address is the
      register pointer. */
  predicate Quiet(events: seq<Event>, pointed: bool)
    decreases |events|
  {
    if events == [] then true
    else match events[0]
      case AddressWrite => Quiet(events[1..], false)
      case Put(_) => !pointed && Quiet(events[1..], true)
      case _ => Quiet(events[1..], pointed)
  }

  lemma {:induction false} QuietKeeps(s: Slave, events: seq<Event>)
    requires s.Valid() && Sendable(events) && Quiet(events, s.pointed)
    ensures After(s, events).regs == s.regs
    decreases |events|
  {
    if events != [] {
      QuietKeeps(Step(s, events[0]), events[1..]);
    }
  }

  lemma {:induction false} QuietPrefix(events: seq<Event>, pointed: bool, n: nat)
    requires n <= |events| && Quiet(events, pointed)
    ensures Quiet(events[..n], pointed)
    decreases n
  {
    if n > 0 {
      var after := match events[0] case AddressWrite => false case Put(_) => true case _ => pointed;
      QuietPrefix(events[1..], after, n - 1);
      assert events[..n][1..] == events[1..][..n - 1];
    }
  }

  lemma {:induction false} NoPutIsQuiet(events: seq<Event>, pointed: bool)
    requires forall i :: 0 <= i < |events| ==> !events[i].Put?
    ensures Quiet(events, pointed)
    decreases |events|
  {
    if events != [] {
      NoPutIsQuiet(events[1..], pointed);
      NoPutIsQuiet(events[1..], false);
    }
  }

  lemma PointIsQuiet(register: nat, pointed: bool)
    ensures Quiet(PointEvents(register), pointed)
  {
    var events := PointEvents(register);
    assert events[1..] == [AddressWrite, Put(register)] && events[1..][1..] == [Put(register)];
    assert Quiet([Put(register)][1..], true);
  }

  /** A run that only points or reads stores nothing, wherever it is cut. */
  lemma CutKeeps(s: Slave, events: seq<Event>, fault: Fault)
    requires s.Valid() && Sendable(events) && Quiet(events, s.pointed)
    ensures Sendable(Cut(events, fault)) && After(s, Cut(events, fault)).regs == s.regs
  {
    QuietPrefix(events, s.pointed, |Cut(events, fault)|);
    assert events[..|events|] == events;
    QuietKeeps(s, Cut(events, fault));
  }

  /** The payload bytes of a write that arrive before it is cut. */
  function Arrived(payload: seq<nat>, fault: Fault): seq<nat> {
    if fault.NoFault? then payload else if fault.cut <= 3 then [] else First(payload, fault.cut - 3)
  }

  /** A register write that is cut stores the payload bytes that arrived. */
  lemma AfterCutWrite(s: Slave, register: nat, payload: seq<nat>, fault: Fault)
    requires s.Valid() && register < 256 && Below(payload, 256)
    ensures Sendable(Cut(WriteEvents(register, payload), fault))
    ensures After(s, Cut(WriteEvents(register, payload), fault)).regs
            == Stored(s.regs, s.At(register), Arrived(payload, fault))
  {
    var events := WriteEvents(register, payload);
    AfterWrite(s, register, payload);
    if fault.NoFault? || fault.cut >= |events| {
      assert Cut(events, fault) == events && Arrived(payload, fault) == payload;
    } else if fault.cut <= 3 {
      assert events[..fault.cut] == PointEvents(register)[..fault.cut];
      PointIsQuiet(register, s.pointed);
      QuietPrefix(PointEvents(register), s.pointed, fault.cut);
      QuietKeeps(s, events[..fault.cut]);
    } else {
      var part := payload[..fault.cut - 3];
      assert events[..fault.cut] == PointEvents(register) + Puts(part);
      assert Arrived(payload, fault) == part;
      hide After, Stored, Got, PointEvents, WriteEvents, Puts;
      var t := AfterPoint(s, register);
      AfterPuts(t, part);
      AfterSum(s, PointEvents(register), Puts(part));
    }
  }

  lemma CommandedPoint(t0: nat, t1: nat, register: nat)
    requires register < 256 && Packed(t0, t1, [START, ADDR_WRITE] + [DATA], 16, TOKENS_PER_LIST)
    ensures Commanded(t0, t1, register, 0) == PointEvents(register)
  {
    PackedStart(register);
    PackedBack(t0, t1, [START, ADDR_WRITE] + [DATA], 16, TOKENS_PER_LIST);
    PackedBack(register, 0, [register], 256, 4);
    hide Digits, Interpret;
    assert [START, ADDR_WRITE] + [DATA] + Zeros(13) == [START, ADDR_WRITE] + ([DATA] + Zeros(13));
    InterpretHead(ADDR_WRITE, [DATA] + Zeros(13), [register] + Zeros(7));
    OnePut([DATA] + Zeros(13), [register] + Zeros(7));
  }

  lemma OnePut(tokens: seq<nat>, data: seq<nat>)
    requires |tokens| > 1 && tokens[0] == DATA && tokens[1] == 0 && data != []
    ensures Interpret(tokens, data, false) == [Put(data[0])]
  {
  }

  function ReadTokens(n: nat): seq<nat> {
    [START, ADDR_READ] + Repeat(DATA, n)
  }

  /** The token lists of a read: every byte but the last is acknowledged. */
  method PackRead(length: nat) returns (t0: nat, t1: nat)
    requires 0 < length <= MAX_READ
    ensures Packed(t0, t1, ReadTokens(length - 1) + [DATA_LAST] + [STOP], 16, TOKENS_PER_LIST)
  {
    hide Packed;
    t0, t1 := PackHead(ADDR_READ);
    assert ReadTokens(0) == [START, ADDR_READ];
    for i := 0 to length
      invariant i < length ==> Packed(t0, t1, ReadTokens(i), 16, TOKENS_PER_LIST)
      invariant i == length ==> Packed(t0, t1, ReadTokens(length - 1) + [DATA_LAST], 16, TOKENS_PER_LIST)
    {
      t0, t1 := TokenSet(t0, t1, 2 + i, if i == length - 1 then DATA_LAST else DATA, ReadTokens(i));
      assert ReadTokens(i) + [DATA] == ReadTokens(i + 1);
    }
    t0, t1 := TokenSet(t0, t1, 2 + length, STOP, ReadTokens(length - 1) + [DATA_LAST]);
  }

  lemma CommandedRead(t0: nat, t1: nat, length: nat)
    requires 0 < length <= MAX_READ
    requires Packed(t0, t1, ReadTokens(length - 1) + [DATA_LAST] + [STOP], 16, TOKENS_PER_LIST)
    ensures Commanded(t0, t1, 0, 0) == ReadEvents(length)
  {
    var n := length - 1;
    PackedStart(0);
    PackedBack(t0, t1, ReadTokens(n) + [DATA_LAST] + [STOP], 16, TOKENS_PER_LIST);
    InterpretRead(n, Digits(0, 256, 4) + Digits(0, 256, 4), 12 - n);
  }

  lemma InterpretRead(n: nat, window: seq<nat>, zeros: nat)
    ensures Interpret(ReadTokens(n) + [DATA_LAST] + [STOP] + Zeros(zeros), window, false)
            == [Event.Start, AddressRead] + Acks(n) + [GetNack, Event.Stop]
  {
    var rest := [DATA_LAST, STOP] + Zeros(zeros);
    AcksOf(n, rest, window);
    InterpretHead(ADDR_READ, Repeat(DATA, n) + rest, window);
    hide Interpret, Acks, Repeat, Zeros;
    Regroup([START, ADDR_READ], Repeat(DATA, n), [DATA_LAST, STOP], Zeros(zeros));
    Regroup([Event.Start, AddressRead], Acks(n), [GetNack, Event.Stop], []);
    assert [DATA_LAST] + [STOP] == [DATA_LAST, STOP];
    Regroup(ReadTokens(n), [DATA_LAST], [STOP], Zeros(zeros));
  }

  /** Byte k of the read windows, by shift and mask. */
  method Unpack(rdata0: nat, rdata1: nat, length: nat, ghost got: seq<nat>) returns (buffer: seq<nat>)
    requires length == |got| <= MAX_READ && Below(got, 256)
    requires rdata0 == Value(First(got, 4), 256) && rdata1 == Value(Rest(got, 4), 256)
    ensures buffer == got
  {
    buffer := [];
    for i := 0 to length
      invariant buffer == got[..i]
    {
      if i < 4 {
        DigitAt(First(got, 4), 256, i);
      } else {
        DigitAt(Rest(got, 4), 256, i - 4);
      }
      var data := if i / 4 == 0 then rdata0 else rdata1;
      buffer := buffer + [Arith.Mod(Arith.Div(data, Pow(256, i % 4)), 256)];
    }
  }

  function WriteTokens(n: nat): seq<nat> {
    [START, ADDR_WRITE] + Repeat(DATA, 1 + n)
  }

  /** The data window of a write holds the register index and the payload behind
      it, and the token lists a data token for each of them. */
  method PackWrite(register: nat, buffer: seq<nat>) returns (t0: nat, t1: nat, d0: nat, d1: nat)
    requires register < 256 && Below(buffer, 256) && |buffer| <= MAX_WRITE
    ensures Packed(t0, t1, WriteTokens(|buffer|) + [STOP], 16, TOKENS_PER_LIST)
    ensures Packed(d0, d1, [register] + buffer, 256, 4)
  {
    hide Packed;
    d0, d1 := register, 0;
    PackedStart(register);
    t0, t1 := PackHead(ADDR_WRITE);
    t0, t1 := TokenSet(t0, t1, 2, DATA, [START, ADDR_WRITE]);
    assert [START, ADDR_WRITE] + [DATA] == WriteTokens(0);
    assert [register] + buffer[..0] == [register];
    for i := 0 to |buffer|
      invariant Packed(t0, t1, WriteTokens(i), 16, TOKENS_PER_LIST) && Packed(d0, d1, [register] + buffer[..i], 256, 4)
    {
      PackedAppend(d0, d1, [register] + buffer[..i], buffer[i], 256, 4);
      if (i + 1) / 4 == 0 {
        d0 := d0 + buffer[i] * Pow(256, (i + 1) % 4);
      } else {
        d1 := d1 + buffer[i] * Pow(256, (i + 1) % 4);
      }
      assert [register] + buffer[..i] + [buffer[i]] == [register] + buffer[..i + 1];
      t0, t1 := TokenSet(t0, t1, 3 + i, DATA, WriteTokens(i));
      assert WriteTokens(i) + [DATA] == WriteTokens(i + 1);
    }
    assert buffer[..|buffer|] == buffer;
    t0, t1 := TokenSet(t0, t1, 3 + |buffer|, STOP, WriteTokens(|buffer|));
  }

  /** START and the address token. */
  method PackHead(address: nat) returns (t0: nat, t1: nat)
    requires address < 16
    ensures Packed(t0, t1, [START, address], 16, TOKENS_PER_LIST)
  {
    hide Packed;
    PackedStart(0);
    t0, t1 := TokenSet(0, 0, 0, START, []);
    assert [] + [START] == [START];
    t0, t1 := TokenSet(t0, t1, 1, address, [START]);
    assert [START] + [address] == [START, address];
  }

  lemma PackedStart(first: nat)
    requires first < 256
    ensures Packed(0, 0, [], 16, TOKENS_PER_LIST) && Packed(first, 0, [first], 256, 4)
  {
  }

  lemma InterpretHead(address: nat, rest: seq<nat>, data: seq<nat>)
    requires address in {ADDR_WRITE, ADDR_READ}
    ensures Interpret([START, address] + rest, data, false)
            == [Event.Start, if address == ADDR_READ then AddressRead else AddressWrite]
               + Interpret(rest, data, address == ADDR_READ)
  {
  }

  lemma CommandedWrite(t0: nat, t1: nat, d0: nat, d1: nat, register: nat, buffer: seq<nat>)
    requires 0 < |buffer| <= MAX_WRITE
    requires Packed(t0, t1, WriteTokens(|buffer|) + [STOP], 16, TOKENS_PER_LIST)
    requires Packed(d0, d1, [register] + buffer, 256, 4)
    ensures Commanded(t0, t1, d0, d1) == WriteEvents(register, buffer)
  {
    var data, n := [register] + buffer, |buffer|;
    var window := data + Zeros(7 - n);
    PackedBack(t0, t1, WriteTokens(n) + [STOP], 16, TOKENS_PER_LIST);
    PackedBack(d0, d1, data, 256, 4);
    InterpretWrite(n, window, 12 - n);
    assert window[..1 + n] == data;
  }

  lemma InterpretWrite(n: nat, window: seq<nat>, zeros: nat)
    requires n < |window|
    ensures Interpret(WriteTokens(n) + [STOP] + Zeros(zeros), window, false)
            == [Event.Start, AddressWrite] + Puts(window[..1 + n]) + [Event.Stop]
  {
    var rest := [STOP] + Zeros(zeros);
    PutsOf(1 + n, window, rest);
    InterpretHead(ADDR_WRITE, Repeat(DATA, 1 + n) + rest, window);
    hide Interpret, Puts, Repeat, Zeros;
    Regroup([START, ADDR_WRITE], Repeat(DATA, 1 + n), [STOP], Zeros(zeros));
    Regroup([Event.Start, AddressWrite], Puts(window[..1 + n]), [Event.Stop], []);
  }

  /** Short of the last register, a stretch of registers is a slice. */
  lemma {:induction false} LoadedIsSlice(regs: seq<nat>, p: nat, n: nat)
    requires p < |regs| && p + n <= |regs|
    ensures Loaded(regs, p, n) == regs[p..p + n]
    decreases n
  {
    if n > 1 {
      LoadedIsSlice(regs, p + 1, n - 1);
    }
  }

  /** Storing within the registers changes only the stretch stored. */
  lemma StoredSlice(regs: seq<nat>, p: nat, payload: seq<nat>)
    requires p < |regs| && p + |payload| <= |regs|
    ensures Stored(regs, p, payload)[p..p + |payload|] == payload
    ensures forall q :: 0 <= q < |regs| && !(p <= q < p + |payload|) ==> Stored(regs, p, payload)[q] == regs[q]
  {
    StoredLoaded(regs, p, payload);
    LoadedIsSlice(Stored(regs, p, payload), p, |payload|);
    forall q | 0 <= q < |regs| && !(p <= q < p + |payload|) ensures Stored(regs, p, payload)[q] == regs[q] {
      StoredKeeps(regs, p, payload, q);
    }
  }
}
