/** The serial NOR behind the Meson SPI flash controller (MesonSpifcFvbDxe).

    The chip sees only what goes over the wire: while chip select is held the
    bufferloads join into one stream, and releasing it makes the chip act on the
    stream as one command. What the driver achieves is stated about the flash and
    about the commands the chip saw. */
module Spifc {
  import opened Efi
  import opened NorFlash

  const TRANSFER_MAX := 64
  const COMMAND_MAX_DATA := TRANSFER_MAX - 4
  const PROGRAM_POLLS := 100000
  const ERASE_POLLS := 500000

  const CMD_READ: Byte := 0x03
  const CMD_WRITE_ENABLE: Byte := 0x06
  const CMD_READ_STATUS: Byte := 0x05
  const CMD_PAGE_PROGRAM: Byte := 0x02
  const CMD_SECTOR_ERASE: Byte := 0x20

  // ---- Commands as bytes ----------------------------------------------------

  /** Opcode and 24-bit address. */
  function Header(opcode: Byte, address: nat): (r: seq<Byte>)
    requires address < NOR_SIZE
    ensures |r| == 4
  {
    [opcode, ByteAt(address / 0x1_0000), ByteAt(address / 0x100 % 0x100), ByteAt(address % 0x100)]
  }

  /** The address in a command of at least four bytes. */
  function AddressOf(command: seq<Byte>): (a: nat)
    requires |command| >= 4
    ensures a < NOR_SIZE
  {
    Number(command[1]) * 0x1_0000 + Number(command[2]) * 0x100 + Number(command[3])
  }

  lemma ThreeBytes(x: nat)
    requires x < NOR_SIZE
    ensures x / 0x1_0000 * 0x1_0000 + x / 0x100 % 0x100 * 0x100 + x % 0x100 == x && x / 0x1_0000 < 0x100
  {
  }

  /** A chip decodes the address that the driver encodes. */
  lemma HeaderDecodes(opcode: Byte, address: nat, rest: seq<Byte>)
    requires address < NOR_SIZE
    ensures AddressOf(Header(opcode, address) + rest) == address
  {
    hide Number, ByteAt;
    ThreeBytes(address);
    var command := Header(opcode, address) + rest;
    assert command[1] == ByteAt(address / 0x1_0000) && command[2] == ByteAt(address / 0x100 % 0x100);
    assert command[3] == ByteAt(address % 0x100);
  }

  // ---- The chip -------------------------------------------------------------

  datatype Busy = Idle | Working(command: seq<Byte>)

  /** The chip: its cells, the write-enable latch, the erase or program still
      running, and every program and erase command it was ever sent. */
  datatype Chip = Chip(
    flash: seq<Byte>,
    wel: bool,
    busy: Busy,
    programs: seq<seq<Byte>>,
    erases: seq<seq<Byte>>)
  {
    predicate Valid() {
      |flash| == NOR_SIZE && (busy.Working? ==> IsProgram(busy.command) || IsErase(busy.command))
    }
  }

  predicate IsProgram(command: seq<Byte>) {
    |command| > 4 && command[0] == CMD_PAGE_PROGRAM
  }

  predicate IsErase(command: seq<Byte>) {
    |command| == 4 && command[0] == CMD_SECTOR_ERASE
  }

  /** A program that would run past the end of its page starts over at the
      beginning of the page. */
  predicate Wraps(command: seq<Byte>)
    requires IsProgram(command)
  {
    AddressOf(command) % PAGE_SIZE + |command| - 4 > PAGE_SIZE
  }

  /** The cells a program or erase command may change. */
  function SpanLo(command: seq<Byte>): nat
    requires IsProgram(command) || IsErase(command)
  {
    var a := AddressOf(command);
    if IsErase(command) then a - a % ERASE_SIZE
    else if Wraps(command) then a - a % PAGE_SIZE
    else a
  }

  function SpanHi(command: seq<Byte>): nat
    requires IsProgram(command) || IsErase(command)
  {
    if IsErase(command) then SpanLo(command) + ERASE_SIZE
    else if Wraps(command) then SpanLo(command) + PAGE_SIZE
    else SpanLo(command) + |command| - 4
  }

  /** The cells at some moment of carrying out a command. */
  predicate Started(before: seq<Byte>, after: seq<Byte>, command: seq<Byte>)
    requires IsProgram(command) || IsErase(command)
  {
    && SameOutside(before, after, SpanLo(command), SpanHi(command))
    && (IsErase(command) ==> EraseStep(before, after, SpanLo(command), SpanHi(command)))
    && (IsProgram(command) && !Wraps(command) ==> ProgramStep(before, after, AddressOf(command), command[4..]))
  }

  /** The cells once the command is done. A reliable chip clears every bit it is
      asked to; any chip erases truthfully. */
  predicate Completed(before: seq<Byte>, after: seq<Byte>, command: seq<Byte>, reliable: bool)
    requires IsProgram(command) || IsErase(command)
  {
    && Started(before, after, command)
    && (IsErase(command) ==> Blank(after, SpanLo(command), SpanHi(command)))
    && (reliable && IsProgram(command) && !Wraps(command) ==>
          after == Programmed(before, AddressOf(command), command[4..]))
  }

  /** Time passes: the command in progress may finish. */
  predicate Settles(c: Chip, d: Chip, reliable: bool)
    requires c.Valid()
  {
    || d == c
    || (c.busy.Working?
        && d == c.(flash := d.flash, wel := false, busy := Idle)
        && Completed(c.flash, d.flash, c.busy.command, reliable))
  }

  function Logged(c: Chip, command: seq<Byte>): Chip {
    if |command| > 0 && command[0] == CMD_PAGE_PROGRAM then c.(programs := c.programs + [command])
    else if |command| > 0 && command[0] == CMD_SECTOR_ERASE then c.(erases := c.erases + [command])
    else c
  }

  /** Chip select is released after `command`. A busy chip ignores it, and so
      does a chip whose write-enable latch is clear. */
  predicate Acts(c: Chip, d: Chip, command: seq<Byte>) {
    var l := Logged(c, command);
    if c.busy.Idle? && command == [CMD_WRITE_ENABLE] then d == l.(wel := true)
    else if c.busy.Idle? && c.wel && (IsProgram(command) || IsErase(command)) then
      d == l.(flash := d.flash, busy := Working(command)) && Started(c.flash, d.flash, command)
    else d == l
  }

  // ---- What an operation may have done --------------------------------------

  ghost predicate PendingAt(c: Chip, i: int)
    requires c.Valid()
  {
    c.busy.Working? && SpanLo(c.busy.command) <= i < SpanHi(c.busy.command)
  }

  /** Only [lo, hi) changed or can still change, apart from what the command that
      was in progress before may do. */
  ghost predicate OnlyTouches(c: Chip, d: Chip, lo: int, hi: int) {
    && c.Valid() && d.Valid()
    && (forall i :: 0 <= i < NOR_SIZE && !(lo <= i < hi) && !PendingAt(c, i) ==> d.flash[i] == c.flash[i])
    && (forall i :: PendingAt(d, i) ==> lo <= i < hi || PendingAt(c, i))
  }

  /** Nothing was sent that changes cells; an idle chip's cells are as before. */
  ghost predicate Quiet(c: Chip, d: Chip) {
    && OnlyTouches(c, d, 0, 0)
    && d.programs == c.programs && d.erases == c.erases
    && (c.busy.Idle? ==> d.busy.Idle? && d.flash == c.flash)
    && (d.busy.Idle? || d.busy == c.busy)
  }

  lemma SettlesIsQuiet(c: Chip, d: Chip, reliable: bool)
    requires c.Valid() && Settles(c, d, reliable)
    ensures Quiet(c, d)
  {
  }

  lemma QuietTrans(c: Chip, d: Chip, e: Chip)
    requires Quiet(c, d) && Quiet(d, e)
    ensures Quiet(c, e)
  {
  }

  lemma TouchesTrans(c: Chip, d: Chip, e: Chip, lo: int, hi: int, lo': int, hi': int)
    requires OnlyTouches(c, d, lo, hi) && OnlyTouches(d, e, lo', hi')
    requires lo' >= hi' || lo <= lo' <= hi' <= hi
    ensures OnlyTouches(c, e, lo, hi)
  {
  }

  /** One way for a chip to act: nothing has happened to the cells yet. */
  function ActsFirst(c: Chip, command: seq<Byte>): (d: Chip)
    requires c.Valid()
    ensures Acts(c, d, command) && d.Valid()
  {
    var l := Logged(c, command);
    if c.busy.Idle? && command == [CMD_WRITE_ENABLE] then l.(wel := true)
    else if c.busy.Idle? && c.wel && (IsProgram(command) || IsErase(command)) then
      NothingStarted(c.flash, command);
      l.(busy := Working(command))
    else l
  }

  lemma NothingStarted(flash: seq<Byte>, command: seq<Byte>)
    requires IsProgram(command) || IsErase(command)
    ensures Started(flash, flash, command)
  {
  }

  // ---- The controller -------------------------------------------------------

  /** The status register: bit 0 busy, bit 1 write-enable latch. */
  function StatusByte(c: Chip): Byte {
    (if c.busy.Working? then 1 else 0) | (if c.wel then 2 else 0)
  }

  /** The byte that comes back while byte `i` of a transfer goes out. An idle
      chip answers a read command from its cells. */
  predicate Answers(c: Chip, transmit: seq<Byte>, receive: seq<Byte>)
    requires c.Valid()
  {
    && |receive| == |transmit|
    && (|transmit| == 2 && transmit[0] == CMD_READ_STATUS ==> receive[1] == StatusByte(c))
    && (|transmit| > 4 && transmit[0] == CMD_READ && c.busy.Idle? && AddressOf(transmit) + |transmit| - 4 <= NOR_SIZE ==>
          receive[4..] == c.flash[AddressOf(transmit)..AddressOf(transmit) + |transmit| - 4])
  }

  class Controller {
    const reliable: bool
    var chip: Chip
    var stream: seq<Byte>
    var csActive: bool
    var ahbEnabled: bool
    /** Transfers that timed out, and the reads of the latest wait that saw the chip busy. */
    ghost var timeouts: nat
    ghost var busyReads: nat

    predicate Valid()
      reads this
    {
      chip.Valid()
    }

    /** Between operations: chip select is released. */
    predicate Released()
      reads this
    {
      Valid() && !csActive && stream == []
    }

    /** Since `timeouts` stood at `before` a transfer timed out, or the latest wait for
        the chip used up its polls: without either, nothing fails on an idle chip. */
    ghost predicate Troubled(before: nat)
      reads this
    {
      timeouts != before || busyReads == 100000 || busyReads == 500000
    }

    /** The chip goes on while a transfer runs, which takes the bus window off. */
    method Settle()
      requires Valid() && !ahbEnabled
      modifies this`chip
      ensures Valid() && Settles(old(chip), chip, reliable)
    {
      var next: Chip := *;
      if next.Valid() && Settles(chip, next, reliable) {
        chip := next;
      }
    }

    method Release(command: seq<Byte>)
      requires Valid()
      modifies this`chip, this`stream, this`csActive
      ensures Valid() && Acts(old(chip), chip, command) && stream == [] && !csActive
    {
      var next: Chip := *;
      if next.Valid() && Acts(chip, next, command) {
        chip := next;
      } else {
        chip := ActsFirst(chip, command);
      }
      stream, csActive := [], false;
    }

    /** Chip select stays asserted exactly after a success that asks for it; a timeout
        releases it, wherever the load had got to. */
    method TransferEx(transmit: seq<Byte>, keepCs: bool)
      returns (status: Status, receive: seq<Byte>, ghost settled: Chip, ghost sent: nat)
      requires Valid()
      modifies this
      ensures Valid()
      ensures |transmit| == 0 || |transmit| > TRANSFER_MAX ==>
        status == InvalidParameter && chip == old(chip) && stream == old(stream) && csActive == old(csActive)
      ensures 0 < |transmit| <= TRANSFER_MAX ==>
        && status in {Success, Timeout} && ahbEnabled
        && settled.Valid() && Settles(old(chip), settled, reliable)
      ensures status.Success? ==> old(stream) == [] ==> Answers(settled, transmit, receive)
      ensures status.Success? && keepCs ==> chip == settled && stream == old(stream) + transmit && csActive
      ensures timeouts == old(timeouts) + (if status.Timeout? then 1 else 0) && busyReads == old(busyReads)
      ensures sent <= |transmit| && (status.Success? ==> sent == |transmit|)
      ensures (status.Success? && !keepCs) || status.Timeout? ==>
        Acts(settled, chip, old(stream) + transmit[..sent]) && stream == [] && !csActive
    {
      settled, sent := chip, 0;
      if |transmit| == 0 || |transmit| > TRANSFER_MAX {
        return InvalidParameter, [], settled, sent;
      }
      ahbEnabled := false;
      Settle();
      settled := chip;
      receive := *;
      if !Answers(chip, transmit, receive) {
        receive := Answer(chip, transmit);
      }
      var done: bool := *;
      if !done {
        var cut: int := *;
        if cut < 0 || cut > |transmit| {
          cut := |transmit|;
        }
        sent := cut;
        timeouts := timeouts + 1;
        Release(stream + transmit[..cut]);
        ahbEnabled := true;
        return Timeout, [], settled, sent;
      }
      sent := |transmit|;
      assert transmit[..sent] == transmit;
      stream := stream + transmit;
      csActive := keepCs;
      if !keepCs {
        Release(stream);
      }
      ahbEnabled := true;
      return Success, receive, settled, sent;
    }

    method NorReadStatus() returns (status: Status, flashStatus: Byte)
      requires Released()
      modifies this
      ensures Released() && ahbEnabled && Settles(old(chip), chip, reliable) && status in {Success, Timeout}
      ensures timeouts == old(timeouts) + (if status.Timeout? then 1 else 0) && busyReads == old(busyReads)
      ensures status.Success? ==> flashStatus == StatusByte(chip)
    {
      ghost var settled, sent;
      var transmit := [CMD_READ_STATUS, ERASED];
      var receive;
      status, receive, settled, sent := TransferEx(transmit, false);
      assert [] + transmit[..sent] == transmit[..sent];
      ReadIsQuiet(settled, chip, transmit, transmit[..sent]);
      flashStatus := if status.Success? then receive[1] else 0;
    }

    /** Poll until the chip is not busy: without a timed-out transfer this fails only
        after `polls` reads that all saw it busy. */
    method NorWaitReady(polls: nat) returns (status: Status)
      requires Released()
      modifies this
      ensures status in {Success, Timeout}
      ensures Released() && Settles(old(chip), chip, reliable)
      ensures status.Success? ==> chip.busy.Idle? && timeouts == old(timeouts) && busyReads < polls
      ensures status.Timeout? && timeouts != old(timeouts) ==> timeouts == old(timeouts) + 1
      ensures status.Timeout? && timeouts == old(timeouts) ==> busyReads == polls
      ensures old(chip).busy.Idle? ==> busyReads == 0
    {
      busyReads := 0;
      var timeout := 0;
      while timeout < polls
        invariant 0 <= timeout <= polls && Released() && Settles(old(chip), chip, reliable)
        invariant timeouts == old(timeouts) && busyReads == timeout
        invariant old(chip).busy.Idle? ==> timeout == 0
      {
        var flashStatus;
        status, flashStatus := NorReadStatus();
        if !status.Success? {
          return;
        }
        StatusBits(chip);
        if flashStatus & 1 == 0 {
          return Success;
        }
        busyReads := busyReads + 1;
        timeout := timeout + 1;
      }
      return Timeout;
    }

    /** Set the write-enable latch and see that it stuck. */
    method NorWriteEnable() returns (status: Status)
      requires Released()
      modifies this
      ensures status in {Success, WriteProtected, Timeout}
      ensures Released() && Quiet(old(chip), chip)
      ensures status.Success? ==> chip.wel
      ensures status.WriteProtected? ==> !chip.wel && old(chip).busy.Working?
      ensures timeouts == old(timeouts) + (if status.Timeout? then 1 else 0) && busyReads == old(busyReads)
    {
      ghost var settled, sent;
      var receive;
      status, receive, settled, sent := TransferEx([CMD_WRITE_ENABLE], false);
      SettlesIsQuiet(old(chip), settled, reliable);
      ghost var enabled := chip;
      assert [CMD_WRITE_ENABLE][..1] == [CMD_WRITE_ENABLE];
      assert Quiet(settled, enabled);
      QuietTrans(old(chip), settled, enabled);
      if !status.Success? {
        return;
      }
      var flashStatus;
      status, flashStatus := NorReadStatus();
      SettlesIsQuiet(enabled, chip, reliable);
      QuietTrans(old(chip), enabled, chip);
      if !status.Success? {
        return;
      }
      StatusBits(chip);
      return if flashStatus & 2 == 0 then WriteProtected else Success;
    }

    /** One read command of at most 60 bytes. */
    method ReadPiece(address: nat, length: nat) returns (status: Status, data: seq<Byte>)
      requires Released() && address + length <= NOR_SIZE && 0 < length <= COMMAND_MAX_DATA
      modifies this
      ensures status in {Success, Timeout}
      ensures Released() && Quiet(old(chip), chip)
      ensures status.Success? ==> |data| == length
      ensures status.Success? && old(chip).busy.Idle? ==> data == chip.flash[address..address + length]
      ensures timeouts == old(timeouts) + (if status.Timeout? then 1 else 0) && busyReads == old(busyReads)
    {
      hide Quiet, Settles, Acts;
      var filler := seq(length, _ => ERASED);
      var transmit := Header(CMD_READ, address) + filler;
      ghost var before := chip;
      ghost var settled, sent;
      var receive;
      status, receive, settled, sent := TransferEx(transmit, false);
      HeaderDecodes(CMD_READ, address, filler);
      SettlesIsQuiet(before, settled, reliable);
      IdleStays(before, settled);
      assert [] + transmit[..sent] == transmit[..sent];
      ReadIsQuiet(settled, chip, transmit, transmit[..sent]);
      data := if status.Success? then receive[4..] else [];
    }

    method NorRead(address: nat, length: nat) returns (status: Status, buffer: seq<Byte>)
      requires Released()
      modifies this
      ensures status in {Success, InvalidParameter, Timeout}
      ensures Released() && Quiet(old(chip), chip)
      ensures status == InvalidParameter <==> address >= NOR_SIZE || length > NOR_SIZE - address
      ensures status == InvalidParameter ==> chip == old(chip)
      ensures timeouts == old(timeouts) + (if status.Timeout? then 1 else 0) && busyReads == old(busyReads)
      ensures status.Success? ==> |buffer| == length
      ensures status.Success? && old(chip).busy.Idle? ==> buffer == chip.flash[address..address + length]
    {
      hide Quiet;
      buffer := [];
      QuietRefl(chip);
      if address >= NOR_SIZE || length > NOR_SIZE - address {
        return InvalidParameter, [];
      }
      while |buffer| < length
        invariant |buffer| <= length && Released() && Quiet(old(chip), chip)
        invariant timeouts == old(timeouts) && busyReads == old(busyReads)
        invariant old(chip).busy.Idle? ==> buffer == chip.flash[address..address + |buffer|]
      {
        var piece := if length - |buffer| < COMMAND_MAX_DATA then length - |buffer| else COMMAND_MAX_DATA;
        ghost var before := chip;
        var data;
        status, data := ReadPiece(address + |buffer|, piece);
        IdleStays(old(chip), before);
        IdleStays(before, chip);
        QuietTrans(old(chip), before, chip);
        if !status.Success? {
          return;
        }
        buffer := buffer + data;
      }
      return Success, buffer;
    }

    /** Stream one program command, in bufferloads, with chip select held until
        the last. `at` is the chip just before chip select was released and
        `command` what it was sent: all of it on success, a prefix otherwise. */
    method SendProgram(address: nat, data: seq<Byte>)
      returns (status: Status, ghost command: seq<Byte>, ghost at: Chip)
      requires Released() && address < NOR_SIZE && 0 < |data| <= PAGE_SIZE - address % PAGE_SIZE
      modifies this
      ensures status in {Success, Timeout}
      ensures timeouts == old(timeouts) + (if status.Timeout? then 1 else 0) && busyReads == old(busyReads)
      ensures Released() && Quiet(old(chip), at) && Acts(at, chip, command)
      ensures old(chip).busy.Idle? ==> at == old(chip)
      ensures command <= ProgramCommand(address, data)
      ensures status.Success? ==> command == ProgramCommand(address, data)
    {
      hide Quiet, Settles, Acts, Header;
      ghost var c := chip;
      QuietRefl(c);
      var full := ProgramCommand(address, data);
      var sent := 0;
      while true
        invariant 0 <= sent < |full| && Valid() && Quiet(c, chip)
        invariant c.busy.Idle? ==> chip == c
        invariant stream == full[..sent] && timeouts == old(timeouts) && busyReads == old(busyReads)
        decreases |full| - sent
      {
        var load := if |full| - sent < TRANSFER_MAX then |full| - sent else TRANSFER_MAX;
        var keepCs := sent + load < |full|;
        ghost var before := chip;
        ghost var cut;
        var receive;
        status, receive, at, cut := TransferEx(full[sent..sent + load], keepCs);
        SettlesIsQuiet(before, at, reliable);
        QuietTrans(c, before, at);
        IdleSettles(before, at, reliable);
        command := full[..sent + cut];
        assert full[..sent] + full[sent..sent + load][..cut] == command;
        if !status.Success? || !keepCs {
          return;
        }
        sent := sent + load;
      }
    }

    /** At most one program command is sent: `command` is what the chip saw of it, all
        on success, a prefix otherwise. */
    method NorProgramPage(address: nat, data: seq<Byte>) returns (status: Status, ghost command: seq<Byte>)
      requires Released() && address < NOR_SIZE
      modifies this
      ensures status in {Success, InvalidParameter, WriteProtected, Timeout}
      ensures Released()
      ensures status == InvalidParameter <==> |data| == 0 || |data| > PAGE_SIZE - address % PAGE_SIZE
      ensures status == InvalidParameter ==> chip == old(chip) && command == []
      ensures status == WriteProtected ==> !chip.wel && old(chip).busy.Working? && command == []
      ensures status == Timeout && timeouts == old(timeouts) ==>
        command == ProgramCommand(address, data) && busyReads == 100000
      ensures status != Timeout ==> timeouts == old(timeouts)
      ensures status == Success ==> busyReads < PROGRAM_POLLS
      ensures old(timeouts) <= timeouts
      ensures command != [] && command != ProgramCommand(address, data) ==>
        chip.busy.Idle? || timeouts > old(timeouts) + 1 || busyReads == PROGRAM_POLLS
      ensures OnlyTouches(old(chip), chip, address, address + |data|)
      ensures command <= ProgramCommand(address, data) && chip.erases == old(chip).erases
      ensures chip.programs == old(chip).programs + (if command == [] then [] else [command])
      ensures status.Success? ==> command == ProgramCommand(address, data) && chip.busy.Idle?
      ensures old(chip).busy.Idle? ==> ProgramStep(old(chip).flash, chip.flash, address, data)
      ensures old(chip).busy.Idle? && status.Success? && reliable ==>
        chip.flash == Programmed(old(chip).flash, address, data)
    {
      hide Quiet, Settles, Acts, OnlyTouches, ProgramStep, Programmed, Header;
      command := [];
      ghost var o := chip;
      NothingTouched(o, address, data);
      if |data| == 0 || |data| > PAGE_SIZE - address % PAGE_SIZE {
        return InvalidParameter, [];
      }
      status := NorWriteEnable();
      QuietTouches(o, chip, address, data);
      if !status.Success? {
        return;
      }
      ghost var enabled, at := chip, chip;
      IdleStays(o, enabled);
      status, command, at := SendProgram(address, data);
      ghost var acted := chip;
      QuietTrans(o, enabled, at);
      ProgramActs(o, at, acted, address, data, command);
      var ready := NorWaitReady(PROGRAM_POLLS);
      ProgramEnds(o, at, acted, chip, address, data, command, reliable);
      if status.Success? {
        status := ready;
      }
    }

    /** Program any range, one command per page. */
    method NorProgram(address: nat, data: seq<Byte>) returns (status: Status)
      requires Released()
      modifies this
      ensures status in {Success, InvalidParameter, WriteProtected, Timeout}
      ensures Released()
      ensures status == InvalidParameter <==> address >= NOR_SIZE || |data| > NOR_SIZE - address
      ensures status == InvalidParameter ==> chip == old(chip)
      ensures status == WriteProtected ==> old(chip).busy.Working?
      ensures status == Timeout && timeouts == old(timeouts) ==> busyReads == 100000
      ensures status != Timeout ==> timeouts == old(timeouts)
      ensures old(timeouts) <= timeouts
      ensures address < NOR_SIZE && |data| <= NOR_SIZE - address ==>
        && SentPrefix(old(chip).programs, chip.programs, PageCommands(address, data))
        && (status.Success? ==> chip.programs == old(chip).programs + PageCommands(address, data))
      ensures status.Success? && |data| > 0 ==> chip.busy.Idle?
      ensures status.Success? ==> address + |data| <= NOR_SIZE
      ensures OnlyTouches(old(chip), chip, address, address + |data|) && chip.erases == old(chip).erases
      ensures old(chip).busy.Idle? ==> ProgramStep(old(chip).flash, chip.flash, address, data)
      ensures old(chip).busy.Idle? && status.Success? ==> chip.busy.Idle?
      ensures old(chip).busy.Idle? && status.Success? && reliable ==>
        chip.flash == Programmed(old(chip).flash, address, data)
    {
      hide OnlyTouches, ProgramStep, Programmed, SameOutside, ProgramCommand, Header, PageCommands, SentPrefix, Piece;
      ghost var o := chip;
      NothingTouched(o, address, data);
      if address >= NOR_SIZE || |data| > NOR_SIZE - address {
        return InvalidParameter;
      }
      NothingDone(o.flash, address, data);
      assert data[0..] == data;
      var done := 0;
      while done < |data|
        invariant 0 <= done <= |data| && Released()
        invariant 0 < done ==> chip.busy.Idle?
        invariant timeouts == old(timeouts)
        invariant OnlyTouches(o, chip, address, address + |data|) && chip.erases == o.erases
        invariant |chip.programs| >= |o.programs|
        invariant o.programs + PageCommands(address, data) == chip.programs + PageCommands(address + done, data[done..])
        invariant o.busy.Idle? ==> chip.busy.Idle? && ProgramStep(o.flash, chip.flash, address, data)
        invariant o.busy.Idle? ==> SameOutside(o.flash, chip.flash, address, address + done)
        invariant o.busy.Idle? && reliable ==> chip.flash == Programmed(o.flash, address, data[..done])
      {
        var piece := Piece(address + done, |data| - done);
        PieceInPage(address + done, |data| - done);
        ghost var before, command := chip, [];
        ghost var rest := PageCommands(address + done, data[done..]);
        OnePageSent(address, data, done, piece, o.programs, before.programs);
        status, command := NorProgramPage(address + done, data[done..done + piece]);
        TouchesTrans(o, before, chip, address, address + |data|, address + done, address + done + piece);
        if o.busy.Idle? {
          ProgramExtends(o.flash, before.flash, chip.flash, address, data, done, piece);
          ProgrammedExtends(o.flash, address, data, done, piece);
        }
        if !status.Success? {
          PrefixSent(o.programs, before.programs, chip.programs, PageCommands(address, data), rest, command);
          return;
        }
        done := done + piece;
      }
      assert data[..done] == data && data[done..] == [];
      NoCommands(address + done);
      AllSent(o.programs, chip.programs, PageCommands(address, data));
      return Success;
    }

    method NorEraseSector(address: nat) returns (status: Status)
      requires Released()
      modifies this
      ensures status in {Success, InvalidParameter, WriteProtected, Timeout}
      ensures Released()
      ensures status == InvalidParameter <==> address >= NOR_SIZE || address % ERASE_SIZE != 0
      ensures status == InvalidParameter ==> chip == old(chip)
      ensures status == WriteProtected ==> !chip.wel && old(chip).busy.Working?
      ensures status == Timeout && timeouts == old(timeouts) ==> busyReads == 500000
      ensures status != Timeout ==> timeouts == old(timeouts)
      ensures status == Success ==> busyReads < ERASE_POLLS
      ensures old(timeouts) <= timeouts
      ensures status.Success? ==> chip.busy.Idle? && address + ERASE_SIZE <= NOR_SIZE
      ensures OnlyTouches(old(chip), chip, address, address + ERASE_SIZE) && chip.programs == old(chip).programs
      ensures old(chip).busy.Idle? ==> EraseStep(old(chip).flash, chip.flash, address, address + ERASE_SIZE)
      ensures old(chip).busy.Idle? && status.Success? ==> Blank(chip.flash, address, address + ERASE_SIZE)
    {
      hide Quiet, Settles, Acts, OnlyTouches, EraseStep, Header, Blank;
      ghost var o := chip;
      EraseTouchesNothing(o, o, address);
      if address >= NOR_SIZE || address % ERASE_SIZE != 0 {
        return InvalidParameter;
      }
      status := NorWriteEnable();
      EraseTouchesNothing(o, chip, address);
      if !status.Success? {
        return;
      }
      ghost var enabled := chip;
      ghost var at, sent;
      var command, receive := Header(CMD_SECTOR_ERASE, address), [];
      status, receive, at, sent := TransferEx(command, false);
      ghost var acted := chip;
      SettlesIsQuiet(enabled, at, reliable);
      IdleSettles(enabled, at, reliable);
      IdleStays(o, enabled);
      QuietTrans(o, enabled, at);
      assert [] + command[..sent] == command[..sent];
      EraseActs(o, at, acted, address, command[..sent]);
      if !status.Success? {
        return;
      }
      assert command[..sent] == command;
      status := NorWaitReady(ERASE_POLLS);
      EraseEnds(o, at, acted, chip, address, reliable);
    }
  }

  /** As much of a range as lies in its first page. */
  function Piece(address: nat, length: nat): (n: nat)
    ensures n <= length && (0 < length ==> 0 < n)
  {
    var room := PAGE_SIZE - address % PAGE_SIZE;
    if length < room then length else room
  }

  lemma PieceInPage(address: nat, length: nat)
    ensures Piece(address, length) <= PAGE_SIZE - address % PAGE_SIZE
  {
  }

  /** The commands that program `data` at `address`, one per page. */
  function PageCommands(address: nat, data: seq<Byte>): (r: seq<seq<Byte>>)
    requires address + |data| <= NOR_SIZE
    decreases |data|
  {
    if |data| == 0 then []
    else
      var piece := Piece(address, |data|);
      [ProgramCommand(address, data[..piece])] + PageCommands(address + piece, data[piece..])
  }

  /** `after` extends `before` by the beginning of `full`, the last command
      perhaps cut short. */
  ghost predicate SentPrefix(before: seq<seq<Byte>>, after: seq<seq<Byte>>, full: seq<seq<Byte>>) {
    && before <= after && |after| - |before| <= |full|
    && forall k :: |before| <= k < |after| ==>
         after[k] <= full[k - |before|] && (k + 1 < |after| ==> after[k] == full[k - |before|])
  }

  lemma NoCommands(address: nat)
    requires address <= NOR_SIZE
    ensures PageCommands(address, []) == []
  {
  }

  lemma AllSent(o: seq<seq<Byte>>, after: seq<seq<Byte>>, full: seq<seq<Byte>>)
    requires o + full == after + []
    ensures after == o + full && SentPrefix(o, after, full)
  {
  }

  lemma OnePageSent(address: nat, data: seq<Byte>, done: nat, piece: nat, o: seq<seq<Byte>>, before: seq<seq<Byte>>)
    requires address + |data| <= NOR_SIZE && done < |data|
    requires piece == Piece(address + done, |data| - done)
    requires o + PageCommands(address, data) == before + PageCommands(address + done, data[done..])
    ensures 0 < piece <= |data| - done
    ensures |PageCommands(address + done, data[done..])| > 0
    ensures PageCommands(address + done, data[done..])[0] == ProgramCommand(address + done, data[done..done + piece])
    ensures o + PageCommands(address, data)
         == before + [ProgramCommand(address + done, data[done..done + piece])]
            + PageCommands(address + done + piece, data[done + piece..])
  {
    hide Piece, PageCommands, ProgramCommand;
    FirstCommand(address + done, data[done..]);
    assert data[done..][..piece] == data[done..done + piece] && data[done..][piece..] == data[done + piece..];
  }

  lemma PrefixSent(o: seq<seq<Byte>>, before: seq<seq<Byte>>, after: seq<seq<Byte>>, full: seq<seq<Byte>>,
                   rest: seq<seq<Byte>>, command: seq<Byte>)
    requires |o| <= |before| && o + full == before + rest && |rest| > 0
    requires after == before + (if command == [] then [] else [command]) && command <= rest[0]
    ensures SentPrefix(o, after, full)
  {
    var whole := o + full;
    assert forall k :: 0 <= k < |o| ==> whole[k] == o[k];
    assert forall k :: 0 <= k < |before| ==> whole[k] == before[k];
    assert whole[|before|] == rest[0];
    assert |whole| == |before| + |rest|;
  }

  lemma NothingDone(flash: seq<Byte>, address: nat, data: seq<Byte>)
    requires address + |data| <= |flash|
    ensures SameOutside(flash, flash, address, address)
    ensures Programmed(flash, address, data[..0]) == flash
  {
  }

  lemma EraseTouchesNothing(o: Chip, c: Chip, address: nat)
    requires c.Valid() && (c == o || Quiet(o, c))
    ensures OnlyTouches(o, c, address, address + ERASE_SIZE) && c.programs == o.programs
    ensures o.busy.Idle? ==> EraseStep(o.flash, c.flash, address, address + ERASE_SIZE)
  {
  }

  lemma EraseActs(o: Chip, c: Chip, d: Chip, address: nat, command: seq<Byte>)
    requires Quiet(o, c) && d.Valid() && address < NOR_SIZE && address % ERASE_SIZE == 0
    requires command <= Header(CMD_SECTOR_ERASE, address) && Acts(c, d, command)
    ensures OnlyTouches(o, d, address, address + ERASE_SIZE) && d.programs == o.programs
    ensures o.busy.Idle? ==> EraseStep(o.flash, d.flash, address, address + ERASE_SIZE)
  {
    NothingErased(o.flash, address, address + ERASE_SIZE);
    if c.busy.Idle? && c.wel && IsErase(command) {
      HeaderDecodes(CMD_SECTOR_ERASE, address, []);
      assert command == Header(CMD_SECTOR_ERASE, address) + [];
    } else {
      assert command == [] || command[0] == CMD_SECTOR_ERASE;
    }
  }

  lemma EraseEnds(o: Chip, c: Chip, d: Chip, e: Chip, address: nat, reliable: bool)
    requires Quiet(o, c) && d.Valid() && e.Valid() && address < NOR_SIZE && address % ERASE_SIZE == 0
    requires Acts(c, d, Header(CMD_SECTOR_ERASE, address)) && Settles(d, e, reliable)
    requires OnlyTouches(o, d, address, address + ERASE_SIZE)
    requires o.busy.Idle? ==> EraseStep(o.flash, d.flash, address, address + ERASE_SIZE)
    ensures OnlyTouches(o, e, address, address + ERASE_SIZE) && e.programs == d.programs
    ensures o.busy.Idle? ==> EraseStep(o.flash, e.flash, address, address + ERASE_SIZE)
    ensures o.busy.Idle? && c.wel && e.busy.Idle? ==> Blank(e.flash, address, address + ERASE_SIZE)
  {
    SettlesIsQuiet(d, e, reliable);
    TouchesTrans(o, d, e, address, address + ERASE_SIZE, 0, 0);
    HeaderDecodes(CMD_SECTOR_ERASE, address, []);
    assert Header(CMD_SECTOR_ERASE, address) == Header(CMD_SECTOR_ERASE, address) + [];
    if o.busy.Idle? && d.busy.Working? && e != d {
      EraseStepTrans(o.flash, d.flash, e.flash, address, address, address + ERASE_SIZE);
    }
  }

  function ProgramCommand(address: nat, data: seq<Byte>): (r: seq<Byte>)
    requires address < NOR_SIZE
    ensures |r| == 4 + |data|
  {
    Header(CMD_PAGE_PROGRAM, address) + data
  }

  lemma QuietRefl(c: Chip)
    requires c.Valid()
    ensures Quiet(c, c)
  {
  }

  lemma IdleStays(c: Chip, d: Chip)
    requires Quiet(c, d)
    ensures c.Valid() && d.Valid()
    ensures c.busy.Idle? ==> d.busy.Idle? && d.flash == c.flash
  {
  }

  lemma IdleSettles(c: Chip, d: Chip, reliable: bool)
    requires c.Valid() && Settles(c, d, reliable)
    ensures c.busy.Idle? ==> d == c
  {
  }

  lemma NothingTouched(c: Chip, address: nat, data: seq<Byte>)
    requires c.Valid()
    ensures OnlyTouches(c, c, address, address + |data|)
    ensures ProgramStep(c.flash, c.flash, address, data)
  {
  }

  lemma QuietTouches(c: Chip, d: Chip, address: nat, data: seq<Byte>)
    requires Quiet(c, d)
    ensures OnlyTouches(c, d, address, address + |data|)
    ensures d.programs == c.programs && d.erases == c.erases
    ensures c.busy.Idle? ==> ProgramStep(c.flash, d.flash, address, data)
  {
    NothingProgrammed(c.flash, address, data);
  }

  /** The chip is sent a prefix `command` of a one-page program. */
  lemma ProgramActs(o: Chip, c: Chip, d: Chip, address: nat, data: seq<Byte>, command: seq<Byte>)
    requires Quiet(o, c) && d.Valid() && address < NOR_SIZE && 0 < |data| <= PAGE_SIZE - address % PAGE_SIZE
    requires command <= ProgramCommand(address, data) && Acts(c, d, command)
    ensures OnlyTouches(o, d, address, address + |data|)
    ensures d.programs == o.programs + (if command == [] then [] else [command]) && d.erases == o.erases
    ensures o.busy.Idle? ==> ProgramStep(o.flash, d.flash, address, data)
  {
    if c.busy.Idle? && c.wel && IsProgram(command) {
      ProgramIsStarted(c, d, address, data, command);
      ProgramPrefix(c.flash, d.flash, address, data, |command| - 4);
    } else {
      assert command != [CMD_WRITE_ENABLE] && !IsErase(command);
      NothingProgrammed(c.flash, address, data);
    }
  }

  lemma ProgramPrefix(before: seq<Byte>, after: seq<Byte>, address: nat, data: seq<Byte>, n: nat)
    requires n <= |data| && ProgramStep(before, after, address, data[..n])
    ensures ProgramStep(before, after, address, data)
  {
  }

  lemma PageFits(address: nat, n: nat)
    requires address < NOR_SIZE && n <= PAGE_SIZE - address % PAGE_SIZE
    ensures address + n <= NOR_SIZE
  {
  }

  /** Then time passes. */
  lemma ProgramEnds(o: Chip, c: Chip, d: Chip, e: Chip, address: nat, data: seq<Byte>, command: seq<Byte>, reliable: bool)
    requires Quiet(o, c) && d.Valid() && e.Valid() && address < NOR_SIZE
    requires 0 < |data| <= PAGE_SIZE - address % PAGE_SIZE
    requires command <= ProgramCommand(address, data) && Acts(c, d, command) && Settles(d, e, reliable)
    requires OnlyTouches(o, d, address, address + |data|)
    requires o.busy.Idle? ==> ProgramStep(o.flash, d.flash, address, data)
    ensures OnlyTouches(o, e, address, address + |data|)
    ensures e.programs == d.programs && e.erases == d.erases
    ensures o.busy.Idle? ==> ProgramStep(o.flash, e.flash, address, data)
    ensures o.busy.Idle? && c.wel && reliable && e.busy.Idle? && command == ProgramCommand(address, data) ==>
      e.flash == Programmed(o.flash, address, data)
  {
    SettlesIsQuiet(d, e, reliable);
    TouchesTrans(o, d, e, address, address + |data|, 0, 0);
    if o.busy.Idle? && d.busy.Working? {
      ProgramIsStarted(c, d, address, data, command);
      if e != d {
        assert ProgramStep(d.flash, e.flash, address, data[..|command| - 4]);
        ProgramPrefix(d.flash, e.flash, address, data, |command| - 4);
        PageFits(address, |data|);
        ProgramTwice(o.flash, d.flash, e.flash, address, data);
        assert |command| - 4 == |data| ==> data[..|command| - 4] == data;
      }
    } else if o.busy.Idle? {
      assert !IsProgram(command) || !c.wel;
    }
  }

  /** An idle chip that is busy after a prefix of a one-page program is carrying
      out that program, without wrapping. */
  lemma ProgramIsStarted(c: Chip, d: Chip, address: nat, data: seq<Byte>, command: seq<Byte>)
    requires address < NOR_SIZE && 0 < |data| <= PAGE_SIZE - address % PAGE_SIZE
    requires command <= ProgramCommand(address, data) && Acts(c, d, command) && c.busy.Idle? && d.busy.Working?
    ensures IsProgram(command) && d.busy == Working(command) && !Wraps(command) && !IsErase(command)
    ensures AddressOf(command) == address && command[4..] == data[..|command| - 4]
  {
    assert IsProgram(command);
    HeaderDecodes(CMD_PAGE_PROGRAM, address, command[4..]);
    assert command == Header(CMD_PAGE_PROGRAM, address) + command[4..];
  }

  /** Reads change nothing, whole or cut short. */
  lemma ReadIsQuiet(c: Chip, d: Chip, transmit: seq<Byte>, command: seq<Byte>)
    requires |transmit| > 0 && transmit[0] in {CMD_READ, CMD_READ_STATUS} && command <= transmit
    requires Acts(c, d, command)
    ensures d == c
  {
  }

  lemma StatusBits(c: Chip)
    ensures StatusByte(c) & 1 == 0 <==> c.busy.Idle?
    ensures StatusByte(c) & 2 == 0 <==> !c.wel
  {
  }

  function Answer(c: Chip, transmit: seq<Byte>): (receive: seq<Byte>)
    requires c.Valid()
    ensures Answers(c, transmit, receive)
  {
    if |transmit| == 2 then [0, StatusByte(c)]
    else if |transmit| > 4 && transmit[0] == CMD_READ && AddressOf(transmit) + |transmit| - 4 <= NOR_SIZE then
      var r := transmit[..4] + c.flash[AddressOf(transmit)..AddressOf(transmit) + |transmit| - 4];
      assert r[4..] == c.flash[AddressOf(transmit)..AddressOf(transmit) + |transmit| - 4];
      r
    else transmit
  }

  // ---- The page commands -----------------------------------------------------

  function Payloads(commands: seq<seq<Byte>>): seq<Byte> {
    if |commands| == 0 then []
    else (if |commands[0]| >= 4 then commands[0][4..] else []) + Payloads(commands[1..])
  }

  /** The pages that a range of bytes touches. */
  function PagesTouched(address: nat, length: nat): int
    requires 0 < length
  {
    (address + length - 1) / PAGE_SIZE - address / PAGE_SIZE + 1
  }

  /** Where the part of a range that lies in its k-th page begins and ends. */
  function PartLo(address: nat, k: nat): nat {
    if k == 0 then address else (address / PAGE_SIZE + k) * PAGE_SIZE
  }

  function PartHi(address: nat, length: nat, k: nat): nat {
    var pageEnd := (address / PAGE_SIZE + k + 1) * PAGE_SIZE;
    if address + length < pageEnd then address + length else pageEnd
  }

  lemma PartsInOrder(address: nat, length: nat, k: nat)
    requires 0 < length && k < PagesTouched(address, length)
    ensures address <= PartLo(address, k) < PartHi(address, length, k) <= address + length
    ensures PartLo(address, k) / PAGE_SIZE == address / PAGE_SIZE + k
    ensures PartHi(address, length, k) <= PartLo(address, k) - PartLo(address, k) % PAGE_SIZE + PAGE_SIZE
  {
  }

  /** The first command and the rest. */
  lemma FirstCommand(address: nat, data: seq<Byte>)
    requires address + |data| <= NOR_SIZE && 0 < |data|
    ensures var piece := Piece(address, |data|);
      PageCommands(address, data) ==
        [ProgramCommand(address, data[..piece])] + PageCommands(address + piece, data[piece..])
  {
  }

  lemma FirstPart(address: nat, length: nat)
    requires 0 < length
    ensures PartLo(address, 0) == address && PartHi(address, length, 0) == address + Piece(address, length)
    ensures PagesTouched(address, length) >= 1
    ensures Piece(address, length) == length ==> PagesTouched(address, length) == 1
  {
  }

  lemma NextPart(address: nat, length: nat)
    requires 0 < length && Piece(address, length) < length
    ensures var piece := Piece(address, length);
      && (address + piece) / PAGE_SIZE == address / PAGE_SIZE + 1
      && (address + piece) % PAGE_SIZE == 0
      && PagesTouched(address + piece, length - piece) == PagesTouched(address, length) - 1
  {
  }

  lemma LaterPart(address: nat, length: nat, k: nat)
    requires 0 < length && Piece(address, length) < length && 0 < k
    ensures var piece := Piece(address, length);
      && PartLo(address + piece, k - 1) == PartLo(address, k)
      && PartHi(address + piece, length - piece, k - 1) == PartHi(address, length, k)
  {
  }

  /** There is one command for each touched page. */
  lemma {:induction false} CommandCount(address: nat, data: seq<Byte>)
    requires address + |data| <= NOR_SIZE && 0 < |data|
    ensures |PageCommands(address, data)| == PagesTouched(address, |data|)
    decreases |data|
  {
    hide PagesTouched, Piece, PageCommands, ProgramCommand;
    var piece := Piece(address, |data|);
    FirstPart(address, |data|);
    FirstCommand(address, data);
    if piece < |data| {
      NextPart(address, |data|);
      CommandCount(address + piece, data[piece..]);
    } else {
      assert data[piece..] == [];
      NoCommands(address + piece);
    }
  }

  /** It carries exactly the bytes of the range that lie in that page. */
  lemma {:induction false} CommandCarries(address: nat, data: seq<Byte>, k: nat)
    requires address + |data| <= NOR_SIZE && 0 < |data| && k < PagesTouched(address, |data|)
    requires |PageCommands(address, data)| == PagesTouched(address, |data|)
    ensures var lo, hi := PartLo(address, k), PartHi(address, |data|, k);
      address <= lo < hi <= address + |data| &&
      PageCommands(address, data)[k] == ProgramCommand(lo, data[lo - address..hi - address])
    decreases |data|
  {
    hide PagesTouched, PartLo, PartHi, ProgramCommand, Piece, PageCommands;
    var piece := Piece(address, |data|);
    FirstPart(address, |data|);
    FirstCommand(address, data);
    PartsInOrder(address, |data|, k);
    if 0 < k {
      var next, rest := address + piece, data[piece..];
      NextPart(address, |data|);
      LaterPart(address, |data|, k);
      CommandCount(next, rest);
      CommandCarries(next, rest, k - 1);
      var lo, hi := PartLo(address, k), PartHi(address, |data|, k);
      assert rest[lo - next..hi - next] == data[lo - address..hi - address];
    }
  }

  /** No command runs past the end of its page, and the chip reads back the
      address and page the driver meant. */
  lemma NoCommandWraps(address: nat, data: seq<Byte>, k: nat)
    requires address + |data| <= NOR_SIZE && 0 < |data| && k < |PageCommands(address, data)|
    ensures var c := PageCommands(address, data)[k];
      IsProgram(c) && !Wraps(c) && AddressOf(c) / PAGE_SIZE == address / PAGE_SIZE + k
  {
    hide PagesTouched, PartLo, PartHi, PageCommands;
    CommandCount(address, data);
    CommandCarries(address, data, k);
    PartsInOrder(address, |data|, k);
    var lo, hi := PartLo(address, k), PartHi(address, |data|, k);
    HeaderDecodes(CMD_PAGE_PROGRAM, lo, data[lo - address..hi - address]);
  }

  /** The payloads join up to the data. */
  lemma {:induction false} PayloadsAreData(address: nat, data: seq<Byte>)
    requires address + |data| <= NOR_SIZE
    ensures Payloads(PageCommands(address, data)) == data
    decreases |data|
  {
    hide Piece, PageCommands;
    if |data| == 0 {
      NoCommands(address);
    } else {
      FirstCommand(address, data);
      var piece := Piece(address, |data|);
      var first, rest := data[..piece], data[piece..];
      var c := ProgramCommand(address, first);
      PayloadsAreData(address + piece, rest);
      assert c[4..] == first && first + rest == data;
      assert PageCommands(address, data)[1..] == PageCommands(address + piece, rest);
    }
  }
}
