/** The SD/eMMC host driver (MesonSdMmcDxe): pending data commands, and a transfer
    cut into chunks that fit the controller's nine-bit length field. */
module MmcTransfer {
  import Arith
  import opened Efi
  import opened NorFlash

  const WORD := 0x1_0000_0000
  const BLOCK := 512
  const MAX_BLOCKS := 511
  const MAX_CHUNK := MAX_BLOCKS * BLOCK
  const BUSY_POLLS := 1000000

  datatype Event = Data(index: nat, argument: nat, length: nat) | Stop | Idle

  /** The commands that move whole blocks between buffer and card. */
  predicate MovesBlocks(index: nat) {
    index in {17, 18, 24, 25}
  }

  predicate PowerOfTwoUpTo512(n: nat) {
    n in {1, 2, 4, 8, 16, 32, 64, 128, 256, 512}
  }

  lemma SmallPowers(n: nat)
    ensures PowerOfTwoUpTo512(n) <==> n <= 512 && exists k :: Arith.Pow2(k) == n
  {
    if k :| Arith.Pow2(k) == n {
      SmallPower(k);
    }
    assert Arith.Pow2(0) == 1 && Arith.Pow2(1) == 2 && Arith.Pow2(2) == 4 && Arith.Pow2(3) == 8 && Arith.Pow2(4) == 16;
    assert Arith.Pow2(5) == 32 && Arith.Pow2(6) == 64 && Arith.Pow2(7) == 128 && Arith.Pow2(8) == 256 && Arith.Pow2(9) == 512;
  }

  lemma {:induction false} SmallPower(k: nat)
    ensures if k < 10 then Arith.Pow2(k) in {1, 2, 4, 8, 16, 32, 64, 128, 256, 512} else Arith.Pow2(k) > 512
  {
    if k > 10 {
      SmallPower(k - 1);
    } else {
      assert Arith.Pow2(2) == 4 && Arith.Pow2(4) == 16 && Arith.Pow2(6) == 64;
      assert Arith.Pow2(8) == 256 && Arith.Pow2(10) == 1024;
    }
  }

  /** The buffer lies below 4 GiB and its length suits the command. */
  predicate Acceptable(index: nat, base: nat, length: nat) {
    && 0 < length && base + length <= WORD
    && (if MovesBlocks(index) then length % BLOCK == 0 && length / BLOCK <= MAX_BLOCKS else PowerOfTwoUpTo512(length))
  }

  /** What a whole transfer is refused for: a buffer that ends above 4 GiB, or a length
      that does not suit the command. */
  predicate Takes(index: nat, base: nat, length: nat) {
    length == 0
    || (base + length <= WORD && if MovesBlocks(index) then length % BLOCK == 0 else PowerOfTwoUpTo512(length))
  }

  /** The chunks up to `from` were acceptable. */
  predicate TakenSoFar(index: nat, base: nat, from: nat, length: nat) {
    && (from == length ==> Takes(index, base, length))
    && (from > 0 ==> base + from <= WORD)
    && (0 < from < length ==> MovesBlocks(index) && from % BLOCK == 0)
  }

  lemma NoneTaken(index: nat, base: nat, length: nat)
    ensures TakenSoFar(index, base, 0, length)
  {
  }

  lemma AllTaken(index: nat, base: nat, length: nat)
    ensures TakenSoFar(index, base, length, length) ==> Takes(index, base, length)
    ensures Takes(index, base, length) && MovesBlocks(index) ==> length % BLOCK == 0
  {
  }

  lemma NextTaken(index: nat, base: nat, from: nat, chunk: nat, length: nat)
    requires TakenSoFar(index, base, from, length) && from < length && chunk == Least(length - from, MAX_CHUNK)
    ensures Acceptable(index, base + from, chunk) ==> TakenSoFar(index, base, from + chunk, length)
    ensures !Acceptable(index, base + from, chunk) ==> !Takes(index, base, length)
  {
  }

  function AddressOf(sectors: bool, argument: nat): nat {
    if sectors then BLOCK * argument else argument
  }

  /** The commands and waits of a transfer. */
  function Plan(index: nat, argument: nat, sectors: bool, length: nat, write: bool): seq<Event>
    decreases length
  {
    if length == 0 then []
    else if length <= MAX_CHUNK then [Data(index, argument, length)]
    else [Data(index, argument, MAX_CHUNK)] + Pause(write)
         + Plan(index, Stepped(sectors, argument, MAX_CHUNK), sectors, length - MAX_CHUNK, write)
  }

  /** Between two chunks the first is stopped, and a write is waited out. */
  function Pause(write: bool): seq<Event> {
    [Stop] + if write then [Idle] else []
  }

  /** The data commands cover [address, address + length) in order, each once, in
      whole blocks, at most 511 at a time. */
  predicate Covers(events: seq<Event>, sectors: bool, address: nat, length: nat) {
    if events == [] then length == 0
    else match events[0]
      case Data(_, argument, n) =>
        && 0 < n <= length && n % 512 == 0 && n / 512 <= 511 && AddressOf(sectors, argument) == address
        && Covers(events[1..], sectors, address + n, length - n)
      case _ => Covers(events[1..], sectors, address, length)
  }

  /** Every pause stands between two data commands, and two data commands never
      meet without one. */
  predicate Paced(events: seq<Event>, write: bool) {
    if events == [] then true
    else if !events[0].Data? then false
    else if |events| == 1 then true
    else
      var n := |Pause(write)|;
      n + 1 < |events| && events[1..n + 1] == Pause(write) && Paced(events[n + 1..], write)
  }

  lemma {:induction false} PlanCovers(index: nat, argument: nat, sectors: bool, length: nat, write: bool)
    requires length % BLOCK == 0 && argument < WORD
    requires AddressOf(sectors, argument) + length <= AddressOf(sectors, WORD)
    ensures Covers(Plan(index, argument, sectors, length, write), sectors, AddressOf(sectors, argument), length)
    decreases length
  {
    var plan := Plan(index, argument, sectors, length, write);
    if length > MAX_CHUNK {
      NoWrap(sectors, argument, MAX_CHUNK);
      var after := Stepped(sectors, argument, MAX_CHUNK);
      var next := Plan(index, after, sectors, length - MAX_CHUNK, write);
      PlanCovers(index, after, sectors, length - MAX_CHUNK, write);
      CoversSkips(write, next, sectors, AddressOf(sectors, after), length - MAX_CHUNK);
      hide Plan;
      assert plan[0] == Data(index, argument, MAX_CHUNK) && plan[1..] == Pause(write) + next by {
        PlanStep(index, argument, sectors, length, write);
      }
    } else if length > 0 {
      assert plan[1..] == [];
    }
  }

  /** The argument of the command after one for `chunk` bytes. */
  function Stepped(sectors: bool, argument: nat, chunk: nat): (r: nat)
    ensures r < WORD
  {
    (argument + if sectors then chunk / BLOCK else chunk) % WORD
  }

  lemma NoWrap(sectors: bool, argument: nat, chunk: nat)
    requires argument < WORD && chunk % BLOCK == 0
    requires AddressOf(sectors, argument) + chunk < AddressOf(sectors, WORD)
    ensures AddressOf(sectors, Stepped(sectors, argument, chunk)) == AddressOf(sectors, argument) + chunk
  {
  }

  lemma PlanStep(index: nat, argument: nat, sectors: bool, length: nat, write: bool)
    requires length > MAX_CHUNK
    ensures Plan(index, argument, sectors, length, write)
            == [Data(index, argument, MAX_CHUNK)]
               + (Pause(write) + Plan(index, Stepped(sectors, argument, MAX_CHUNK), sectors, length - MAX_CHUNK, write))
  {
  }

  lemma CoversSkips(write: bool, next: seq<Event>, sectors: bool, address: nat, length: nat)
    requires Covers(next, sectors, address, length)
    ensures Covers(Pause(write) + next, sectors, address, length)
  {
  }

  lemma {:induction false} PlanPaced(index: nat, argument: nat, sectors: bool, length: nat, write: bool)
    ensures Paced(Plan(index, argument, sectors, length, write), write)
    decreases length
  {
    if length > MAX_CHUNK {
      var next := Plan(index, Stepped(sectors, argument, MAX_CHUNK), sectors, length - MAX_CHUNK, write);
      PlanPaced(index, Stepped(sectors, argument, MAX_CHUNK), sectors, length - MAX_CHUNK, write);
      var plan := Plan(index, argument, sectors, length, write);
      var n := |Pause(write)|;
      assert plan[1..n + 1] == Pause(write) && plan[n + 1..] == next;
    }
  }

  lemma PlanEnds(index: nat, argument: nat, sectors: bool, write: bool)
    ensures Plan(index, argument, sectors, 0, write) == []
  {
  }

  /** Where a log stands in its plan after each command of a chunk. */
  lemma PlanHead(index: nat, argument: nat, sectors: bool, length: nat, write: bool, log: seq<Event>, total: seq<Event>)
    requires length > 0 && log + Plan(index, argument, sectors, length, write) == total
    ensures log <= total
    ensures length <= MAX_CHUNK ==> log + [Data(index, argument, length)] == total
    ensures length > MAX_CHUNK ==>
      var data := log + [Data(index, argument, MAX_CHUNK)];
      && data <= total && data + [Stop] <= total
      && data + Pause(write) + Plan(index, Stepped(sectors, argument, MAX_CHUNK), sectors, length - MAX_CHUNK, write) == total
  {
  }

  /** How the driver takes the card's arguments when it was not told. */
  predicate Guess(argument: nat, lba: nat) {
    argument == lba % WORD
  }

  /** The guess fails exactly for a byte-addressed card read or written from its
      first block on, where the two readings of the argument agree. */
  lemma GuessRight(sectors: bool, lba: nat)
    requires AddressOf(sectors, if sectors then lba else BLOCK * lba) < AddressOf(sectors, WORD)
    ensures var argument := if sectors then lba else BLOCK * lba;
      Guess(argument, lba) == sectors <==> sectors || lba != 0
  {
  }

  /** `card` after `data` is written at `address`. */
  function Written(card: seq<Byte>, address: nat, data: seq<Byte>): seq<Byte>
    requires address + |data| <= |card|
  {
    card[..address] + data + card[address + |data|..]
  }

  /** The first `moved` bytes are where they belong, but for the first `lost` of them,
      and beyond them at most one more chunk of the span was touched. */
  ghost predicate Moved(card0: seq<Byte>, card: seq<Byte>, buffer0: seq<Byte>, buffer: seq<Byte>,
                        start: nat, length: nat, write: bool, lost: nat, moved: nat) {
    && |card| == |card0| && |buffer| == |buffer0|
    && lost <= moved <= length <= |buffer| && start + length <= |card|
    && card[start + lost..start + moved] == buffer[lost..moved]
    && (if write then buffer == buffer0 else card == card0)
    && SameOutside(card0, card, start, start + Reach(length, moved))
    && SameOutside(buffer0, buffer, 0, Reach(length, moved))
  }

  /** All chunks moved is one unlimited transfer: the same bytes at the same place,
      and nothing else; what a busy card lost is the front of a write. */
  lemma AllMoved(card0: seq<Byte>, card: seq<Byte>, buffer0: seq<Byte>, buffer: seq<Byte>,
                 start: nat, length: nat, write: bool, lost: nat)
    requires Moved(card0, card, buffer0, buffer, start, length, write, lost, length)
    ensures write ==> buffer == buffer0 && |card| == |card0|
    ensures write ==>
      var all := Written(card0, start, buffer0[..length]);
      forall i :: 0 <= i < |card| && !(start <= i < start + lost) ==> card[i] == all[i]
    ensures write && lost == 0 ==> card == Written(card0, start, buffer0[..length])
    ensures !write && lost == 0 ==> buffer == card0[start..start + length] + buffer0[length..] && card == card0
  {
    if write {
      var all := Written(card0, start, buffer0[..length]);
      forall i | 0 <= i < |card| && !(start <= i < start + lost) ensures card[i] == all[i] {
        if start + lost <= i < start + length {
          assert card[i] == card[start + lost..start + length][i - start - lost] == buffer[i - start];
        }
      }
    }
  }

  /** A write entered while the card is busy may lose its first chunk, and no other. */
  function Lost(entersBusy: bool, moved: nat): (lost: nat)
    ensures lost <= moved
  {
    if entersBusy then Least(moved, MAX_CHUNK) else 0
  }

  function Reach(length: nat, moved: nat): nat {
    if moved + MAX_CHUNK <= length then moved + MAX_CHUNK else length
  }

  function Least(a: nat, b: nat): nat {
    if a <= b then a else b
  }

  /** One chunk changed nothing outside itself and, if `done`, moved its bytes. */
  ghost predicate Touched(card: seq<Byte>, card1: seq<Byte>, buffer: seq<Byte>, buffer1: seq<Byte>, address: nat,
                          from: nat, chunk: nat, write: bool, done: bool) {
    && (if write then buffer1 == buffer && SameOutside(card, card1, address, address + chunk)
        else card1 == card && SameOutside(buffer, buffer1, from, from + chunk))
    && (done ==> address + chunk <= |card1| && from + chunk <= |buffer1|
                 && card1[address..address + chunk] == buffer1[from..from + chunk])
  }

  lemma MovedNone(card: seq<Byte>, buffer: seq<Byte>, start: nat, length: nat, write: bool)
    ensures Lost(false, 0) == Lost(true, 0) == 0
    ensures start + length <= |card| && length <= |buffer| ==>
              Moved(card, card, buffer, buffer, start, length, write, 0, 0)
  {
  }

  /** `done`: the chunk counts as moved; `kept`: and its bytes arrived. */
  lemma ChunkTouched(card0: seq<Byte>, card1: seq<Byte>, card2: seq<Byte>, buffer0: seq<Byte>, buffer1: seq<Byte>,
                     buffer2: seq<Byte>, start: nat, length: nat, write: bool, lost: nat, moved: nat, chunk: nat,
                     done: bool, kept: bool)
    requires Moved(card0, card1, buffer0, buffer1, start, length, write, lost, moved)
    requires moved + chunk <= length && chunk <= MAX_CHUNK
    requires Touched(card1, card2, buffer1, buffer2, start + moved, moved, chunk, write, done && kept)
    ensures Moved(card0, card2, buffer0, buffer2, start, length, write, if done && !kept then moved + chunk else lost,
                  if done then moved + chunk else moved)
  {
    PrefixKept(card1, card2, buffer1, buffer2, start, lost, moved, chunk, write);
    if done && kept {
      Joined(card2, buffer2, start, lost, moved, chunk);
    } else if done {
      var end := moved + chunk;
      assert card2[start + end..start + end] == [] == buffer2[end..end];
    }
  }

  /** The same for a chunk of a transfer: only the first of a write can be lost. */
  lemma NextMoved(card0: seq<Byte>, card1: seq<Byte>, card2: seq<Byte>, buffer0: seq<Byte>, buffer1: seq<Byte>,
                  buffer2: seq<Byte>, start: nat, length: nat, write: bool, entersBusy: bool, moved: nat, chunk: nat,
                  done: bool)
    requires Moved(card0, card1, buffer0, buffer1, start, length, write, Lost(entersBusy, moved), moved)
    requires moved + chunk <= length && chunk <= MAX_CHUNK && (moved == 0 || moved >= MAX_CHUNK)
    requires Touched(card1, card2, buffer1, buffer2, start + moved, moved, chunk, write,
                     done && !(entersBusy && moved == 0))
    ensures var next := if done then moved + chunk else moved;
      Moved(card0, card2, buffer0, buffer2, start, length, write, Lost(entersBusy, next), next)
  {
    hide Moved, Touched;
    var lost, kept := Lost(entersBusy, moved), !(entersBusy && moved == 0);
    ChunkTouched(card0, card1, card2, buffer0, buffer1, buffer2, start, length, write, lost, moved, chunk, done, kept);
    assert done ==> Lost(entersBusy, moved + chunk) == if !kept then moved + chunk else lost;
  }

  lemma PrefixKept(card1: seq<Byte>, card2: seq<Byte>, buffer1: seq<Byte>, buffer2: seq<Byte>, start: nat, lost: nat,
                   moved: nat, chunk: nat, write: bool)
    requires lost <= moved && start + moved <= |card1| && moved <= |buffer1|
    requires card1[start + lost..start + moved] == buffer1[lost..moved]
    requires Touched(card1, card2, buffer1, buffer2, start + moved, moved, chunk, write, false)
    ensures card2[start + lost..start + moved] == buffer2[lost..moved]
  {
  }

  lemma Joined(card: seq<Byte>, buffer: seq<Byte>, start: nat, lost: nat, moved: nat, chunk: nat)
    requires lost <= moved && start + moved + chunk <= |card| && moved + chunk <= |buffer|
    requires card[start + lost..start + moved] == buffer[lost..moved]
    requires card[start + moved..start + moved + chunk] == buffer[moved..moved + chunk]
    ensures card[start + lost..start + (moved + chunk)] == buffer[lost..moved + chunk]
  {
    var middle := start + moved;
    assert card[start + lost..middle + chunk] == card[start + lost..middle] + card[middle..middle + chunk];
    assert buffer[lost..moved + chunk] == buffer[lost..moved] + buffer[moved..moved + chunk];
  }

  class Host {
    const isEmmc: bool
    const cardSectors: bool
    var appCommand: bool
    var addressingKnown: bool
    var sectorAddressed: bool
    var pendingValid: bool
    var pendingCmd: nat
    var pendingArgument: nat
    var card: seq<Byte>
    var busy: bool
    ghost var log: seq<Event>
    /** Write data phases that met a busy card; commands that failed; and the reads of
        the latest wait that saw the card busy. */
    ghost var overruns: nat
    ghost var faults: nat
    ghost var busyReads: nat

    /** A card no larger than its arguments can address. */
    ghost predicate Valid()
      reads this
    {
      |card| <= AddressOf(cardSectors, WORD) && pendingArgument < WORD
    }

    /** The card's part in a data command: all of it, or a failure after any part. A
        busy card may store anything in the span written and still report success. */
    method Execute(index: nat, argument: nat, base: nat, buffer: array<Byte>, from: nat, length: nat, write: bool)
      returns (status: Status)
      requires from + length <= buffer.Length
      modifies this`card, this`log, this`overruns, this`faults, buffer
      ensures status in {Success, BadBufferSize, DeviceError, Timeout}
      ensures faults == old(faults) + if status in {Success, BadBufferSize} then 0 else 1
      ensures status == BadBufferSize <==> !Acceptable(index, base + from, length)
      ensures length == 0 ==> status == BadBufferSize
      ensures log == old(log) + if status == BadBufferSize then [] else [Data(index, argument, length)]
      ensures overruns == old(overruns) + if status != BadBufferSize && write && busy then 1 else 0
      ensures status == BadBufferSize ==> card == old(card) && buffer[..] == old(buffer[..])
      ensures var address := AddressOf(cardSectors, argument);
        && (if write && MovesBlocks(index) then SameOutside(old(card), card, address, address + length)
            else card == old(card))
        && (if write then buffer[..] == old(buffer[..]) else SameOutside(old(buffer[..]), buffer[..], from, from + length))
        && (status == Success && MovesBlocks(index) && !(write && busy) ==>
              address + length <= |card| && card[address..address + length] == buffer[from..from + length])
    {
      if !Acceptable(index, base + from, length) {
        return BadBufferSize;
      }
      log := log + [Data(index, argument, length)];
      overruns := overruns + if write && busy then 1 else 0;
      var address := AddressOf(cardSectors, argument);
      status := DeviceError;
      var fails: bool := *;
      faults := faults + 1;
      if fails || (MovesBlocks(index) && address + length > |card|) {
        var late: bool := *;
        if late {
          status := Timeout;
        }
        Disturb(MovesBlocks(index), address, buffer, from, length, write);
        return status;
      }
      faults := faults - 1;
      if !MovesBlocks(index) || (write && busy) {
        Disturb(MovesBlocks(index), address, buffer, from, length, write);
      } else if write {
        card := Written(card, address, buffer[from..from + length]);
      } else {
        forall i | from <= i < from + length {
          buffer[i] := card[address + i - from];
        }
      }
      return Success;
    }

    /** What a failing command, a write to a busy card or a command that moves other
        data than blocks does: anything, inside its own span. */
    method Disturb(blocks: bool, address: nat, buffer: array<Byte>, from: nat, length: nat, write: bool)
      requires from + length <= buffer.Length
      modifies this`card, buffer
      ensures if write && blocks then SameOutside(old(card), card, address, address + length) else card == old(card)
      ensures if write then buffer[..] == old(buffer[..])
              else SameOutside(old(buffer[..]), buffer[..], from, from + length)
    {
      if write {
        var garbage: seq<Byte> := *;
        if blocks && SameOutside(card, garbage, address, address + length) {
          card := garbage;
        }
      } else {
        for i := from to from + length
          modifies buffer
          invariant SameOutside(old(buffer[..]), buffer[..], from, from + length)
        {
          var b: Byte := *;
          buffer[i] := b;
        }
      }
    }

    /** CMD12; after a write the card goes on programming. */
    method StopTransfer(write: bool) returns (status: Status)
      modifies this`busy, this`log, this`faults
      ensures status in {Success, Timeout} && log == old(log) + [Stop] && (!write ==> busy == old(busy))
      ensures faults == old(faults) + if status == Success then 0 else 1
    {
      log := log + [Stop];
      if write {
        busy := *;
      }
      var fails: bool := *;
      if fails {
        faults := faults + 1;
      }
      status := if fails then Timeout else Success;
    }

    /** Gives up only after a million reads that all saw the card busy. */
    method WaitIdle() returns (idle: bool)
      modifies this`busy, this`log, this`busyReads
      ensures idle ==> !busy && log == old(log) + [Idle] && busyReads < 1000000
      ensures !idle ==> log == old(log) && busyReads == 1000000
    {
      idle := false;
      busyReads := 0;
      for retry := 0 to BUSY_POLLS
        modifies this`busy, this`busyReads
        invariant !idle && busyReads == retry
      {
        busy := *;
        if !busy {
          idle := true;
          break;
        }
        busyReads := busyReads + 1;
      }
      if idle {
        log := log + [Idle];
      }
    }

    /** Success leaves a written card idle, so that no later data phase overruns it. */
    method EndChunk(write: bool) returns (status: Status)
      modifies this`busy, this`log, this`faults, this`busyReads
      ensures status in {Success, Timeout} && (!write ==> busy == old(busy))
      ensures old(faults) <= faults && (status == Success ==> faults == old(faults))
      ensures status != Success && faults == old(faults) ==> write && busyReads == 1000000
      ensures old(log) + [Stop] <= log <= old(log) + Pause(write)
      ensures status == Success ==> log == old(log) + Pause(write) && (write ==> !busy)
    {
      status := StopTransfer(write);
      if status == Success && write {
        var idle := WaitIdle();
        if !idle {
          status := Timeout;
        }
      }
    }

    /** One pass of the chunk loop. `total` is the log the transfer is to leave. */
    method TransferChunk(argument: nat, sectors: bool, base: nat, buffer: array<Byte>, from: nat, remaining: nat,
                         write: bool, ghost total: seq<Event>)
      returns (status: Status)
      requires 0 < remaining && from + remaining <= buffer.Length
      requires log + Plan(pendingCmd, argument, sectors, remaining, write) == total
      modifies this`card, this`busy, this`log, this`overruns, this`faults, this`busyReads, buffer
      ensures status in {Success, BadBufferSize, DeviceError, Timeout} && |card| == old(|card|)
      ensures old(log) <= log <= total && (status == Success ==> log != old(log))
      ensures status == BadBufferSize <==> !Acceptable(pendingCmd, base + from, Least(remaining, MAX_CHUNK))
      ensures status in {Success, BadBufferSize} ==> faults == old(faults)
      ensures old(faults) <= faults
      ensures status in {DeviceError, Timeout} && faults == old(faults) ==>
        write && remaining > MAX_CHUNK && busyReads == 1000000
      ensures overruns == old(overruns) + if write && old(busy) && log != old(log) then 1 else 0
      ensures status == Success ==>
        var chunk := Least(remaining, MAX_CHUNK);
        log + Plan(pendingCmd, Stepped(sectors, argument, chunk), sectors, remaining - chunk, write) == total
      ensures status == Success && write && remaining > MAX_CHUNK ==> !busy
      ensures status == Success && MovesBlocks(pendingCmd) ==> Least(remaining, MAX_CHUNK) % BLOCK == 0
      ensures MovesBlocks(pendingCmd) ==>
        Touched(old(card), card, old(buffer[..]), buffer[..], AddressOf(cardSectors, argument), from,
                Least(remaining, MAX_CHUNK), write, status == Success && !(write && old(busy)))
    {
      hide Plan;
      var chunk := Least(remaining, MAX_CHUNK);
      PlanEnds(pendingCmd, Stepped(sectors, argument, chunk), sectors, write);
      PlanHead(pendingCmd, argument, sectors, remaining, write, log, total);
      status := Execute(pendingCmd, argument, base, buffer, from, chunk, write);
      if status == Success && remaining > chunk {
        status := EndChunk(write);
      }
    }

    /** The chunk loop. */
    method TransferChunks(sectors: bool, base: nat, buffer: array<Byte>, length: nat, write: bool)
      returns (status: Status, ghost moved: nat)
      requires Valid() && length <= buffer.Length
      modifies this`card, this`busy, this`log, this`overruns, this`faults, this`busyReads, buffer
      ensures status in {Success, BadBufferSize, DeviceError, Timeout} && |card| == old(|card|)
      ensures old(log) <= log <= old(log) + Plan(pendingCmd, pendingArgument, sectors, length, write)
      ensures status == Success ==> log == old(log) + Plan(pendingCmd, pendingArgument, sectors, length, write)
      ensures old(faults) <= faults && (status == Success ==> faults == old(faults))
      ensures status == BadBufferSize ==> !Takes(pendingCmd, base, length)
      ensures status == Success ==> Takes(pendingCmd, base, length)
      ensures status in {DeviceError, Timeout} && faults == old(faults) ==>
        write && length > MAX_CHUNK && busyReads == 1000000
      ensures overruns == old(overruns) + if write && old(busy) && log != old(log) then 1 else 0
      ensures status == Success && MovesBlocks(pendingCmd) ==> length % BLOCK == 0
      ensures var start := AddressOf(cardSectors, pendingArgument);
        MovesBlocks(pendingCmd) && (sectors == cardSectors || length <= MAX_CHUNK) && start + length <= |card| ==>
          Moved(old(card), card, old(buffer[..]), buffer[..], start, length, write,
                Lost(write && old(busy), moved), moved)
      ensures status == Success ==> moved == length
    {
      hide Moved, Plan, Touched, Stepped, AddressOf, Lost, Acceptable, Takes, TakenSoFar, MovesBlocks;
      ghost var entersBusy := write && busy;
      var argument: nat, remaining: nat, from: nat := pendingArgument, length, 0;
      ghost var total := log + Plan(pendingCmd, argument, sectors, length, write);
      ghost var start := AddressOf(cardSectors, pendingArgument);
      ghost var right :=
        MovesBlocks(pendingCmd) && (sectors == cardSectors || length <= MAX_CHUNK) && start + length <= |card|;
      MovedNone(card, buffer[..], start, length, write);
      NoneTaken(pendingCmd, base, length);
      moved := 0;
      while remaining > 0
        invariant from + remaining == length && moved == from && argument < WORD
        invariant |card| == old(|card|) && (from > 0 && write && remaining > 0 ==> !busy)
        invariant from == 0 ==> busy == old(busy) && log == old(log)
        invariant overruns == old(overruns) + if entersBusy && log != old(log) then 1 else 0
        invariant faults == old(faults) && TakenSoFar(pendingCmd, base, from, length)
        invariant from > 0 ==> log != old(log) && (remaining > 0 ==> from >= MAX_CHUNK)
        invariant old(log) <= log && log + Plan(pendingCmd, argument, sectors, remaining, write) == total
        invariant right ==>
                    Moved(old(card), card, old(buffer[..]), buffer[..], start, length, write,
                          Lost(entersBusy, from), from)
        invariant right && remaining > 0 ==> AddressOf(cardSectors, argument) == start + from
      {
        var chunk := Least(remaining, MAX_CHUNK);
        ghost var card1, buffer1 := card, buffer[..];
        status := TransferChunk(argument, sectors, base, buffer, from, remaining, write, total);
        if right {
          NextMoved(old(card), card1, card, old(buffer[..]), buffer1, buffer[..], start, length, write, entersBusy,
                    from, chunk, status == Success);
          if remaining > chunk {
            NoWrap(cardSectors, argument, chunk);
          }
        }
        NextTaken(pendingCmd, base, from, chunk, length);
        if status != Success {
          return;
        }
        remaining := remaining - chunk;
        from := from + chunk;
        moved := from;
        argument := Stepped(sectors, argument, chunk);
      }
      PlanEnds(pendingCmd, argument, sectors, write);
      AllTaken(pendingCmd, base, length);
      status := Success;
    }

    /** How the transfer is to step its arguments. */
    function Sectors(lba: nat): bool
      reads this
    {
      if addressingKnown then sectorAddressed else Guess(pendingArgument, lba)
    }

    method TransferData(lba: nat, base: nat, buffer: array?<Byte>, length: nat, write: bool)
      returns (status: Status, ghost moved: nat)
      requires Valid()
      requires buffer != null ==> length <= buffer.Length
      modifies this`card, this`busy, this`log, this`overruns, this`faults, this`busyReads, this`pendingValid, buffer
      ensures Valid() && |card| == old(|card|)
      ensures status in {Success, NotReady, BadBufferSize, DeviceError, Timeout}
      ensures status == NotReady <==> !old(pendingValid) || buffer == null
      ensures status == NotReady ==> moved == 0
      ensures status == NotReady ==> card == old(card) && log == old(log) && pendingValid == old(pendingValid)
      ensures status != NotReady ==> !pendingValid
      ensures old(faults) <= faults && (status == Success ==> faults == old(faults))
      ensures status == BadBufferSize ==> !Takes(pendingCmd, base, length)
      ensures status == Success ==> Takes(pendingCmd, base, length)
      ensures status in {DeviceError, Timeout} && faults == old(faults) ==>
        write && length > MAX_CHUNK && busyReads == 1000000
      ensures status != NotReady ==>
        var plan := Plan(pendingCmd, pendingArgument, Sectors(lba), length, write);
        old(log) <= log <= old(log) + plan && (status == Success ==> log == old(log) + plan)
      ensures overruns == old(overruns) + if write && old(busy) && log != old(log) then 1 else 0
      ensures status == Success ==> moved == length && (MovesBlocks(pendingCmd) ==> length % BLOCK == 0)
      ensures status != NotReady && MovesBlocks(pendingCmd) && (Sectors(lba) == cardSectors || length <= MAX_CHUNK) ==>
        var start := AddressOf(cardSectors, pendingArgument);
        start + length <= |card| ==>
          Moved(old(card), card, old(buffer[..]), buffer[..], start, length, write,
                Lost(write && old(busy), moved), moved)
    {
      hide Moved, Plan;
      if !pendingValid || buffer == null {
        return NotReady, 0;
      }
      status, moved := TransferChunks(Sectors(lba), base, buffer, length, write);
      pendingValid := false;
    }

    /** A command with data waits for its transfer; any other runs at once. `reply` is
        the card's answer and `ocr30` bit 30 of its response. */
    method SendCommand(index: nat, argument: nat, reply: Status, ocr30: bool) returns (status: Status)
      requires Valid() && argument < WORD
      modifies this`appCommand, this`addressingKnown, this`sectorAddressed, this`pendingValid, this`pendingCmd,
               this`pendingArgument
      ensures Valid()
      ensures pendingValid <==> HasData(isEmmc, index, old(appCommand))
      ensures if pendingValid then status == Success && pendingCmd == index && pendingArgument == argument
              else status == reply && pendingCmd == old(pendingCmd) && pendingArgument == old(pendingArgument)
      ensures appCommand <==> !pendingValid && index == 55 && status == Success
      ensures if Identifies(isEmmc, index, old(appCommand)) && status == Success
              then addressingKnown && sectorAddressed == ocr30
              else addressingKnown == old(addressingKnown) && sectorAddressed == old(sectorAddressed)
    {
      var isApplication := appCommand;
      appCommand := false;
      if HasData(isEmmc, index, isApplication) {
        pendingCmd, pendingArgument, pendingValid := index, argument, true;
        return Success;
      }
      pendingValid := false;
      status := reply;
      if status == Success && ((isEmmc && index == 1) || (!isEmmc && isApplication && index == 41)) {
        addressingKnown, sectorAddressed := true, ocr30;
      }
      if status == Success && index == 55 {
        appCommand := true;
      }
    }

    /** A block read end to end: the command, then its data. */
    method ReadBlocks(index: nat, lba: nat, base: nat, buffer: array<Byte>, length: nat) returns (status: Status)
      requires index in {17, 18}
      requires Valid() && addressingKnown && sectorAddressed == cardSectors && length <= buffer.Length
      requires BLOCK * lba + length <= |card| && length > 0
      modifies this, buffer
      ensures card == old(card)
      ensures SameOutside(old(buffer[..]), buffer[..], 0, length)
      ensures status == Success ==> buffer[..length] == card[BLOCK * lba..BLOCK * lba + length]
      ensures status != Success && faults == old(faults) ==> !Takes(index, base, length)
    {
      var argument := if sectorAddressed then lba else BLOCK * lba;
      var sent := SendCommand(index, argument, Success, false);
      ghost var moved;
      status, moved := TransferData(lba, base, buffer, length, false);
    }

    /** A block write end to end, into a card that is not busy. */
    method WriteBlocks(index: nat, lba: nat, base: nat, buffer: array<Byte>, length: nat) returns (status: Status)
      requires index in {24, 25} && !busy
      requires Valid() && addressingKnown && sectorAddressed == cardSectors && length <= buffer.Length
      requires BLOCK * lba + length <= |card| && length > 0
      modifies this, buffer
      ensures buffer[..] == old(buffer[..])
      ensures SameOutside(old(card), card, BLOCK * lba, BLOCK * lba + length)
      ensures status == Success ==> card == Written(old(card), BLOCK * lba, buffer[..length])
      ensures status != Success && faults == old(faults) ==>
        !Takes(index, base, length) || (length > MAX_CHUNK && busyReads == 1000000)
    {
      var argument := if sectorAddressed then lba else BLOCK * lba;
      ghost var c, b := card, buffer[..];
      var sent := SendCommand(index, argument, Success, false);
      ghost var moved;
      status, moved := TransferData(lba, base, buffer, length, true);
      if status == Success {
        AllMoved(c, card, b, buffer[..], BLOCK * lba, length, true, 0);
      }
    }
  }

  /** MesonCommandHasData. */
  predicate HasData(isEmmc: bool, index: nat, isApplication: bool) {
    index in {17, 18, 24, 25, 51} || (if isEmmc then index == 8 else index == 6 && !isApplication)
  }

  /** They are the block reads and writes, the SD configuration (51), and by card the
      extended CSD (8) or the function switch (6), which an application command is not. */
  lemma DataCommands(isEmmc: bool, index: nat, isApplication: bool)
    ensures MovesBlocks(index) || index == 51 ==> HasData(isEmmc, index, isApplication)
    ensures HasData(isEmmc, 8, isApplication) <==> isEmmc
    ensures HasData(isEmmc, 6, isApplication) <==> !isEmmc && !isApplication
    ensures HasData(isEmmc, index, isApplication) ==> index in {6, 8, 17, 18, 24, 25, 51}
  {
  }

  /** The command whose answer says how the card reads its arguments. */
  predicate Identifies(isEmmc: bool, index: nat, isApplication: bool) {
    if isEmmc then index == 1 else isApplication && index == 41
  }
}
