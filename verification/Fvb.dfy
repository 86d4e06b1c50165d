/** The firmware volume over the serial NOR (MesonSpifcFvbDxe): the variable and
    fault-tolerant-write window is read from a RAM shadow, which every write and
    erase must keep equal to the flash.

    `doubt` marks the window offsets at which the two may differ. Once the shadow
    is loaded there are none; an operation that fails adds at most what it was working on, and one
    that succeeds removes everything it covered. */
module Fvb {
  import opened Efi
  import opened NorFlash
  import opened Spifc
  import opened VariableHeader

  const BLOCK_COUNT := RUNTIME_SIZE / ERASE_SIZE
  const VARIABLE_LAST_LBA := 0x4_0000 / ERASE_SIZE - 1
  const WORKING_FIRST_LBA := 0x4_0000 / ERASE_SIZE
  const WORKING_LAST_LBA := WORKING_FIRST_LBA + 0x2000 / ERASE_SIZE - 1
  const SPARE_FIRST_LBA := 0x8_0000 / ERASE_SIZE
  const SPARE_LAST_LBA := SPARE_FIRST_LBA + 0x4_0000 / ERASE_SIZE - 1

  predicate LbaWritable(lba: nat) {
    || lba <= VARIABLE_LAST_LBA
    || WORKING_FIRST_LBA <= lba <= WORKING_LAST_LBA
    || SPARE_FIRST_LBA <= lba <= SPARE_LAST_LBA
  }

  /** Window offset by window offset, whether shadow and flash may differ. */
  type Doubt = d: seq<bool> | |d| == RUNTIME_SIZE witness seq(RUNTIME_SIZE, _ => false)

  function Doubted(d: Doubt, lo: int, hi: int): Doubt {
    seq(RUNTIME_SIZE, i requires 0 <= i < RUNTIME_SIZE => lo <= i < hi || d[i])
  }

  function Cleared(d: Doubt, lo: int, hi: int): Doubt {
    seq(RUNTIME_SIZE, i requires 0 <= i < RUNTIME_SIZE => !(lo <= i < hi) && d[i])
  }

  const NO_DOUBT: Doubt := seq(RUNTIME_SIZE, _ => false)
  const ALL_DOUBT: Doubt := seq(RUNTIME_SIZE, _ => true)

  /** Nothing is in doubt in `d` that was not in `e`. */
  ghost predicate Within(d: Doubt, e: Doubt) {
    forall i :: 0 <= i < RUNTIME_SIZE && d[i] ==> e[i]
  }

  /** Flash that no firmware-volume operation may ever change: above the raw
      region and not in a writable block. */
  ghost predicate Protected(i: int) {
    i >= RUNTIME_BASE && !(i < RUNTIME_BASE + RUNTIME_SIZE && LbaWritable((i - RUNTIME_BASE) / ERASE_SIZE))
  }

  /** The shadow equals the flash except at offsets in doubt, and a command still
      in progress can only change raw flash or cells in doubt. */
  ghost predicate Coherent(shadow: seq<Byte>, c: Chip, doubt: Doubt) {
    && |shadow| == RUNTIME_SIZE && c.Valid()
    && (forall i :: 0 <= i < RUNTIME_SIZE && !doubt[i] ==> shadow[i] == c.flash[RUNTIME_BASE + i])
    && (forall i :: PendingAt(c, i) ==>
          !Protected(i) && (RUNTIME_BASE <= i < RUNTIME_BASE + RUNTIME_SIZE ==> doubt[i - RUNTIME_BASE]))
  }

  /** Protected flash is as it was. */
  ghost predicate KeepsProtected(c: Chip, d: Chip) {
    && c.Valid() && d.Valid()
    && forall i :: 0 <= i < NOR_SIZE && Protected(i) ==> d.flash[i] == c.flash[i]
  }

  /** An operation on window offsets [lo, hi) of writable blocks puts at most
      those in doubt. */
  lemma WindowTouch(shadow: seq<Byte>, c: Chip, d: Chip, doubt: Doubt, lo: nat, hi: nat)
    requires Coherent(shadow, c, doubt) && lo <= hi <= RUNTIME_SIZE
    requires OnlyTouches(c, d, RUNTIME_BASE + lo, RUNTIME_BASE + hi)
    requires forall i :: lo <= i < hi ==> LbaWritable(i / ERASE_SIZE)
    ensures Coherent(shadow, d, Doubted(doubt, lo, hi)) && KeepsProtected(c, d)
  {
    hide LbaWritable, OnlyTouches;
    TouchedInWindow(c, d, RUNTIME_BASE + lo, RUNTIME_BASE + hi);
    forall i | RUNTIME_BASE + lo <= i < RUNTIME_BASE + hi ensures !Protected(i) {
      assert LbaWritable((i - RUNTIME_BASE) / ERASE_SIZE);
    }
  }

  lemma TouchedInWindow(c: Chip, d: Chip, lo: int, hi: int)
    requires OnlyTouches(c, d, lo, hi)
    ensures c.Valid() && d.Valid()
    ensures forall i :: 0 <= i < NOR_SIZE && !(lo <= i < hi) && !PendingAt(c, i) ==> d.flash[i] == c.flash[i]
    ensures forall i :: PendingAt(d, i) ==> lo <= i < hi || PendingAt(c, i)
  {
  }

  /** A raw operation below the window puts nothing in doubt. */
  lemma RawTouch(shadow: seq<Byte>, c: Chip, d: Chip, doubt: Doubt, lo: nat, hi: nat)
    requires Coherent(shadow, c, doubt)
    requires OnlyTouches(c, d, lo, hi) && hi <= RUNTIME_BASE
    ensures Coherent(shadow, d, doubt) && KeepsProtected(c, d)
  {
  }

  /** Reading puts nothing in doubt. */
  lemma QuietTouch(shadow: seq<Byte>, c: Chip, d: Chip, doubt: Doubt)
    requires Coherent(shadow, c, doubt) && Quiet(c, d)
    ensures Coherent(shadow, d, doubt) && KeepsProtected(c, d)
  {
  }

  /** With the chip idle, cells shown to agree are no longer in doubt. */
  lemma Proven(shadow: seq<Byte>, shadow': seq<Byte>, c: Chip, doubt: Doubt, lo: nat, hi: nat)
    requires Coherent(shadow, c, doubt) && c.busy.Idle? && |shadow'| == RUNTIME_SIZE && lo <= hi <= RUNTIME_SIZE
    requires SameOutside(shadow, shadow', lo, hi)
    requires forall i :: lo <= i < hi ==> shadow'[i] == c.flash[RUNTIME_BASE + i]
    ensures Coherent(shadow', c, Cleared(doubt, lo, hi))
  {
  }

  /** What a write is refused for before the flash is touched, in the order the
      checks are made; Success means that it goes ahead. Bits can only be cleared,
      so bytes that need a bit set are refused. */
  ghost function WriteCheck(shadow: seq<Byte>, writable: bool, lba: nat, offset: nat, numBytes: nat, buffer: seq<Byte>): Status
    requires |shadow| == RUNTIME_SIZE && numBytes <= |buffer|
  {
    if lba >= BLOCK_COUNT || offset > ERASE_SIZE then InvalidParameter
    else if !writable || !LbaWritable(lba) then WriteProtected
    else if numBytes > ERASE_SIZE - offset then BadBufferSize
    else if exists k :: 0 <= k < numBytes && !Has(shadow[lba * ERASE_SIZE + offset + k], buffer[k]) then AccessDenied
    else Success
  }

  lemma KeepsRefl(shadow: seq<Byte>, c: Chip, doubt: Doubt)
    requires Coherent(shadow, c, doubt)
    ensures KeepsProtected(c, c)
  {
  }

  lemma KeepsTrans(c: Chip, d: Chip, e: Chip)
    requires KeepsProtected(c, d) && e.Valid() && (e.flash == d.flash || KeepsProtected(d, e))
    ensures KeepsProtected(c, e)
  {
  }

  lemma NothingWritten(shadow: seq<Byte>, d: Doubt, at: nat)
    ensures Cleared(d, at, at) == d && SameOutside(shadow, shadow, at, at)
  {
  }

  /** Entries of an erase list: a first block and a count. */
  datatype Extent = Extent(lba: nat, count: nat)

  /** What an erase list is refused for before anything is erased: the first bad
      entry decides. */
  ghost function ListCheck(list: seq<Extent>): Status {
    if |list| == 0 then Success
    else
      var e := list[0];
      if e.count == 0 || e.lba >= BLOCK_COUNT || e.count > BLOCK_COUNT - e.lba then InvalidParameter
      else if exists lba :: e.lba <= lba < e.lba + e.count && !LbaWritable(lba) then WriteProtected
      else ListCheck(list[1..])
  }

  /** Window offset `i` lies in some extent of the list. */
  ghost predicate InExtents(list: seq<Extent>, i: int) {
    |list| > 0 &&
    var last := list[|list| - 1];
    InExtents(list[..|list| - 1], i) || last.lba * ERASE_SIZE <= i < (last.lba + last.count) * ERASE_SIZE
  }

  /** ... or among the first `index` blocks of the next one. */
  ghost predicate ErasedSoFar(list: seq<Extent>, k: nat, index: nat, i: int)
    requires k <= |list|
  {
    || InExtents(list[..k], i)
    || (k < |list| && list[k].lba * ERASE_SIZE <= i < (list[k].lba + index) * ERASE_SIZE)
  }

  lemma {:induction false} CheckedExtent(list: seq<Extent>, k: nat)
    requires ListCheck(list) == Success && k < |list|
    ensures 0 < list[k].count && list[k].lba + list[k].count <= BLOCK_COUNT
    ensures forall lba :: list[k].lba <= lba < list[k].lba + list[k].count ==> LbaWritable(lba)
  {
    if k > 0 {
      CheckedExtent(list[1..], k - 1);
    }
  }

  /** Checking entry by entry from the front. */
  lemma ListCheckStep(list: seq<Extent>, k: nat)
    requires k < |list|
    ensures list[k..][0] == list[k] && list[k..][1..] == list[k + 1..]
  {
  }

  lemma NextExtent(list: seq<Extent>, k: nat)
    requires k < |list|
    ensures forall i :: ErasedSoFar(list, k, list[k].count, i) == InExtents(list[..k + 1], i)
  {
    assert list[..k + 1][..k] == list[..k];
  }

  lemma PieceCopied(s0: seq<Byte>, s1: seq<Byte>, s2: seq<Byte>, at: nat, bytes: seq<Byte>, written: nat, chunk: nat)
    requires written + chunk <= |bytes| && at + |bytes| <= |s0|
    requires SameOutside(s0, s1, at, at + written) && s1[at..at + written] == bytes[..written]
    requires SameOutside(s1, s2, at + written, at + written + chunk)
    requires s2[at + written..at + written + chunk] == bytes[written..written + chunk]
    ensures SameOutside(s0, s2, at, at + written + chunk)
    ensures s2[at..at + written + chunk] == bytes[..written + chunk]
  {
    forall k | 0 <= k < written + chunk ensures s2[at + k] == bytes[k] {
      if k < written {
        assert s1[at..at + written][k] == bytes[..written][k];
      } else {
        assert s2[at + written..at + written + chunk][k - written] == bytes[written..written + chunk][k - written];
      }
    }
  }

  /** These bytes are in the cells from `address` on. */
  ghost predicate Lies(flash: seq<Byte>, address: nat, bytes: seq<Byte>) {
    address + |bytes| <= |flash| && flash[address..address + |bytes|] == bytes
  }

  lemma LiesMore(flash: seq<Byte>, at: nat, bytes: seq<Byte>, written: nat, chunk: nat)
    requires written + chunk <= |bytes| && Lies(flash, at, bytes[..written])
    requires Lies(flash, at + written, bytes[written..written + chunk])
    ensures Lies(flash, at, bytes[..written + chunk])
  {
    assert flash[at..at + (written + chunk)] == flash[at..at + written] + flash[at + written..at + written + chunk];
    assert bytes[..written + chunk] == bytes[..written] + bytes[written..written + chunk];
  }

  lemma LiesPart(flash: seq<Byte>, at: nat, bytes: seq<Byte>, lo: nat, hi: nat)
    requires lo <= hi <= |bytes|
    ensures Lies(flash, at, bytes) ==> Lies(flash, at + lo, bytes[lo..hi])
  {
    if Lies(flash, at, bytes) {
      var all, part := flash[at..at + |bytes|], flash[at + lo..at + lo + |bytes[lo..hi]|];
      forall k | 0 <= k < hi - lo ensures part[k] == bytes[lo..hi][k] {
        assert all[lo + k] == flash[at + lo + k];
      }
    }
  }

  lemma TouchesStay(c: Chip, d: Chip, e: Chip, lo: int, hi: int)
    requires OnlyTouches(c, d, lo, hi) && e.Valid() && e.busy.Idle? && e.flash == d.flash
    ensures OnlyTouches(c, e, lo, hi)
  {
  }

  /** Where the shadow is the flash, a write that only clears bits of it lands. */
  lemma ProgrammedLies(shadow: seq<Byte>, c: Chip, doubt: Doubt, at: nat, bytes: seq<Byte>)
    requires Coherent(shadow, c, doubt) && at + |bytes| <= RUNTIME_SIZE
    requires forall k :: at <= k < at + |bytes| ==> !doubt[k]
    requires forall k :: 0 <= k < |bytes| ==> Has(shadow[at + k], bytes[k])
    ensures Lies(Programmed(c.flash, RUNTIME_BASE + at, bytes), RUNTIME_BASE + at, bytes)
  {
    var after := Programmed(c.flash, RUNTIME_BASE + at, bytes);
    forall k | 0 <= k < |bytes| ensures after[RUNTIME_BASE + at + k] == bytes[k] {
      assert !doubt[at + k] && shadow[at + k] == c.flash[RUNTIME_BASE + (at + k)];
    }
  }

  lemma LiesNothing(flash: seq<Byte>, at: nat)
    requires at <= |flash|
    ensures Lies(flash, at, [])
  {
  }

  /** The end of the piece that is read back after `written` bytes. */
  function PieceEnd(length: nat, written: nat): nat {
    if written + COMMAND_MAX_DATA <= length then written + COMMAND_MAX_DATA else length
  }

  lemma PieceProven(shadow: seq<Byte>, c: Chip, at: nat, verify: seq<Byte>)
    requires |shadow| == RUNTIME_SIZE && |c.flash| == NOR_SIZE && at + |verify| <= RUNTIME_SIZE
    requires shadow[at..at + |verify|] == verify
    requires verify == c.flash[RUNTIME_BASE + at..RUNTIME_BASE + at + |verify|]
    ensures forall i :: at <= i < at + |verify| ==> shadow[i] == c.flash[RUNTIME_BASE + i]
  {
  }

  lemma ClearedMore(d: Doubt, lo: nat, mid: nat, more: nat)
    requires lo <= mid
    ensures Cleared(Cleared(d, lo, mid), mid, mid + more) == Cleared(d, lo, mid + more)
  {
  }

  class MesonSpifcFvb {
    const nor: Controller
    const shadow: array<Byte>
    const writable: bool
    ghost var doubt: Doubt

    ghost predicate Valid()
      reads this, nor, shadow
    {
      && shadow.Length == RUNTIME_SIZE && nor.Released()
      && Coherent(shadow[..], nor.chip, doubt)
    }

    /** Before the shadow is loaded all of it is in doubt. */
    constructor (controller: Controller, isWritable: bool)
      requires controller.Released() && controller.chip.busy.Idle?
      ensures Valid() && nor == controller && writable == isWritable && fresh(shadow)
      ensures doubt == ALL_DOUBT
    {
      nor, writable := controller, isWritable;
      shadow := new Byte[RUNTIME_SIZE](_ => ERASED);
      doubt := ALL_DOUBT;
    }

    /** Copy bytes into the shadow. */
    method CopyToShadow(at: nat, bytes: seq<Byte>)
      requires shadow.Length == RUNTIME_SIZE && at + |bytes| <= RUNTIME_SIZE
      modifies shadow
      ensures SameOutside(old(shadow[..]), shadow[..], at, at + |bytes|)
      ensures shadow[at..at + |bytes|] == bytes
    {
      forall i | 0 <= i < |bytes| {
        shadow[at + i] := bytes[i];
      }
    }

    /** Load the shadow from the flash. */
    method LoadShadow() returns (status: Status)
      requires Valid() && nor.chip.busy.Idle?
      modifies nor, shadow, this`doubt
      ensures Valid() && KeepsProtected(old(nor.chip), nor.chip) && nor.chip.busy.Idle?
      ensures Quiet(old(nor.chip), nor.chip) && status in {Success, Timeout}
      ensures old(nor.timeouts) <= nor.timeouts && (status.Success? <==> nor.timeouts == old(nor.timeouts))
      ensures status.Success? ==> shadow[..] == old(nor.chip.flash)[RUNTIME_BASE..RUNTIME_BASE + RUNTIME_SIZE]
      ensures status.Success? ==> doubt == NO_DOUBT
      ensures !status.Success? ==> doubt == old(doubt)
    {
      ghost var c := nor.chip;
      var buffer;
      status, buffer := nor.NorRead(RUNTIME_BASE, RUNTIME_SIZE);
      QuietTouch(shadow[..], c, nor.chip, doubt);
      if status.Success? {
        ghost var before := shadow[..];
        CopyToShadow(0, buffer);
        forall i | 0 <= i < RUNTIME_SIZE ensures shadow[i] == nor.chip.flash[RUNTIME_BASE + i] {
          assert shadow[i] == shadow[0..0 + |buffer|][i];
        }
        Proven(before, shadow[..], nor.chip, doubt, 0, RUNTIME_SIZE);
        doubt := NO_DOUBT;
        assert shadow[..] == buffer;
      }
    }

    method FvbRead(lba: nat, offset: nat, numBytes: nat) returns (status: Status, buffer: seq<Byte>)
      requires Valid()
      ensures lba >= BLOCK_COUNT || offset > ERASE_SIZE ==> status == InvalidParameter
      ensures lba < BLOCK_COUNT && offset <= ERASE_SIZE ==>
        var n := if numBytes > ERASE_SIZE - offset then ERASE_SIZE - offset else numBytes;
        var at := lba * ERASE_SIZE + offset;
        && status == (if n < numBytes then BadBufferSize else Success)
        && buffer == shadow[at..at + n]
        && ((forall i :: at <= i < at + n ==> !doubt[i]) ==> buffer == nor.chip.flash[RUNTIME_BASE + at..RUNTIME_BASE + at + n])
    {
      if lba >= BLOCK_COUNT || offset > ERASE_SIZE {
        return InvalidParameter, [];
      }
      status := Success;
      var n := numBytes;
      if n > ERASE_SIZE - offset {
        n, status := ERASE_SIZE - offset, BadBufferSize;
      }
      var at := lba * ERASE_SIZE + offset;
      buffer := shadow[at..at + n];
      ghost var cells := nor.chip.flash[RUNTIME_BASE + at..RUNTIME_BASE + at + n];
      if forall i :: at <= i < at + n ==> !doubt[i] {
        forall k | 0 <= k < n ensures buffer[k] == cells[k] {
          assert !doubt[at + k];
        }
      }
    }

    /** Read back one piece and, if it is right, copy it into the shadow. */
    method VerifyPiece(at: nat, piece: seq<Byte>) returns (status: Status)
      requires Valid() && nor.chip.busy.Idle? && at + |piece| <= RUNTIME_SIZE
      modifies nor, shadow, this`doubt
      ensures status in {Success, DeviceError}
      ensures Valid() && nor.chip.busy.Idle? && nor.chip.flash == old(nor.chip.flash)
      ensures nor.chip.programs == old(nor.chip).programs && nor.chip.erases == old(nor.chip).erases
      ensures old(nor.timeouts) <= nor.timeouts && nor.busyReads == old(nor.busyReads)
      ensures status.Success? <==>
        nor.timeouts == old(nor.timeouts) && Lies(nor.chip.flash, RUNTIME_BASE + at, piece)
      ensures if status.Success? then
          && SameOutside(old(shadow[..]), shadow[..], at, at + |piece|)
          && shadow[at..at + |piece|] == piece
          && doubt == Cleared(old(doubt), at, at + |piece|)
        else shadow[..] == old(shadow[..]) && doubt == old(doubt)
    {
      hide Coherent, Quiet, Cleared, SameOutside;
      ghost var c, s0 := nor.chip, shadow[..];
      var verify;
      status, verify := nor.NorRead(RUNTIME_BASE + at, |piece|);
      QuietTouch(s0, c, nor.chip, doubt);
      IdleStays(c, nor.chip);
      QuietPrograms(c, nor.chip);
      if !status.Success? || verify != piece {
        return DeviceError;
      }
      CopyToShadow(at, piece);
      PieceProven(shadow[..], nor.chip, at, verify);
      Proven(s0, shadow[..], nor.chip, doubt, at, at + |piece|);
      doubt := Cleared(doubt, at, at + |piece|);
    }

    /** Compare what was programmed with the flash, piece by piece, copying each
        verified piece into the shadow. The chip must be idle. */
    method VerifyAndCopy(at: nat, bytes: seq<Byte>) returns (status: Status, written: nat)
      requires Valid() && nor.chip.busy.Idle? && at + |bytes| <= RUNTIME_SIZE
      modifies nor, shadow, this`doubt
      ensures Valid() && nor.chip.busy.Idle? && nor.chip.flash == old(nor.chip.flash)
      ensures nor.chip.programs == old(nor.chip).programs && nor.chip.erases == old(nor.chip).erases
      ensures old(nor.timeouts) <= nor.timeouts && nor.busyReads == old(nor.busyReads)
      ensures status.Success? <==>
        nor.timeouts == old(nor.timeouts) && Lies(nor.chip.flash, RUNTIME_BASE + at, bytes)
      ensures written <= |bytes| && (status.Success? <==> written == |bytes|)
      ensures !status.Success? && nor.timeouts == old(nor.timeouts) ==>
        var end := PieceEnd(|bytes|, written);
        written < end && !Lies(nor.chip.flash, RUNTIME_BASE + at + written, bytes[written..end])
      ensures status in {Success, DeviceError}
      ensures SameOutside(old(shadow[..]), shadow[..], at, at + written)
      ensures shadow[at..at + written] == bytes[..written]
      ensures doubt == Cleared(old(doubt), at, at + written)
    {
      hide Coherent, Quiet, Cleared, SameOutside, Lies;
      written := 0;
      ghost var s0, d0 := shadow[..], doubt;
      NothingWritten(s0, d0, at);
      LiesNothing(nor.chip.flash, RUNTIME_BASE + at);
      assert bytes[..0] == [];
      while written < |bytes|
        invariant written <= |bytes| && Valid()
        invariant nor.chip.busy.Idle? && nor.chip.flash == old(nor.chip.flash)
        invariant nor.chip.programs == old(nor.chip).programs && nor.chip.erases == old(nor.chip).erases
        invariant nor.timeouts == old(nor.timeouts) && nor.busyReads == old(nor.busyReads)
        invariant Lies(nor.chip.flash, RUNTIME_BASE + at, bytes[..written])
        invariant SameOutside(s0, shadow[..], at, at + written)
        invariant shadow[at..at + written] == bytes[..written]
        invariant doubt == Cleared(d0, at, at + written)
      {
        var chunk := if |bytes| - written < COMMAND_MAX_DATA then |bytes| - written else COMMAND_MAX_DATA;
        ghost var s1 := shadow[..];
        LiesPart(nor.chip.flash, RUNTIME_BASE + at, bytes, written, written + chunk);
        status := VerifyPiece(at + written, bytes[written..written + chunk]);
        if !status.Success? {
          return DeviceError, written;
        }
        LiesMore(nor.chip.flash, RUNTIME_BASE + at, bytes, written, chunk);
        PieceCopied(s0, s1, shadow[..], at, bytes, written, chunk);
        ClearedMore(d0, at, at + written, chunk);
        written := written + chunk;
      }
      assert bytes[..written] == bytes;
      return Success, written;
    }

    /** Program bytes into one block of the window and prove that they landed.
        `written` is the byte count handed back: on failure, how much is certain. */
    method FvbWrite(lba: nat, offset: nat, numBytes: nat, buffer: seq<Byte>) returns (status: Status, written: nat)
      requires Valid() && numBytes <= |buffer|
      modifies nor, shadow, this`doubt
      ensures Valid() && KeepsProtected(old(nor.chip), nor.chip)
      ensures var check := WriteCheck(old(shadow[..]), writable, lba, offset, numBytes, buffer);
        check != Success ==>
          && status == check && written == (if check.BadBufferSize? then ERASE_SIZE - offset else numBytes)
          && nor.chip == old(nor.chip) && shadow[..] == old(shadow[..]) && doubt == old(doubt)
      ensures var at := lba * ERASE_SIZE + offset;
        WriteCheck(old(shadow[..]), writable, lba, offset, numBytes, buffer) == Success ==>
          && written <= numBytes && (status.Success? ==> written == numBytes)
          && SameOutside(old(shadow[..]), shadow[..], at, at + written)
          && shadow[at..at + written] == buffer[..written]
          && doubt == Cleared(Doubted(old(doubt), at, at + numBytes), at, at + written)
          && (status.Success? ==>
                nor.chip.programs == old(nor.chip).programs + PageCommands(RUNTIME_BASE + at, buffer[..numBytes]))
          && OnlyTouches(old(nor.chip), nor.chip, RUNTIME_BASE + at, RUNTIME_BASE + at + numBytes)
      ensures var at := lba * ERASE_SIZE + offset;
        WriteCheck(old(shadow[..]), writable, lba, offset, numBytes, buffer) == Success && !status.Success? ==>
          || nor.Troubled(old(nor.timeouts))
          || old(nor.chip).busy.Working?
          || (status == DeviceError && !Lies(nor.chip.flash, RUNTIME_BASE + at, buffer[..numBytes])
              && (nor.reliable ==> exists k :: at <= k < at + numBytes && old(doubt)[k]))
    {
      hide Coherent, KeepsProtected, OnlyTouches, ProgramStep, PageCommands, SentPrefix, Programmed, SameOutside, Cleared, Doubted;
      hide Lies;
      written := numBytes;
      KeepsRefl(shadow[..], nor.chip, doubt);
      if lba >= BLOCK_COUNT || offset > ERASE_SIZE {
        return InvalidParameter, written;
      }
      if !writable || !LbaWritable(lba) {
        return WriteProtected, written;
      }
      if numBytes > ERASE_SIZE - offset {
        return BadBufferSize, ERASE_SIZE - offset;
      }
      var at := lba * ERASE_SIZE + offset;
      var index := 0;
      while index < numBytes
        invariant 0 <= index <= numBytes
        invariant forall k :: 0 <= k < index ==> Has(shadow[at + k], buffer[k])
      {
        if !Has(shadow[at + index], buffer[index]) {
          return AccessDenied, written;
        }
        index := index + 1;
      }

      ghost var c, s0, d0 := nor.chip, shadow[..], doubt;
      status := nor.NorProgram(RUNTIME_BASE + at, buffer[..numBytes]);
      ghost var d1 := Doubted(d0, at, at + numBytes);
      WindowTouch(s0, c, nor.chip, d0, at, at + numBytes);
      doubt := d1;
      NothingWritten(s0, d1, at);
      if !status.Success? {
        return status, 0;
      }
      if numBytes == 0 {
        NoCommands(RUNTIME_BASE + at);
        return Success, 0;
      }
      ghost var d := nor.chip;
      status, written := VerifyAndCopy(at, buffer[..numBytes]);
      KeepsTrans(c, d, nor.chip);
      TouchesStay(c, d, nor.chip, RUNTIME_BASE + at, RUNTIME_BASE + at + numBytes);
      if c.busy.Idle? && nor.reliable && forall k :: at <= k < at + numBytes ==> !d0[k] {
        ProgrammedLies(s0, c, d0, at, buffer[..numBytes]);
      }
      assert buffer[..numBytes][..written] == buffer[..written];
    }

    /** Read a stretch of the window back, piece by piece, until one is not blank. */
    method ReadsBlank(lo: nat, hi: nat) returns (status: Status)
      requires Valid() && nor.chip.busy.Idle? && lo <= hi <= RUNTIME_SIZE
      modifies nor
      ensures Valid() && Unchanged(old(nor.chip), nor.chip) && status in {Success, DeviceError}
      ensures old(nor.timeouts) <= nor.timeouts && nor.busyReads == old(nor.busyReads)
      ensures status.Success? <==>
        nor.timeouts == old(nor.timeouts) && Blank(nor.chip.flash, RUNTIME_BASE + lo, RUNTIME_BASE + hi)
    {
      hide Coherent, Quiet, Blank;
      UnchangedRefl(nor.chip);
      var offset := lo;
      NothingErased(nor.chip.flash, RUNTIME_BASE + lo, RUNTIME_BASE + lo);
      while offset < hi
        invariant lo <= offset <= hi && Valid() && Unchanged(old(nor.chip), nor.chip)
        invariant nor.timeouts == old(nor.timeouts) && nor.busyReads == old(nor.busyReads)
        invariant Blank(nor.chip.flash, RUNTIME_BASE + lo, RUNTIME_BASE + offset)
      {
        var chunk := if hi - offset < COMMAND_MAX_DATA then hi - offset else COMMAND_MAX_DATA;
        ghost var before := nor.chip;
        var verify;
        status, verify := nor.NorRead(RUNTIME_BASE + offset, chunk);
        QuietTouch(shadow[..], before, nor.chip, doubt);
        IdleUnchanged(before, nor.chip);
        if status.Success? {
          BlankReads(nor.chip.flash, RUNTIME_BASE + lo, RUNTIME_BASE + hi, RUNTIME_BASE + offset, verify);
        }
        var blank := status.Success? && BufferIsErased(verify);
        if !blank {
          return DeviceError;
        }
        BlankMore(nor.chip.flash, RUNTIME_BASE + lo, RUNTIME_BASE + offset, verify);
        offset := offset + chunk;
      }
      return Success;
    }

    /** Erase one block, prove it blank, and blank its shadow. */
    method EraseBlock(lba: nat) returns (status: Status)
      requires Valid() && lba < BLOCK_COUNT && LbaWritable(lba)
      modifies nor, shadow, this`doubt
      ensures Valid() && KeepsProtected(old(nor.chip), nor.chip)
      ensures nor.chip.programs == old(nor.chip).programs
      ensures OnlyTouches(old(nor.chip), nor.chip, RUNTIME_BASE + lba * ERASE_SIZE, RUNTIME_BASE + (lba + 1) * ERASE_SIZE)
      ensures old(nor.timeouts) <= nor.timeouts
      ensures !status.Success? ==> nor.Troubled(old(nor.timeouts)) || old(nor.chip).busy.Working?
      ensures status.Success? ==> nor.timeouts == old(nor.timeouts) && nor.chip.busy.Idle?
      ensures var lo, hi := lba * ERASE_SIZE, (lba + 1) * ERASE_SIZE;
        if status.Success? then
          && SameOutside(old(shadow[..]), shadow[..], lo, hi) && Blank(shadow[..], lo, hi)
          && doubt == Cleared(old(doubt), lo, hi)
        else
          shadow[..] == old(shadow[..]) && doubt == Doubted(old(doubt), lo, hi)
    {
      hide Coherent, Quiet, KeepsProtected, OnlyTouches, Cleared, Doubted, EraseStep;
      var lo, hi := lba * ERASE_SIZE, (lba + 1) * ERASE_SIZE;
      ghost var c, s0, d0 := nor.chip, shadow[..], doubt;
      status := nor.NorEraseSector(RUNTIME_BASE + lo);
      WindowTouch(s0, c, nor.chip, d0, lo, hi);
      doubt := Doubted(d0, lo, hi);
      if !status.Success? {
        return;
      }
      ghost var erased := nor.chip;
      status := ReadsBlank(lo, hi);
      KeepsTrans(c, erased, nor.chip);
      TouchesStay(c, erased, nor.chip, RUNTIME_BASE + lo, RUNTIME_BASE + hi);
      if !status.Success? {
        return;
      }
      forall i | lo <= i < hi {
        shadow[i] := ERASED;
      }
      assert Blank(shadow[..], lo, hi);
      Proven(s0, shadow[..], nor.chip, doubt, lo, hi);
      DoubtedCleared(d0, lo, hi);
      doubt := Cleared(d0, lo, hi);
      return Success;
    }

    /** Erase whole blocks. The list is checked in full before anything is erased.
        On failure at most one block, `failedLba`, is newly in doubt. */
    method FvbEraseBlocks(list: seq<Extent>) returns (status: Status, ghost failedLba: nat)
      requires Valid()
      modifies nor, shadow, this`doubt
      ensures Valid() && KeepsProtected(old(nor.chip), nor.chip)
      ensures !writable || ListCheck(list) != Success ==>
        && status == (if !writable then WriteProtected else ListCheck(list))
        && nor.chip == old(nor.chip) && shadow[..] == old(shadow[..]) && doubt == old(doubt)
      ensures status.Success? ==>
        forall i :: 0 <= i < RUNTIME_SIZE ==>
          && shadow[i] == (if InExtents(list, i) then ERASED else old(shadow[i]))
          && doubt[i] == (!InExtents(list, i) && old(doubt)[i])
      ensures writable && ListCheck(list) == Success && !status.Success? ==>
        && (forall i :: 0 <= i < RUNTIME_SIZE && shadow[i] != old(shadow[i]) ==> InExtents(list, i) && shadow[i] == ERASED)
        && Within(doubt, Doubted(old(doubt), failedLba * ERASE_SIZE, (failedLba + 1) * ERASE_SIZE))
        && (forall i :: failedLba * ERASE_SIZE <= i < (failedLba + 1) * ERASE_SIZE ==> InExtents(list, i))
      ensures nor.chip.programs == old(nor.chip).programs
      ensures OpTouches(old(nor.chip), nor.chip, Erase(list))
      ensures writable && ListCheck(list) == Success && !status.Success? ==>
        nor.Troubled(old(nor.timeouts)) || old(nor.chip).busy.Working?
      ensures status.Success? && list != [] ==> nor.chip.busy.Idle?
    {
      hide Coherent, KeepsProtected, LbaWritable, OpTouches, Within;
      failedLba := 0;
      KeepsRefl(shadow[..], nor.chip, doubt);
      OpTouchesNothing(nor.chip, Erase(list));
      if !writable {
        return WriteProtected, failedLba;
      }
      status := CheckList(list);
      if !status.Success? {
        return;
      }
      ghost var c, s0, d0, t0 := nor.chip, shadow[..], doubt, nor.timeouts;
      var k := 0;
      while k < |list|
        invariant 0 <= k <= |list| && ErasedTo(c, s0, d0, t0, list, k, 0)
      {
        CheckedExtent(list, k);
        var index := 0;
        while index < list[k].count
          invariant 0 <= index <= list[k].count && ErasedTo(c, s0, d0, t0, list, k, index)
        {
          failedLba := list[k].lba + index;
          status := EraseNext(list, k, index, c, s0, d0, t0);
          if !status.Success? {
            return;
          }
          index := index + 1;
        }
        NextExtent(list, k);
        k := k + 1;
      }
      assert list[..k] == list;
      return Success, failedLba;
    }

    /** Where an erase of a list stands: `index` blocks of extent k are done too. */
    ghost predicate ErasedTo(c: Chip, s0: seq<Byte>, d0: Doubt, t0: nat, list: seq<Extent>, k: nat, index: nat)
      reads this, nor, shadow
    {
      && Valid() && KeepsProtected(c, nor.chip) && nor.chip.programs == c.programs
      && OpTouches(c, nor.chip, Erase(list)) && nor.timeouts == t0
      && (if k == 0 && index == 0 then nor.chip == c else nor.chip.busy.Idle?)
      && |s0| == RUNTIME_SIZE && k <= |list|
      && forall i :: 0 <= i < RUNTIME_SIZE ==>
           && shadow[i] == (if ErasedSoFar(list, k, index, i) then ERASED else s0[i])
           && doubt[i] == (!ErasedSoFar(list, k, index, i) && d0[i])
    }

    /** One pass of the erase loop. */
    method EraseNext(list: seq<Extent>, k: nat, index: nat, ghost c: Chip, ghost s0: seq<Byte>, ghost d0: Doubt,
                     ghost t0: nat)
      returns (status: Status)
      requires ListCheck(list) == Success && k < |list| && index < list[k].count
      requires ErasedTo(c, s0, d0, t0, list, k, index)
      modifies nor, shadow, this`doubt
      ensures status.Success? ==> ErasedTo(c, s0, d0, t0, list, k, index + 1)
      ensures var lo, hi := (list[k].lba + index) * ERASE_SIZE, (list[k].lba + index + 1) * ERASE_SIZE;
        !status.Success? ==>
          && Valid() && KeepsProtected(c, nor.chip) && nor.chip.programs == c.programs
          && OpTouches(c, nor.chip, Erase(list)) && (nor.Troubled(t0) || c.busy.Working?)
          && (forall i :: 0 <= i < RUNTIME_SIZE && shadow[i] != s0[i] ==> InExtents(list, i) && shadow[i] == ERASED)
          && Within(doubt, Doubted(d0, lo, hi))
          && (forall i :: lo <= i < hi ==> InExtents(list, i))
    {
      hide Coherent, KeepsProtected, LbaWritable, OpTouches, InExtents, OnlyTouches;
      CheckedExtent(list, k);
      ghost var before := nor.chip;
      status := EraseBlock(list[k].lba + index);
      KeepsTrans(c, before, nor.chip);
      SoFarIsListed(list, k, index);
      BlockTouches(c, before, nor.chip, list, list[k].lba + index);
    }

    /** The checking pass. */
    method CheckList(list: seq<Extent>) returns (status: Status)
      ensures status == ListCheck(list)
    {
      hide LbaWritable;
      var k := 0;
      while k < |list|
        invariant 0 <= k <= |list| && ListCheck(list) == ListCheck(list[k..])
      {
        ListCheckStep(list, k);
        var e := list[k];
        if e.count == 0 || e.lba >= BLOCK_COUNT || e.count > BLOCK_COUNT - e.lba {
          return InvalidParameter;
        }
        var index := 0;
        while index < e.count
          invariant 0 <= index <= e.count
          invariant forall lba :: e.lba <= lba < e.lba + index ==> LbaWritable(lba)
        {
          if !LbaWritable(e.lba + index) {
            return WriteProtected;
          }
          index := index + 1;
        }
        k := k + 1;
      }
      return Success;
    }

    // ---- The raw protocol ---------------------------------------------------

    method NorFlashProgram(atRuntime: bool, address: nat, data: seq<Byte>) returns (status: Status)
      requires Valid()
      modifies nor
      ensures Valid() && KeepsProtected(old(nor.chip), nor.chip)
      ensures atRuntime ==> status == Unsupported
      ensures !atRuntime && !writable ==> status == WriteProtected
      ensures !atRuntime && writable && (address >= RUNTIME_BASE || |data| > RUNTIME_BASE - address) ==>
        status == InvalidParameter
      ensures atRuntime || !writable || address >= RUNTIME_BASE || |data| > RUNTIME_BASE - address ==>
        nor.chip == old(nor.chip)
      ensures OnlyTouches(old(nor.chip), nor.chip, address, address + |data|)
      ensures status.Success? && old(nor.chip).busy.Idle? && nor.reliable ==>
        nor.chip.flash == Programmed(old(nor.chip).flash, address, data)
      ensures status.Success? ==> address + |data| <= NOR_SIZE
      ensures status.Success? ==> nor.chip.programs == old(nor.chip).programs + PageCommands(address, data)
      ensures !atRuntime && writable && address < RUNTIME_BASE && |data| <= RUNTIME_BASE - address && !status.Success? ==>
        nor.Troubled(old(nor.timeouts)) || old(nor.chip).busy.Working?
    {
      hide Coherent, KeepsProtected, PageCommands, SentPrefix, OnlyTouches, ProgramStep;
      ghost var c := nor.chip;
      KeepsRefl(shadow[..], c, doubt);
      NothingTouched(c, address, data);
      if atRuntime {
        return Unsupported;
      }
      if !writable {
        return WriteProtected;
      }
      if address >= RUNTIME_BASE || |data| > RUNTIME_BASE - address {
        return InvalidParameter;
      }
      status := nor.NorProgram(address, data);
      RawTouch(shadow[..], c, nor.chip, doubt, address, address + |data|);
    }

    method NorFlashErase(atRuntime: bool, address: nat, length: nat) returns (status: Status)
      requires Valid()
      modifies nor
      ensures Valid() && KeepsProtected(old(nor.chip), nor.chip)
      ensures atRuntime ==> status == Unsupported
      ensures !atRuntime && !writable ==> status == WriteProtected
      ensures var bad := address % ERASE_SIZE != 0 || length % ERASE_SIZE != 0 ||
                         address >= RUNTIME_BASE || length > RUNTIME_BASE - address;
        && (!atRuntime && writable && bad ==> status == InvalidParameter)
        && (atRuntime || !writable || bad ==> nor.chip == old(nor.chip))
      ensures OnlyTouches(old(nor.chip), nor.chip, address, address + length)
      ensures status.Success? && old(nor.chip).busy.Idle? ==> Blank(nor.chip.flash, address, address + length)
      ensures !atRuntime && writable && address % ERASE_SIZE == 0 && length % ERASE_SIZE == 0
              && address < RUNTIME_BASE && length <= RUNTIME_BASE - address && !status.Success? ==>
        nor.Troubled(old(nor.timeouts)) || old(nor.chip).busy.Working?
    {
      hide Coherent, KeepsProtected, OnlyTouches, EraseStep, Blank;
      ghost var c := nor.chip;
      KeepsRefl(shadow[..], c, doubt);
      NothingErased(c.flash, address, address + length);
      NothingTouched(c, address, seq(length, _ => ERASED));
      if atRuntime {
        return Unsupported;
      }
      if !writable {
        return WriteProtected;
      }
      if address % ERASE_SIZE != 0 || length % ERASE_SIZE != 0
         || address >= RUNTIME_BASE || length > RUNTIME_BASE - address {
        return InvalidParameter;
      }
      var done := 0;
      while done < length
        invariant 0 <= done <= length && done % ERASE_SIZE == 0
        invariant Valid() && KeepsProtected(c, nor.chip) && nor.timeouts == old(nor.timeouts)
        invariant OnlyTouches(c, nor.chip, address, address + length)
        invariant done > 0 ==> nor.chip.busy.Idle?
        invariant c.busy.Idle? ==> nor.chip.busy.Idle? && EraseStep(c.flash, nor.chip.flash, address, address + length)
        invariant c.busy.Idle? ==> Blank(nor.chip.flash, address, address + done)
      {
        ghost var before := nor.chip;
        status := nor.NorEraseSector(address + done);
        RawTouch(shadow[..], before, nor.chip, doubt, address + done, address + done + ERASE_SIZE);
        KeepsTrans(c, before, nor.chip);
        TouchesTrans(c, before, nor.chip, address, address + length, address + done, address + done + ERASE_SIZE);
        if c.busy.Idle? {
          EraseExtends(c.flash, before.flash, nor.chip.flash, address, address + done, address + done + ERASE_SIZE, address + length);
        }
        if !status.Success? {
          return;
        }
        done := done + ERASE_SIZE;
      }
      return Success;
    }

    // ---- Formatting ----------------------------------------------------------

    /** Erase the writable window offsets [lo, hi), leaving the shadow behind. */
    method EraseArea(lo: nat, hi: nat) returns (status: Status)
      requires Valid() && nor.chip.busy.Idle?
      requires lo <= hi <= RUNTIME_SIZE && lo % ERASE_SIZE == 0 && hi % ERASE_SIZE == 0
      requires forall i :: lo <= i < hi ==> LbaWritable(i / ERASE_SIZE)
      modifies nor, this`doubt
      ensures Valid() && KeepsProtected(old(nor.chip), nor.chip) && doubt == Doubted(old(doubt), lo, hi)
      ensures SameOutside(old(nor.chip.flash), nor.chip.flash, RUNTIME_BASE + lo, RUNTIME_BASE + hi)
      ensures status.Success? ==> nor.chip.busy.Idle? && Blank(nor.chip.flash, RUNTIME_BASE + lo, RUNTIME_BASE + hi)
      ensures status in {Success, Timeout} && old(nor.timeouts) <= nor.timeouts
      ensures if status.Success? then nor.timeouts == old(nor.timeouts) else nor.Troubled(old(nor.timeouts))
    {
      hide Coherent, KeepsProtected, OnlyTouches, EraseStep, Blank, LbaWritable;
      ghost var c, d0 := nor.chip, doubt;
      KeepsRefl(shadow[..], c, doubt);
      NothingErased(c.flash, RUNTIME_BASE + lo, RUNTIME_BASE + hi);
      doubt := Doubted(d0, lo, hi);
      MoreDoubt(shadow[..], c, d0, doubt);
      status := Success;
      var at := lo;
      while at < hi
        invariant lo <= at <= hi && at % ERASE_SIZE == 0 && status.Success?
        invariant Valid() && doubt == Doubted(d0, lo, hi)
        invariant KeepsProtected(c, nor.chip) && nor.chip.busy.Idle? && nor.timeouts == old(nor.timeouts)
        invariant EraseStep(c.flash, nor.chip.flash, RUNTIME_BASE + lo, RUNTIME_BASE + hi)
        invariant Blank(nor.chip.flash, RUNTIME_BASE + lo, RUNTIME_BASE + at)
      {
        ghost var before := nor.chip;
        status := nor.NorEraseSector(RUNTIME_BASE + at);
        WindowTouch(shadow[..], before, nor.chip, doubt, at, at + ERASE_SIZE);
        DoubtedAlready(d0, lo, hi, at, at + ERASE_SIZE);
        KeepsTrans(c, before, nor.chip);
        EraseExtends(c.flash, before.flash, nor.chip.flash,
          RUNTIME_BASE + lo, RUNTIME_BASE + at, RUNTIME_BASE + at + ERASE_SIZE, RUNTIME_BASE + hi);
        if !status.Success? {
          break;
        }
        at := at + ERASE_SIZE;
      }
      EraseStepOutside(c.flash, nor.chip.flash, RUNTIME_BASE + lo, RUNTIME_BASE + hi);
    }

    /** Blank a stretch of the shadow that is known to be blank in the flash. */
    method BlankShadow(lo: nat, hi: nat)
      requires Valid() && nor.chip.busy.Idle? && lo <= hi <= RUNTIME_SIZE
      requires Blank(nor.chip.flash, RUNTIME_BASE + lo, RUNTIME_BASE + hi)
      modifies shadow, this`doubt
      ensures Valid() && SameOutside(old(shadow[..]), shadow[..], lo, hi) && Blank(shadow[..], lo, hi)
      ensures doubt == Cleared(old(doubt), lo, hi)
    {
      hide Coherent;
      ghost var s0 := shadow[..];
      forall i | lo <= i < hi {
        shadow[i] := ERASED;
      }
      Proven(s0, shadow[..], nor.chip, doubt, lo, hi);
      doubt := Cleared(doubt, lo, hi);
    }

    /** Erase the variable store and the fault-tolerant-write areas and write a
        fresh header. */
    method FormatVariableStore(p: Platform) returns (status: Status)
      requires Valid() && nor.chip.busy.Idle? && p.Valid()
      modifies nor, shadow, this`doubt
      ensures Valid() && KeepsProtected(old(nor.chip), nor.chip)
      ensures status != CompromisedData && StoreOnly(old(nor.chip.flash), nor.chip.flash)
      ensures if status.Success? then nor.chip.busy.Idle? else nor.Troubled(old(nor.timeouts)) || !nor.reliable
      ensures forall i :: 0 <= i < RUNTIME_SIZE && !InStore(i) ==>
        shadow[i] == old(shadow[i]) && doubt[i] == old(doubt)[i]
      ensures status.Success? ==> VariableHeadersValid(p, shadow[..])
      ensures status.Success? ==> shadow[..HEADERS_SIZE] == BuildVariableHeaders(p)
      ensures status.Success? ==> forall i :: 0 <= i < RUNTIME_SIZE && InStore(i) ==>
        !doubt[i] && (i >= HEADERS_SIZE ==> shadow[i] == ERASED)
    {
      hide Coherent, KeepsProtected, OnlyTouches, ProgramStep, Programmed, PageCommands, SentPrefix,
           BuildVariableHeaders, VariableHeadersValid, LbaWritable, StoreOnly, Lies;
      var headers := BuildVariableHeaders(p);
      BuiltHeadersAreValid(p, []);
      assert headers + [] == headers;
      if !VariableHeadersValid(p, headers) {
        return CompromisedData;
      }
      ghost var c := nor.chip;
      status := EraseStoreAreas();
      if !status.Success? {
        return;
      }
      BlankStoreShadow();
      ghost var before, s1, d1 := nor.chip, shadow[..], doubt;
      status := nor.NorProgram(RUNTIME_BASE, headers);
      HeaderBlocksWritable();
      WindowTouch(s1, before, nor.chip, d1, 0, HEADERS_SIZE);
      KeepsTrans(c, before, nor.chip);
      HeaderInStore(c.flash, before.flash, nor.chip.flash, headers);
      doubt := Doubted(d1, 0, HEADERS_SIZE);
      if !status.Success? {
        return;
      }
      ghost var programmed := nor.chip;
      if nor.reliable {
        BlankTakes(before.flash, RUNTIME_BASE, headers);
      }
      status := VerifyPiece(0, headers);
      KeepsTrans(c, programmed, nor.chip);
      if !status.Success? {
        return;
      }
      assert shadow[..] == headers + shadow[HEADERS_SIZE..];
      BuiltHeadersAreValid(p, shadow[HEADERS_SIZE..]);
    }

    /** The three erase loops. */
    method EraseStoreAreas() returns (status: Status)
      requires Valid() && nor.chip.busy.Idle?
      modifies nor, this`doubt
      ensures Valid() && KeepsProtected(old(nor.chip), nor.chip) && status != CompromisedData
      ensures forall i :: 0 <= i < RUNTIME_SIZE && !InStore(i) ==> doubt[i] == old(doubt)[i]
      ensures status.Success? ==> nor.chip.busy.Idle?
      ensures status.Success? ==> StoreBlank(nor.chip.flash)
      ensures StoreOnly(old(nor.chip.flash), nor.chip.flash) && old(nor.timeouts) <= nor.timeouts
      ensures if status.Success? then nor.timeouts == old(nor.timeouts) else nor.Troubled(old(nor.timeouts))
    {
      hide Coherent, KeepsProtected, LbaWritable;
      StoreIsWritable();
      ghost var c := nor.chip;
      status := EraseArea(0, 0x4_0000);
      if !status.Success? {
        return;
      }
      ghost var d := nor.chip;
      status := EraseArea(0x4_0000, 0x4_2000);
      KeepsTrans(c, d, nor.chip);
      if !status.Success? {
        return;
      }
      ghost var e := nor.chip;
      status := EraseArea(0x8_0000, 0xC_0000);
      KeepsTrans(c, e, nor.chip);
      if !status.Success? {
        return;
      }
    }

    /** Blank the shadow of the three areas. */
    method BlankStoreShadow()
      requires Valid() && nor.chip.busy.Idle?
      requires StoreBlank(nor.chip.flash)
      modifies shadow, this`doubt
      ensures Valid()
      ensures forall i :: 0 <= i < RUNTIME_SIZE ==>
        && shadow[i] == (if InStore(i) then ERASED else old(shadow[i]))
        && doubt[i] == (!InStore(i) && old(doubt)[i])
    {
      hide Coherent;
      BlankShadow(0, 0x4_0000);
      BlankShadow(0x4_0000, 0x4_2000);
      BlankShadow(0x8_0000, 0xC_0000);
    }

    /** The driver's start. A store whose header is found valid is published as it is,
        without a program or erase; one whose header is not is formatted if the flash is
        writable, and then holds a fresh header over blank areas. */
    method Initialize(p: Platform) returns (status: Status)
      requires Valid() && nor.chip.busy.Idle? && p.Valid()
      modifies nor, shadow, this`doubt
      ensures Valid() && KeepsProtected(old(nor.chip), nor.chip)
      ensures status.Success? ==> VariableHeadersValid(p, shadow[..]) && doubt == NO_DOUBT && nor.chip.busy.Idle?
      ensures status.Success? ==> shadow[..] == Window(nor.chip.flash)
      ensures VariableHeadersValid(p, Window(old(nor.chip.flash))) || !writable ==> Unchanged(old(nor.chip), nor.chip)
      ensures VariableHeadersValid(p, Window(old(nor.chip.flash))) ==>
        old(nor.timeouts) <= nor.timeouts && (status.Success? <==> nor.timeouts == old(nor.timeouts))
      ensures !VariableHeadersValid(p, Window(old(nor.chip.flash))) && !writable ==>
        !status.Success? && (nor.timeouts == old(nor.timeouts) ==> status == WriteProtected)
      ensures !VariableHeadersValid(p, Window(old(nor.chip.flash))) && writable ==>
        && StoreOnly(old(nor.chip.flash), nor.chip.flash)
        && (!status.Success? ==> nor.Troubled(old(nor.timeouts)) || !nor.reliable)
        && (status.Success? ==> FreshStore(p, nor.chip.flash))
    {
      hide Coherent, KeepsProtected, VariableHeadersValid, BuildVariableHeaders, Quiet, StoreOnly;
      ghost var c := nor.chip;
      UnchangedRefl(c);
      StoreOnlyRefl(c.flash);
      status := LoadShadow();
      IdleUnchanged(c, nor.chip);
      if !status.Success? {
        return;
      }
      ghost var d, s0 := nor.chip, shadow[..];
      var secondRead;
      status, secondRead := nor.NorRead(RUNTIME_BASE, HEADERS_SIZE);
      QuietTouch(s0, d, nor.chip, doubt);
      KeepsTrans(c, d, nor.chip);
      IdleUnchanged(d, nor.chip);
      if status.Success? {
        assert secondRead == shadow[..HEADERS_SIZE];
      }
      if !status.Success? || secondRead != shadow[..HEADERS_SIZE] {
        return DeviceError;
      }
      if !VariableHeadersValid(p, shadow[..]) {
        if !writable {
          return WriteProtected;
        }
        ghost var e := nor.chip;
        status := FormatVariableStore(p);
        KeepsTrans(c, e, nor.chip);
        if !status.Success? {
          return;
        }
        StoreIsFresh(p, shadow[..], nor.chip, doubt);
      }
      NothingFailed([], [], shadow[..], nor.chip, doubt);
    }

    // ---- Any sequence of operations -------------------------------------------

    method RunOne(op: Operation) returns (status: Status)
      requires Valid()
      modifies nor, shadow, this`doubt
      ensures Valid() && KeepsProtected(old(nor.chip), nor.chip)
      ensures forall i :: 0 <= i < RUNTIME_SIZE && doubt[i] ==> old(doubt)[i] || FailedOn(op, status, i)
      ensures OpTouches(old(nor.chip), nor.chip, op)
    {
      hide Coherent, KeepsProtected, OnlyTouches, PageCommands, InExtents, OpTouches, Lies;
      ghost var c := nor.chip;
      OpTouchesNothing(c, op);
      match op
      case Write(lba, offset, bytes) =>
        ghost var check := WriteCheck(shadow[..], writable, lba, offset, |bytes|, bytes);
        var written;
        status, written := FvbWrite(lba, offset, |bytes|, bytes);
        if check == Success {
          ghost var at := RUNTIME_BASE + lba * ERASE_SIZE + offset;
          OpTouchesSpan(c, nor.chip, op, at, at + |bytes|);
        }
      case Erase(list) =>
        ghost var failedLba;
        status, failedLba := FvbEraseBlocks(list);
      case RawProgram(address, data) =>
        status := NorFlashProgram(false, address, data);
        OpTouchesSpan(c, nor.chip, op, address, address + |data|);
      case RawErase(address, length) =>
        status := NorFlashErase(false, address, length);
        OpTouchesSpan(c, nor.chip, op, address, address + length);
    }

    /** Over any sequence of operations, whatever fails on the way, protected flash
        never changes and shadow and flash can differ only where an operation that
        failed was working. */
    method Run(operations: seq<Operation>) returns (statuses: seq<Status>)
      requires Valid()
      modifies nor, shadow, this`doubt
      ensures Valid() && KeepsProtected(old(nor.chip), nor.chip) && |statuses| == |operations|
      ensures RunTouches(old(nor.chip), nor.chip, operations)
      ensures forall i :: 0 <= i < RUNTIME_SIZE && doubt[i] ==>
        old(doubt)[i] || SomeFailedOn(operations, statuses, i)
      ensures old(doubt) == NO_DOUBT && (forall k :: 0 <= k < |statuses| ==> statuses[k].Success?) ==>
        shadow[..] == nor.chip.flash[RUNTIME_BASE..RUNTIME_BASE + RUNTIME_SIZE]
    {
      hide Coherent, KeepsProtected, FailedOn, OpTouches, RunTouches;
      statuses := [];
      ghost var c, d0 := nor.chip, doubt;
      KeepsRefl(shadow[..], c, d0);
      assert RunTouches(c, c, operations[..0]) by { RunTouchesNothing(c, operations[..0]); }
      while |statuses| < |operations|
        invariant |statuses| <= |operations| && Valid() && KeepsProtected(c, nor.chip)
        invariant RunTouches(c, nor.chip, operations[..|statuses|])
        invariant forall i :: 0 <= i < RUNTIME_SIZE && doubt[i] ==>
          d0[i] || SomeFailedOn(operations[..|statuses|], statuses, i)
      {
        ghost var before := nor.chip;
        var n := |statuses|;
        var status := RunOne(operations[n]);
        KeepsTrans(c, before, nor.chip);
        RunTouchesMore(c, before, nor.chip, operations, n);
        forall i | 0 <= i < RUNTIME_SIZE && doubt[i]
          ensures d0[i] || SomeFailedOn(operations[..n + 1], statuses + [status], i)
        {
          FailedMore(operations, statuses, status, i);
        }
        statuses := statuses + [status];
      }
      assert operations[..|statuses|] == operations;
      NothingFailed(operations, statuses, shadow[..], nor.chip, doubt);
    }

    /** From power-on: the start, which formats a store that is not valid, and then any
        sequence of operations on the volume it publishes. Only the start formats,
        before the volume is published, so no operation does. Over a store found valid
        only the cells of the operations change. */
    method StartAndRun(p: Platform, operations: seq<Operation>) returns (start: Status, statuses: seq<Status>)
      requires Valid() && nor.chip.busy.Idle? && p.Valid()
      modifies nor, shadow, this`doubt
      ensures Valid() && KeepsProtected(old(nor.chip), nor.chip)
      ensures if start.Success? then |statuses| == |operations| else statuses == []
      ensures start.Success? ==> forall i :: 0 <= i < RUNTIME_SIZE && shadow[i] != nor.chip.flash[RUNTIME_BASE + i] ==>
        SomeFailedOn(operations, statuses, i)
      ensures start.Success? && (forall k :: 0 <= k < |statuses| ==> statuses[k].Success?) ==>
        shadow[..] == nor.chip.flash[RUNTIME_BASE..RUNTIME_BASE + RUNTIME_SIZE]
      ensures VariableHeadersValid(p, Window(old(nor.chip.flash))) ==>
        && (start.Success? || nor.timeouts > old(nor.timeouts))
        && forall i :: 0 <= i < NOR_SIZE && !(start.Success? && InSome(operations, i)) ==>
             nor.chip.flash[i] == old(nor.chip.flash)[i]
      ensures forall i :: 0 <= i < NOR_SIZE && !(RUNTIME_BASE <= i && InStore(i - RUNTIME_BASE))
                          && !(start.Success? && InSome(operations, i)) ==>
                nor.chip.flash[i] == old(nor.chip.flash)[i]
    {
      hide KeepsProtected, SomeFailedOn, VariableHeadersValid, InSome, InStore;
      statuses := [];
      ghost var c := nor.chip;
      start := Initialize(p);
      if start.Success? {
        ghost var published := nor.chip;
        statuses := Run(operations);
        KeepsTrans(c, published, nor.chip);
        IdleRun(published, nor.chip, operations);
        DiffersInDoubt(shadow[..], nor.chip, doubt);
      }
    }
  }

  function Window(flash: seq<Byte>): seq<Byte>
    requires |flash| == NOR_SIZE
  {
    flash[RUNTIME_BASE..RUNTIME_BASE + RUNTIME_SIZE]
  }

  /** No program or erase was sent and no cell changed. */
  ghost predicate Unchanged(c: Chip, d: Chip) {
    d.flash == c.flash && d.programs == c.programs && d.erases == c.erases && d.busy == c.busy
  }

  lemma UnchangedRefl(c: Chip)
    ensures Unchanged(c, c)
  {
  }

  lemma IdleUnchanged(c: Chip, d: Chip)
    requires Quiet(c, d) && c.busy.Idle?
    ensures Unchanged(c, d)
  {
  }

  /** Only cells of the variable store and the two fault-tolerant-write areas differ. */
  ghost predicate StoreOnly(before: seq<Byte>, after: seq<Byte>) {
    && |after| == |before|
    && forall i :: 0 <= i < |before| && !(RUNTIME_BASE <= i && InStore(i - RUNTIME_BASE)) ==> after[i] == before[i]
  }

  lemma StoreOnlyRefl(flash: seq<Byte>)
    ensures StoreOnly(flash, flash)
  {
  }

  /** A fresh header, and blank cells behind it and in the other two areas. */
  ghost predicate FreshStore(p: Platform, flash: seq<Byte>)
    requires p.Valid() && |flash| == NOR_SIZE
  {
    && Window(flash)[..HEADERS_SIZE] == BuildVariableHeaders(p)
    && forall i :: HEADERS_SIZE <= i < RUNTIME_SIZE && InStore(i) ==> flash[RUNTIME_BASE + i] == ERASED
  }

  lemma StoreIsFresh(p: Platform, shadow: seq<Byte>, c: Chip, doubt: Doubt)
    requires p.Valid() && Coherent(shadow, c, doubt) && shadow[..HEADERS_SIZE] == BuildVariableHeaders(p)
    requires forall i :: 0 <= i < RUNTIME_SIZE && InStore(i) ==>
               !doubt[i] && (i >= HEADERS_SIZE ==> shadow[i] == ERASED)
    ensures FreshStore(p, c.flash)
  {
    hide BuildVariableHeaders;
    forall i | 0 <= i < HEADERS_SIZE ensures Window(c.flash)[i] == shadow[i] {
      assert InStore(i) && !doubt[i];
    }
    assert Window(c.flash)[..HEADERS_SIZE] == shadow[..HEADERS_SIZE];
  }

  lemma HeaderInStore(a: seq<Byte>, b: seq<Byte>, c: seq<Byte>, headers: seq<Byte>)
    requires StoreOnly(a, b) && |headers| == HEADERS_SIZE && ProgramStep(b, c, RUNTIME_BASE, headers)
    ensures StoreOnly(a, c)
  {
  }

  /** A reliable program of blank cells takes. */
  lemma BlankTakes(flash: seq<Byte>, at: nat, bytes: seq<Byte>)
    requires at + |bytes| <= |flash| && Blank(flash, at, at + |bytes|)
    ensures Lies(Programmed(flash, at, bytes), at, bytes)
  {
    var after := Programmed(flash, at, bytes);
    forall k | 0 <= k < |bytes| ensures after[at + k] == bytes[k] {
      assert flash[at + k] == ERASED;
    }
  }

  lemma DiffersInDoubt(shadow: seq<Byte>, c: Chip, doubt: Doubt)
    requires Coherent(shadow, c, doubt)
    ensures forall i :: 0 <= i < RUNTIME_SIZE && shadow[i] != c.flash[RUNTIME_BASE + i] ==> doubt[i]
  {
  }

  datatype Operation =
    | Write(lba: nat, offset: nat, bytes: seq<Byte>)
    | Erase(list: seq<Extent>)
    | RawProgram(address: nat, data: seq<Byte>)
    | RawErase(rawAddress: nat, length: nat)

  /** Flash address `i` is part of what the operation is to change. */
  ghost predicate InOp(op: Operation, i: int) {
    match op
    case Write(lba, offset, bytes) =>
      RUNTIME_BASE + lba * ERASE_SIZE + offset <= i < RUNTIME_BASE + lba * ERASE_SIZE + offset + |bytes|
    case Erase(list) => InExtents(list, i - RUNTIME_BASE)
    case RawProgram(address, data) => address <= i < address + |data|
    case RawErase(address, length) => address <= i < address + length
  }

  /** Only the cells of the operation changed or can still change, apart from what the
      command in progress before may do. */
  ghost predicate OpTouches(c: Chip, d: Chip, op: Operation) {
    && c.Valid() && d.Valid()
    && (forall i :: 0 <= i < NOR_SIZE && !InOp(op, i) && !PendingAt(c, i) ==> d.flash[i] == c.flash[i])
    && (forall i :: PendingAt(d, i) ==> InOp(op, i) || PendingAt(c, i))
  }

  /** The same for a sequence of operations. */
  ghost predicate RunTouches(c: Chip, d: Chip, operations: seq<Operation>) {
    && c.Valid() && d.Valid()
    && (forall i :: 0 <= i < NOR_SIZE && !InSome(operations, i) && !PendingAt(c, i) ==> d.flash[i] == c.flash[i])
    && (forall i :: PendingAt(d, i) ==> InSome(operations, i) || PendingAt(c, i))
  }

  ghost predicate InSome(operations: seq<Operation>, i: int) {
    exists k :: 0 <= k < |operations| && InOp(operations[k], i)
  }

  lemma OpTouchesNothing(c: Chip, op: Operation)
    requires c.Valid()
    ensures OpTouches(c, c, op)
  {
  }

  lemma IdleRun(c: Chip, d: Chip, operations: seq<Operation>)
    requires RunTouches(c, d, operations) && c.busy.Idle?
    ensures |d.flash| == NOR_SIZE
    ensures forall i :: 0 <= i < NOR_SIZE && !InSome(operations, i) ==> d.flash[i] == c.flash[i]
  {
    hide InSome;
  }

  lemma RunTouchesNothing(c: Chip, operations: seq<Operation>)
    requires c.Valid()
    ensures RunTouches(c, c, operations)
  {
  }

  lemma OpTouchesSpan(c: Chip, d: Chip, op: Operation, lo: int, hi: int)
    requires OnlyTouches(c, d, lo, hi) && forall i :: lo <= i < hi ==> InOp(op, i)
    ensures OpTouches(c, d, op)
  {
  }

  lemma BlockTouches(c: Chip, d: Chip, e: Chip, list: seq<Extent>, lba: nat)
    requires OpTouches(c, d, Erase(list))
    requires OnlyTouches(d, e, RUNTIME_BASE + lba * ERASE_SIZE, RUNTIME_BASE + (lba + 1) * ERASE_SIZE)
    requires forall i :: lba * ERASE_SIZE <= i < (lba + 1) * ERASE_SIZE ==> InExtents(list, i)
    ensures OpTouches(c, e, Erase(list))
  {
    hide InExtents;
    forall i | RUNTIME_BASE + lba * ERASE_SIZE <= i < RUNTIME_BASE + (lba + 1) * ERASE_SIZE
      ensures InOp(Erase(list), i)
    {
      assert InExtents(list, i - RUNTIME_BASE);
    }
    hide InOp;
  }

  lemma RunTouchesMore(c: Chip, d: Chip, e: Chip, operations: seq<Operation>, n: nat)
    requires n < |operations| && RunTouches(c, d, operations[..n]) && OpTouches(d, e, operations[n])
    ensures RunTouches(c, e, operations[..n + 1])
  {
    hide InOp;
    forall i ensures InSome(operations[..n + 1], i) <==> InSome(operations[..n], i) || InOp(operations[n], i) {
      SomeMore(operations, n, i);
    }
    hide InSome;
  }

  lemma SomeMore(operations: seq<Operation>, n: nat, i: int)
    requires n < |operations|
    ensures InSome(operations[..n + 1], i) <==> InSome(operations[..n], i) || InOp(operations[n], i)
  {
    hide InOp;
    var more := operations[..n + 1];
    assert more[n] == operations[n] && forall k :: 0 <= k < n ==> more[k] == operations[..n][k];
  }

  /** The operation failed, and window offset `i` is part of what it was to
      change. */
  ghost predicate FailedOn(op: Operation, status: Status, i: int) {
    !status.Success? &&
    match op
    case Write(lba, offset, bytes) => lba * ERASE_SIZE + offset <= i < lba * ERASE_SIZE + offset + |bytes|
    case Erase(list) => InExtents(list, i)
    case RawProgram(_, _) => false
    case RawErase(_, _) => false
  }

  ghost predicate SomeFailedOn(operations: seq<Operation>, statuses: seq<Status>, i: int)
    requires |operations| == |statuses|
  {
    exists k :: 0 <= k < |operations| && FailedOn(operations[k], statuses[k], i)
  }

  lemma FailedMore(operations: seq<Operation>, statuses: seq<Status>, status: Status, i: int)
    requires |statuses| < |operations|
    ensures SomeFailedOn(operations[..|statuses|], statuses, i) || FailedOn(operations[|statuses|], status, i) ==>
      SomeFailedOn(operations[..|statuses| + 1], statuses + [status], i)
  {
  }

  lemma NothingFailed(operations: seq<Operation>, statuses: seq<Status>, shadow: seq<Byte>, c: Chip, doubt: Doubt)
    requires |operations| == |statuses| && Coherent(shadow, c, doubt)
    ensures (forall k :: 0 <= k < |statuses| ==> statuses[k].Success?) ==>
      forall i :: !SomeFailedOn(operations, statuses, i)
    ensures (forall i :: 0 <= i < RUNTIME_SIZE ==> !doubt[i]) ==>
      shadow == c.flash[RUNTIME_BASE..RUNTIME_BASE + RUNTIME_SIZE]
  {
  }

  /** The window offsets of the variable store and the two fault-tolerant-write
      areas. */
  predicate InStore(i: int) {
    0 <= i < 0x4_2000 || 0x8_0000 <= i < 0xC_0000
  }

  /** Writable are exactly the blocks of the three areas. */
  lemma WritableIsStore(lba: nat)
    requires lba < BLOCK_COUNT
    ensures LbaWritable(lba) <==> InStore(lba * ERASE_SIZE)
  {
  }

  lemma StoreIsWritable()
    ensures forall i :: 0 <= i && InStore(i) ==> LbaWritable(i / ERASE_SIZE)
  {
  }

  ghost predicate StoreBlank(flash: seq<Byte>) {
    && Blank(flash, RUNTIME_BASE, RUNTIME_BASE + 0x4_0000)
    && Blank(flash, RUNTIME_BASE + 0x4_0000, RUNTIME_BASE + 0x4_2000)
    && Blank(flash, RUNTIME_BASE + 0x8_0000, RUNTIME_BASE + 0xC_0000)
  }

  lemma HeaderBlocksWritable()
    ensures forall i :: 0 <= i < HEADERS_SIZE ==> LbaWritable(i / ERASE_SIZE)
  {
  }

  lemma MoreDoubt(shadow: seq<Byte>, c: Chip, d: Doubt, e: Doubt)
    requires Coherent(shadow, c, d) && Within(d, e)
    ensures Coherent(shadow, c, e)
  {
  }

  lemma DoubtedAlready(d: Doubt, lo: nat, hi: nat, lo': nat, hi': nat)
    requires lo <= lo' && hi' <= hi
    ensures Doubted(Doubted(d, lo, hi), lo', hi') == Doubted(d, lo, hi)
  {
  }

  lemma EraseStepOutside(before: seq<Byte>, after: seq<Byte>, lo: int, hi: int)
    requires EraseStep(before, after, lo, hi)
    ensures SameOutside(before, after, lo, hi)
  {
  }

  lemma SoFarIsListed(list: seq<Extent>, k: nat, index: nat)
    requires ListCheck(list) == Success && k < |list| && index < list[k].count
    ensures forall i :: ErasedSoFar(list, k, index, i) ==> InExtents(list, i)
    ensures forall i :: (list[k].lba + index) * ERASE_SIZE <= i < (list[k].lba + index + 1) * ERASE_SIZE ==>
      InExtents(list, i)
  {
    forall i | ErasedSoFar(list, k, index, i) ensures InExtents(list, i) {
      PrefixListed(list, k, list[k].lba + index, i);
    }
    forall i | (list[k].lba + index) * ERASE_SIZE <= i < (list[k].lba + index + 1) * ERASE_SIZE
      ensures InExtents(list, i)
    {
      PrefixListed(list, k, list[k].lba + index, i);
    }
  }

  lemma {:induction false} PrefixListed(list: seq<Extent>, k: nat, lba: nat, i: int)
    requires k < |list| && list[k].lba <= lba < list[k].lba + list[k].count
    requires InExtents(list[..k], i) || list[k].lba * ERASE_SIZE <= i < (lba + 1) * ERASE_SIZE
    ensures InExtents(list, i)
    decreases |list|
  {
    var front := list[..|list| - 1];
    if k < |front| {
      assert front[..k] == list[..k];
      PrefixListed(front, k, lba, i);
    } else {
      assert front == list[..k];
    }
  }

  predicate BufferIsErased(buffer: seq<Byte>) {
    forall i :: 0 <= i < |buffer| ==> buffer[i] == ERASED
  }

  lemma QuietPrograms(c: Chip, d: Chip)
    requires Quiet(c, d)
    ensures d.programs == c.programs && d.erases == c.erases
  {
  }

  lemma BlankMore(flash: seq<Byte>, lo: nat, mid: nat, piece: seq<Byte>)
    requires lo <= mid && mid + |piece| <= |flash|
    requires Blank(flash, lo, mid) && piece == flash[mid..mid + |piece|] && BufferIsErased(piece)
    ensures Blank(flash, lo, mid + |piece|)
  {
  }

  lemma BlankReads(flash: seq<Byte>, lo: nat, hi: nat, at: nat, piece: seq<Byte>)
    requires lo <= at && at + |piece| <= hi <= |flash| && piece == flash[at..at + |piece|]
    ensures Blank(flash, lo, hi) ==> BufferIsErased(piece)
  {
  }

  lemma DoubtedCleared(d: Doubt, lo: nat, hi: nat)
    ensures Cleared(Doubted(d, lo, hi), lo, hi) == Cleared(d, lo, hi)
  {
  }
}
