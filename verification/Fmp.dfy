/** The firmware updater (Vim3FmpDxe): one capsule image goes to eMMC boot0, then
    boot1, then the SPI NOR, and the MCU is told to boot the NOR first.

    `trace` records the persistent state of the board after every single device
    step (sector erase, page program, block write, CMD6, MCU write), finished or
    torn. A power cut leaves the board in some recorded state, so "at every
    step" and "under any power cut" are statements about every entry.

    `pending` is what the NOR chip is still doing after a wait that ran out: a
    command that meets a busy chip may be ignored and still be reported done. */
module Fmp {
  import opened Efi
  import opened NorFlash
  import Arith

  const BLOCK_SIZE := 512
  const BOOT_PARTITION_BLOCKS := 8192
  const BOOT_PARTITION_SIZE := BOOT_PARTITION_BLOCKS * BLOCK_SIZE
  const NOR_WRITE_CHUNK := 0x1_0000
  const IMAGE_INDEX := 1

  const PARTITION_ACCESS_MASK: bv8 := 0x7
  const ACCESS_USER: bv8 := 0
  const ACCESS_BOOT0: bv8 := 1
  const ACCESS_BOOT1: bv8 := 2
  const EXTCSD_PARTITION_CONFIG: bv32 := 179

  const MCU_SPI_FIRST: bv8 := 0
  const MCU_DEVICE_VIM3: bv8 := 3

  /** Whether the MCU library lets this driver write: decided once, by the first write. */
  datatype Mcu = Unprobed | Trusted | Refused

  /** What the identity probe reads, if it can. */
  datatype Identity = NoAnswer | Identity(deviceHigh: bv8, deviceLow: bv8, bootEnRtc: bv8)

  function Judged(identity: Identity): Mcu {
    if identity.NoAnswer? then Refused
    else if identity.deviceHigh != 0 || identity.deviceLow != MCU_DEVICE_VIM3 || identity.bootEnRtc > 2 then Refused
    else Trusted
  }

  /** Only an MCU that answers as a VIM3 with a sane power setting is trusted. */
  lemma JudgedIs(high: bv8, low: bv8, rtc: bv8)
    ensures Judged(Identity.Identity(high, low, rtc)).Trusted? <==> high == 0 && low == 3 && rtc in {0, 1, 2}
    ensures !Judged(Identity.Identity(high, low, rtc)).Unprobed? && Judged(NoAnswer).Refused?
  {
  }

  /** A judgement stands, and the boot mode was switched only by a trusted MCU. */
  predicate MoreSure(before: Mcu, after: Mcu, switched: bool) {
    (before.Unprobed? || after == before) && (switched ==> after.Trusted?)
  }

  /** The last-attempt status, one code per stage that can fail. */
  datatype LastAttempt =
    | AttemptSuccess | InvalidFormat | NoNorProtocol | NoEmmc
    | Boot0Failed | Boot1Failed | NorFailed | McuFlipFailed

  /** Everything that survives a power cut. `nor` is the part of the chip that
      the raw protocol can reach, below the variable window. */
  datatype Board = Board(
    user: seq<Byte>,
    boot0: seq<Byte>,
    boot1: seq<Byte>,
    nor: seq<Byte>,
    partitionConfig: bv8,
    bootMode: bv8)
  {
    ghost predicate Valid() {
      && |boot0| == BOOT_PARTITION_SIZE
      && |boot1| == BOOT_PARTITION_SIZE
      && |user| >= BOOT_PARTITION_SIZE
      && |nor| == RUNTIME_BASE
    }
  }

  /** The hardware partition that block traffic addresses. */
  datatype Partition = User | Boot0 | Boot1 | OtherPartition

  function Selected(config: bv8): Partition {
    var access := config & PARTITION_ACCESS_MASK;
    if access == ACCESS_USER then User
    else if access == ACCESS_BOOT0 then Boot0
    else if access == ACCESS_BOOT1 then Boot1
    else OtherPartition
  }

  lemma SelectedByAccess()
    ensures Selected(ACCESS_USER) == User && Selected(ACCESS_BOOT0) == Boot0 && Selected(ACCESS_BOOT1) == Boot1
  {
  }

  function Contents(b: Board, p: Partition): seq<Byte> {
    match p
    case User => b.user
    case Boot0 => b.boot0
    case Boot1 => b.boot1
    case OtherPartition => []
  }

  function WithContents(b: Board, p: Partition, s: seq<Byte>): Board {
    match p
    case User => b.(user := s)
    case Boot0 => b.(boot0 := s)
    case Boot1 => b.(boot1 := s)
    case OtherPartition => b
  }

  ghost predicate StartsWith(s: seq<Byte>, image: seq<Byte>) {
    |image| <= |s| && s[..|image|] == image
  }

  /** The card stack answers anything but these two. */
  predicate FromCard(status: Status) {
    status !in {VolumeCorrupted, AccessDenied}
  }

  lemma StartsWithNothing(s: seq<Byte>, none: seq<Byte>)
    requires none == []
    ensures StartsWith(s, none)
  {
  }

  // ---- CMD6 -------------------------------------------------------------

  /** The SWITCH argument that stores `config` in EXT_CSD byte 179. */
  function SwitchArgument(config: bv8): bv32 {
    ((3 & 0x3) << 24) | ((EXTCSD_PARTITION_CONFIG & 0xFF) << 16) | ((config as bv32) << 8) | (1 & 0x7)
  }

  /** What a card does with a SWITCH argument: access mode 3 writes the value
      byte to the indexed EXT_CSD byte; only byte 179 is modelled. */
  function SwitchResult(config: bv8, argument: bv32): bv8 {
    if (argument >> 24) & 0x3 == 3 && (argument >> 16) & 0xFF == EXTCSD_PARTITION_CONFIG
    then ((argument >> 8) & 0xFF) as bv8
    else config
  }

  /** The config byte that SelectPartition writes: access bits replaced, the
      BOOT_PARTITION_ENABLE and BOOT_ACK bits kept. */
  function WithAccess(config: bv8, access: bv8): bv8 {
    (config & !PARTITION_ACCESS_MASK) | (access & PARTITION_ACCESS_MASK)
  }

  /** The encoded switch selects exactly the partition asked for and leaves
      PARTITION_CONFIG bits 7:3, which choose the boot partition, alone. */
  lemma SwitchSelects(config: bv8, access: bv8)
    ensures SwitchResult(config, SwitchArgument(WithAccess(config, access))) == WithAccess(config, access)
    ensures SwitchArgument(config) & 0xFF == 1
    ensures WithAccess(config, access) & 0xF8 == config & 0xF8
    ensures WithAccess(config, access) & PARTITION_ACCESS_MASK == access & PARTITION_ACCESS_MASK
  {
  }

  /** Block `lba` of the selected partition may hold anything, and nothing else changed. */
  ghost predicate BlockWritten(b: Board, t: Board, lba: nat) {
    var p := Selected(b.partitionConfig);
    && t == WithContents(b, p, Contents(t, p))
    && SameOutside(Contents(b, p), Contents(t, p), lba * BLOCK_SIZE, (lba + 1) * BLOCK_SIZE)
  }

  /** The block holds the data. */
  ghost predicate BlockTaken(b: Board, t: Board, lba: nat, data: seq<Byte>) {
    var p := Selected(b.partitionConfig);
    var before := Contents(b, p);
    && (lba + 1) * BLOCK_SIZE <= |before|
    && Contents(t, p) == before[..lba * BLOCK_SIZE] + data + before[(lba + 1) * BLOCK_SIZE..]
  }

  lemma BlocksTaken(b: Board, t: Board, image: seq<Byte>, lba: nat)
    requires (lba + 1) * BLOCK_SIZE <= |image| && t.partitionConfig == b.partitionConfig
    requires StartsWith(Contents(b, Selected(b.partitionConfig)), image[..lba * BLOCK_SIZE])
    requires BlockTaken(b, t, lba, image[lba * BLOCK_SIZE..(lba + 1) * BLOCK_SIZE])
    ensures StartsWith(Contents(t, Selected(t.partitionConfig)), image[..(lba + 1) * BLOCK_SIZE])
  {
    var lo, hi, before := lba * BLOCK_SIZE, (lba + 1) * BLOCK_SIZE, Contents(b, Selected(b.partitionConfig));
    assert before[..lo] == image[..lo];
    assert image[..hi] == image[..lo] + image[lo..hi];
    assert (before[..lo] + image[lo..hi] + before[hi..])[..hi] == before[..lo] + image[lo..hi];
  }

  // ---- What a run may leave behind ---------------------------------------

  /** Only the NOR differs. */
  ghost predicate OnlyNor(o: Board, t: Board) {
    t == o.(nor := t.nor) && |t.nor| == |o.nor|
  }

  /** Only the leading `length` bytes of one hardware partition differ. */
  ghost predicate OnlyPartition(o: Board, t: Board, p: Partition, length: int) {
    t == WithContents(o, p, Contents(t, p)) && SameOutside(Contents(o, p), Contents(t, p), 0, length)
  }

  ghost predicate OnlyConfig(o: Board, t: Board) {
    t == o.(partitionConfig := t.partitionConfig) && t.partitionConfig & 0xF8 == o.partitionConfig & 0xF8
  }

  /** What the chip still does: nothing, something that leaves the raw part alone, or
      an erase or page program that timed out. None of it survives a power cut. */
  datatype Pending = Idle | Busy | Erasing(sector: nat) | Programming(address: nat, data: seq<Byte>)

  /** The cells after the chip went on for a while with what is pending. */
  predicate PendingStep(before: seq<Byte>, after: seq<Byte>, p: Pending) {
    match p
    case Erasing(sector) => EraseStep(before, after, sector, sector + ERASE_SIZE)
    case Programming(address, data) => ProgramStep(before, after, address, data)
    case _ => after == before
  }

  ghost predicate Finished(t: seq<Byte>, p: Pending) {
    p.Erasing? ==> Blank(t, p.sector, p.sector + ERASE_SIZE)
  }

  /** A state during an erase call: at first the chip may go on with what was
      pending, until it is in state `settled`. */
  ghost predicate Passed(before: seq<Byte>, p: Pending, settled: seq<Byte>, t: seq<Byte>, lo: nat, hi: nat) {
    PendingStep(before, t, p) || EraseStep(settled, t, lo, hi)
  }

  /** Reported erased from `lo` to `hi`: the sector whose command met a busy chip
      need not be, but by then the chip was done with what was pending. */
  ghost predicate Wiped(settled: seq<Byte>, t: seq<Byte>, p: Pending, lo: nat, hi: nat) {
    && Blank(t, if p.Idle? then lo else lo + ERASE_SIZE, hi)
    && (lo < hi ==> Finished(settled, p))
  }

  /** What a failed erase of [lo, hi) leaves pending. */
  ghost predicate LeftErasing(p0: Pending, p: Pending, settled: seq<Byte>, t: seq<Byte>, lo: nat, hi: nat) {
    || p.Idle?
    || (p == p0 && t == settled)
    || (p.Erasing? && p.sector % ERASE_SIZE == 0 && lo <= p.sector && p.sector + ERASE_SIZE <= hi
        && Wiped(settled, t, p0, lo, p.sector))
  }

  ghost predicate PieceOf(p: Pending, address: nat, data: seq<Byte>)
    requires p.Programming?
  {
    && address <= p.address && p.address + |p.data| <= address + |data|
    && p.data == data[p.address - address..p.address - address + |p.data|]
  }

  /** What a failed program leaves pending. */
  ghost predicate LeftProgramming(p0: Pending, p: Pending, settled: seq<Byte>, t: seq<Byte>, address: nat, data: seq<Byte>) {
    p.Idle? || (p == p0 && t == settled) || (p.Programming? && PieceOf(p, address, data))
  }

  function WithBlank(flash: seq<Byte>, lo: nat, hi: nat): (r: seq<Byte>)
    ensures |r| == |flash|
  {
    seq(|flash|, i requires 0 <= i < |flash| => if lo <= i < hi then ERASED else flash[i])
  }

  lemma ProgrammedNothing(t: seq<Byte>, address: nat, data: seq<Byte>)
    ensures Programmed(t, address, data[..0]) == t
  {
  }

  /** A page of a program call: at first the chip may go on with what was pending. */
  lemma PagePasses(o: seq<Byte>, p0: Pending, settled: seq<Byte>, next: seq<Byte>, t: seq<Byte>, address: nat,
                   data: seq<Byte>, done: nat, piece: nat)
    requires done + piece <= |data| && address + |data| <= |settled|
    requires ProgramStep(settled, next, address, data) && SameOutside(settled, next, address, address + done)
    requires ProgramStep(next, t, address + done, data[done..done + piece]) || t == next
             || (done == 0 && PendingStep(o, t, p0))
    ensures PendingStep(o, t, p0) || ProgramStep(settled, t, address, data)
  {
    hide ProgramStep, PendingStep, SameOutside;
    if ProgramStep(next, t, address + done, data[done..done + piece]) {
      ProgramExtends(settled, next, t, address, data, done, piece);
    }
  }

  /** What a page leaves pending, as the whole call does. */
  lemma LeftByPage(p0: Pending, p: Pending, settled: seq<Byte>, next: seq<Byte>, t: seq<Byte>, address: nat,
                   data: seq<Byte>, done: nat, piece: nat)
    requires done + piece <= |data|
    requires p.Idle? || p == Programming(address + done, data[done..done + piece])
             || (done == 0 && next == settled && p == p0 && t == next)
    ensures LeftProgramming(p0, p, settled, t, address, data)
  {
  }

  lemma NothingPending(t: seq<Byte>, p: Pending)
    ensures PendingStep(t, t, p)
  {
    match p
    case Erasing(sector) => NothingErased(t, sector, sector + ERASE_SIZE);
    case Programming(address, data) => NothingProgrammed(t, address, data);
    case _ =>
  }

  lemma PendingTrans(a: seq<Byte>, b: seq<Byte>, c: seq<Byte>, p: Pending)
    requires PendingStep(a, b, p) && PendingStep(b, c, p)
    ensures PendingStep(a, c, p)
  {
    match p
    case Programming(address, data) => ProgramTrans(a, b, c, address, data);
    case Erasing(sector) => EraseStepTrans(a, b, c, sector, sector, sector + ERASE_SIZE);
    case _ =>
  }

  lemma ProgramTrans(a: seq<Byte>, b: seq<Byte>, c: seq<Byte>, address: nat, data: seq<Byte>)
    requires ProgramStep(a, b, address, data) && ProgramStep(b, c, address, data)
    ensures ProgramStep(a, c, address, data)
  {
    forall i | 0 <= i < |a| && address <= i < address + |data|
      ensures Has(c[i], a[i] & data[i - address]) && Has(a[i], c[i])
    {
      ProgramTwiceBits(a[i], b[i], c[i], data[i - address]);
    }
  }

  lemma PendingEnds(t: seq<Byte>, p: Pending)
    requires p.Erasing?
    ensures PendingStep(t, WithBlank(t, p.sector, p.sector + ERASE_SIZE), p)
    ensures Finished(WithBlank(t, p.sector, p.sector + ERASE_SIZE), p)
  {
    forall i | 0 <= i < |t| ensures Has(ERASED, t[i]) {
      BlankHasAll(t[i]);
    }
  }

  lemma BlankHasAll(cell: Byte)
    ensures Has(ERASED, cell)
  {
  }

  lemma SameLength(a: seq<Byte>, b: seq<Byte>, p: Pending)
    requires PendingStep(a, b, p)
    ensures |b| == |a| && (p.Idle? || p.Busy? ==> b == a)
  {
  }

  lemma EraseEnds(settled: seq<Byte>, b: seq<Byte>, p: Pending, sector: nat)
    requires EraseStep(settled, b, sector, sector + ERASE_SIZE) && Finished(settled, p)
    ensures var t := WithBlank(b, sector, sector + ERASE_SIZE);
      EraseStep(settled, t, sector, sector + ERASE_SIZE) && Wiped(settled, t, p, sector, sector + ERASE_SIZE)
  {
    var t := WithBlank(b, sector, sector + ERASE_SIZE);
    PendingEnds(b, Erasing(sector));
    EraseStepTrans(settled, b, t, sector, sector, sector + ERASE_SIZE);
  }

  lemma ErasedLength(a: seq<Byte>, b: seq<Byte>, sector: nat)
    requires EraseStep(a, b, sector, sector + ERASE_SIZE)
    ensures |b| == |a|
  {
  }

  lemma EraseIgnored(settled: seq<Byte>, p: Pending, sector: nat)
    requires !p.Idle? && Finished(settled, p)
    ensures Wiped(settled, settled, p, sector, sector + ERASE_SIZE)
  {
  }

  lemma LeftAtOnce(p0: Pending, settled: seq<Byte>, t: seq<Byte>, sector: nat)
    requires sector % ERASE_SIZE == 0
    ensures LeftErasing(p0, Erasing(sector), settled, t, sector, sector + ERASE_SIZE)
    ensures LeftErasing(p0, Idle, settled, t, sector, sector + ERASE_SIZE)
    ensures LeftErasing(p0, p0, settled, settled, sector, sector + ERASE_SIZE)
  {
  }

  // ---- An erase call, sector by sector -------------------------------------

  lemma NotBegun(t: seq<Byte>, p: Pending, lo: nat, hi: nat)
    ensures EraseStep(t, t, lo, hi) && Wiped(t, t, p, lo, lo) && LeftErasing(p, p, t, t, lo, hi)
  {
    NothingErased(t, lo, hi);
  }

  lemma EraseWider(a: seq<Byte>, b: seq<Byte>, lo: nat, mid: nat, end: nat, hi: nat)
    requires lo <= mid <= end <= hi && EraseStep(a, b, mid, end)
    ensures EraseStep(a, b, lo, hi)
  {
    NothingErased(a, lo, hi);
    EraseExtends(a, a, b, mid, mid, end, hi);
  }

  lemma FirstSector(before: seq<Byte>, p: Pending, settled: seq<Byte>, t: seq<Byte>, lo: nat, end: nat, hi: nat)
    requires lo <= end <= hi && Passed(before, p, settled, t, lo, end)
    ensures Passed(before, p, settled, t, lo, hi)
  {
    if EraseStep(settled, t, lo, end) {
      EraseWider(settled, t, lo, lo, end, hi);
    }
  }

  lemma FirstSectorLeft(p0: Pending, p: Pending, settled: seq<Byte>, t: seq<Byte>, lo: nat, end: nat, hi: nat)
    requires lo <= end <= hi && EraseStep(settled, t, lo, end)
    ensures EraseStep(settled, t, lo, hi)
    ensures LeftErasing(p0, p, settled, t, lo, end) ==> LeftErasing(p0, p, settled, t, lo, hi)
  {
    EraseWider(settled, t, lo, lo, end, hi);
  }

  /** A sector erased from `b` on keeps what was wiped before it. */
  lemma LaterSector(settled: seq<Byte>, b: seq<Byte>, t: seq<Byte>, p: Pending, lo: nat, mid: nat, end: nat, hi: nat)
    requires lo < mid <= end <= hi && EraseStep(settled, b, lo, hi) && Wiped(settled, b, p, lo, mid)
    requires EraseStep(b, t, mid, end)
    ensures EraseStep(settled, t, lo, hi) && Wiped(settled, t, p, lo, mid)
    ensures Wiped(b, t, Idle, mid, end) ==> Wiped(settled, t, p, lo, end)
  {
    EraseStepTrans(settled, b, t, lo, mid, hi);
  }

  lemma LaterSectorPasses(before: seq<Byte>, p: Pending, settled: seq<Byte>, b: seq<Byte>, t: seq<Byte>, lo: nat,
                          mid: nat, end: nat, hi: nat)
    requires lo < mid <= end <= hi && EraseStep(settled, b, lo, hi)
    requires Passed(b, Idle, b, t, mid, end)
    ensures Passed(before, p, settled, t, lo, hi)
  {
    if t != b {
      EraseStepTrans(settled, b, t, lo, mid, hi);
    }
  }

  lemma LaterSectorLeft(settled: seq<Byte>, b: seq<Byte>, t: seq<Byte>, p0: Pending, p: Pending, lo: nat, mid: nat,
                        hi: nat)
    requires lo < mid && mid + ERASE_SIZE <= hi && Wiped(settled, t, p0, lo, mid)
    requires LeftErasing(Idle, p, b, t, mid, mid + ERASE_SIZE)
    ensures LeftErasing(p0, p, settled, t, lo, hi)
  {
  }

  /** The NOR while one chunk is updated: its old bits or the bits of the new
      chunk are all still set, and nothing outside its sectors changed. */
  ghost predicate InChunkUpdate(o: seq<Byte>, t: seq<Byte>, address: nat, data: seq<Byte>) {
    var hi := address + AlignUp(|data|);
    && SameOutside(o, t, address, hi)
    && (CoversIn(t, o, address, hi) || CoversIn(t, Laid(o, address, data), address, hi))
  }

  function FirstChunk(nor: seq<Byte>): (n: nat)
    ensures n <= |nor| && n <= NOR_WRITE_CHUNK
  {
    if |nor| < NOR_WRITE_CHUNK then |nor| else NOR_WRITE_CHUNK
  }

  /** Erasing the first chunk has begun: it is the old one with at most bits
      set, and everything else is untouched. */
  ghost predicate OldFirstChunk(o: seq<Byte>, t: seq<Byte>, image: seq<Byte>) {
    var first := AlignUp(FirstChunk(image));
    SameOutside(o, t, 0, first) && CoversIn(t, o, 0, first)
  }

  /** The first chunk is blank and others are being written; its first sector still
      has the old bits set if the chip was busy when the rewrite began. */
  ghost predicate NoFirstChunk(o: seq<Byte>, t: seq<Byte>, image: seq<Byte>, idle: bool) {
    && |image| > NOR_WRITE_CHUNK && CoversIn(t, o, 0, NOR_WRITE_CHUNK)
    && Blank(t, if idle then 0 else ERASE_SIZE, NOR_WRITE_CHUNK)
  }

  /** The first chunk is the new one with at most bits set, and everything else
      is already as it should be. */
  ghost predicate NewFirstChunk(o: seq<Byte>, t: seq<Byte>, image: seq<Byte>) {
    var first := AlignUp(FirstChunk(image));
    SameOutside(Laid(o, 0, image), t, 0, first) && CoversIn(t, Laid(o, 0, image), 0, first)
  }

  /** The NOR at some step of a rewrite with `image`; `idle`: the chip was idle when
      the rewrite began. */
  ghost predicate InNorRewrite(o: seq<Byte>, t: seq<Byte>, image: seq<Byte>, idle: bool) {
    && SameOutside(o, t, 0, AlignUp(|image|))
    && (OldFirstChunk(o, t, image) || NoFirstChunk(o, t, image, idle) || NewFirstChunk(o, t, image))
  }

  /** The state between chunks: the first one blank, the others new below
      `offset` and old above. */
  ghost predicate RewrittenUpTo(o: seq<Byte>, t: seq<Byte>, image: seq<Byte>, offset: nat, idle: bool) {
    var first := AlignUp(FirstChunk(image));
    && |t| == |o|
    && CoversIn(t, o, 0, first) && Blank(t, if idle then 0 else ERASE_SIZE, first)
    && forall i :: first <= i < |o| ==> t[i] == if i < AlignUp(offset) then Laid(o, 0, image)[i] else o[i]
  }

  lemma PartitionStays(o: Board, before: Board, after: Board, p: Partition, lo: nat, hi: nat, length: nat)
    requires before == o || OnlyPartition(o, before, p, length)
    requires hi <= length
    requires after == WithContents(before, p, Contents(after, p))
    requires SameOutside(Contents(before, p), Contents(after, p), lo, hi)
    ensures OnlyPartition(o, after, p, length)
    ensures after.partitionConfig == o.partitionConfig
  {
  }

  /** Only one boot partition and the access bits differ. */
  ghost predicate OnlyCopy(o: Board, t: Board, p: Partition, length: int) {
    && t == WithContents(o, p, Contents(t, p)).(partitionConfig := t.partitionConfig)
    && t.partitionConfig & 0xF8 == o.partitionConfig & 0xF8
    && SameOutside(Contents(o, p), Contents(t, p), 0, length)
  }

  lemma AccessReplaced(o: Board, access: bv8)
    ensures var config := WithAccess(o.partitionConfig, access);
      && SwitchResult(o.partitionConfig, SwitchArgument(config)) == config
      && OnlyConfig(o, o.(partitionConfig := config)) && OnlyConfig(o, o)
      && config & PARTITION_ACCESS_MASK == access & PARTITION_ACCESS_MASK
  {
    SwitchSelects(o.partitionConfig, access);
    hide SwitchResult, SwitchArgument, WithAccess;
  }

  lemma ConfigThenCopy(o: Board, b: Board, t: Board, p: Partition, length: nat)
    requires OnlyConfig(o, b) && (t == b || OnlyPartition(b, t, p, length))
    ensures OnlyCopy(o, t, p, length)
  {
  }

  lemma ChunkUpdateStarts(o: seq<Byte>, address: nat, data: seq<Byte>)
    ensures InChunkUpdate(o, o, address, data)
  {
  }

  // ---- One whole update ----------------------------------------------------

  /** boot0 is being written; the other copies are the old ones. */
  ghost predicate WritingBoot0(o: Board, t: Board) {
    t.boot1 == o.boot1 && t.nor == o.nor && t.bootMode == o.bootMode
  }

  /** boot0 holds the new image; boot1 may be in the middle of its write. */
  ghost predicate WritingBoot1(o: Board, t: Board, image: seq<Byte>) {
    StartsWith(t.boot0, image) && t.nor == o.nor && t.bootMode == o.bootMode
  }

  /** Both eMMC copies are new; the NOR is being rewritten. */
  ghost predicate WritingNor(o: Board, t: Board, image: seq<Byte>, idle: bool) {
    && StartsWith(t.boot0, image) && StartsWith(t.boot1, image) && t.bootMode == o.bootMode
    && |image| > BLOCK_SIZE && InNorRewrite(o.nor, t.nor, image[BLOCK_SIZE..], idle)
  }

  /** All three copies are new; the boot mode may change. */
  ghost predicate FlippingMcu(o: Board, t: Board, image: seq<Byte>) {
    && StartsWith(t.boot0, image) && StartsWith(t.boot1, image)
    && |image| > BLOCK_SIZE && t.nor == Laid(o.nor, 0, image[BLOCK_SIZE..])
  }

  /** The board at some step of updating `o` with `image`. */
  ghost predicate InUpdate(o: Board, t: Board, image: seq<Byte>, writeNor: bool, optIn: bool, idle: bool) {
    && t.user == o.user
    && t.partitionConfig & 0xF8 == o.partitionConfig & 0xF8
    && SameOutside(o.boot0, t.boot0, 0, |image|)
    && SameOutside(o.boot1, t.boot1, 0, |image|)
    && (|| WritingBoot0(o, t)
        || WritingBoot1(o, t, image)
        || (writeNor && WritingNor(o, t, image, idle))
        || (optIn && FlippingMcu(o, t, image)))
  }

  /** What each last-attempt code tells about the board `e` an update left. */
  ghost predicate Outcome(o: Board, e: Board, image: seq<Byte>, writeNor: bool, optIn: bool, last: LastAttempt) {
    match last
    case InvalidFormat | NoNorProtocol | NoEmmc => e == o
    case Boot0Failed => WritingBoot0(o, e)
    case Boot1Failed => WritingBoot1(o, e, image)
    case NorFailed =>
      writeNor && StartsWith(e.boot0, image) && StartsWith(e.boot1, image) && e.bootMode == o.bootMode
    case McuFlipFailed => optIn && FlippingMcu(o, e, image)
    case AttemptSuccess =>
      && StartsWith(e.boot0, image) && StartsWith(e.boot1, image)
      && e.nor == (if writeNor && |image| > BLOCK_SIZE then Laid(o.nor, 0, image[BLOCK_SIZE..]) else o.nor)
      && (writeNor ==> |image| > BLOCK_SIZE)
      && e.bootMode == (if optIn then MCU_SPI_FIRST else o.bootMode)
  }

  lemma Boot0InUpdate(o: Board, t: Board, image: seq<Byte>, idle: bool)
    requires t == o || OnlyCopy(o, t, Boot0, |image|)
    ensures InUpdate(o, t, image, false, false, idle) && WritingBoot0(o, t)
  {
  }

  lemma Boot1InUpdate(o: Board, b: Board, t: Board, image: seq<Byte>, idle: bool)
    requires OnlyCopy(o, b, Boot0, |image|) && StartsWith(b.boot0, image) && OnlyCopy(b, t, Boot1, |image|)
    ensures InUpdate(o, t, image, false, false, idle) && WritingBoot1(o, t, image)
  {
  }

  lemma ConfigInUpdate(o: Board, b: Board, t: Board, image: seq<Byte>, idle: bool)
    requires InUpdate(o, b, image, false, false, idle) && OnlyConfig(b, t)
    ensures InUpdate(o, t, image, false, false, idle)
    ensures WritingBoot0(o, b) ==> WritingBoot0(o, t)
    ensures WritingBoot1(o, b, image) ==> WritingBoot1(o, t, image)
    ensures StartsWith(b.boot1, image) ==> StartsWith(t.boot1, image)
  {
  }

  lemma NorInUpdate(o: Board, b: Board, t: Board, image: seq<Byte>, optIn: bool, idle: bool)
    requires InUpdate(o, b, image, false, false, true) && WritingBoot1(o, b, image) && StartsWith(b.boot1, image)
    requires |image| > BLOCK_SIZE && OnlyNor(b, t) && InNorRewrite(b.nor, t.nor, image[BLOCK_SIZE..], idle)
    ensures InUpdate(o, t, image, true, optIn, idle) && WritingNor(o, t, image, idle)
    ensures t.partitionConfig == b.partitionConfig
  {
  }

  lemma McuInUpdate(o: Board, b: Board, t: Board, image: seq<Byte>, idle: bool)
    requires InUpdate(o, b, image, true, true, idle) && WritingNor(o, b, image, idle)
    requires b.nor == Laid(o.nor, 0, image[BLOCK_SIZE..])
    requires t == b || t == b.(bootMode := MCU_SPI_FIRST)
    ensures InUpdate(o, t, image, true, true, idle) && FlippingMcu(o, t, image)
  {
  }

  lemma UpdateWidens(o: Board, t: Board, image: seq<Byte>, writeNor: bool, optIn: bool, idle: bool)
    requires t == o || InUpdate(o, t, image, false, false, true)
    ensures InUpdate(o, t, image, writeNor, optIn, idle)
  {
  }

  lemma NothingDone(o: Board, image: seq<Byte>, writeNor: bool, optIn: bool)
    ensures forall last :: last in {InvalidFormat, NoNorProtocol, NoEmmc} ==>
              Outcome(o, o, image, writeNor, optIn, last)
  {
  }

  lemma OutcomeWidens(o: Board, e: Board, image: seq<Byte>, writeNor: bool, optIn: bool, last: LastAttempt)
    ensures last in {Boot0Failed, Boot1Failed} && Outcome(o, e, image, false, false, last) ==>
              Outcome(o, e, image, writeNor, optIn, last)
  {
  }

  lemma RescueOnly(o: Board, t: Board, image: seq<Byte>)
    requires WritingBoot1(o, t, image) && StartsWith(t.boot1, image)
    ensures Outcome(o, t, image, false, false, AttemptSuccess)
  {
  }

  /** The board at some step of copying boot0 into the NOR: the eMMC copies are
      never touched, and the boot mode moves only once the NOR is whole. */
  ghost predicate InInstall(o: Board, t: Board, idle: bool) {
    && o.Valid() && t.user == o.user && t.boot0 == o.boot0 && t.boot1 == o.boot1
    && t.partitionConfig & 0xF8 == o.partitionConfig & 0xF8
    && |t.nor| == |o.nor|
    && (t.nor == o.nor || InNorRewrite(o.nor, t.nor, o.boot0[BLOCK_SIZE..], idle))
    && (t.bootMode == o.bootMode || t.nor == Laid(o.nor, 0, o.boot0[BLOCK_SIZE..]))
  }

  lemma ConfigInInstall(o: Board, t: Board, idle: bool)
    requires o.Valid() && (t == o || OnlyConfig(o, t))
    ensures InInstall(o, t, idle)
  {
  }

  lemma NorInInstall(o: Board, b: Board, t: Board, idle: bool)
    requires o.Valid() && InInstall(o, b, idle) && b.nor == o.nor && b.bootMode == o.bootMode
    requires OnlyNor(b, t) && InNorRewrite(b.nor, t.nor, o.boot0[BLOCK_SIZE..], idle)
    ensures InInstall(o, t, idle)
    ensures t.bootMode == o.bootMode && t.partitionConfig == b.partitionConfig
  {
  }

  lemma McuInInstall(o: Board, b: Board, t: Board, idle: bool)
    requires o.Valid() && InInstall(o, b, idle) && b.nor == Laid(o.nor, 0, o.boot0[BLOCK_SIZE..])
    requires t == b || t == b.(bootMode := MCU_SPI_FIRST)
    ensures InInstall(o, t, idle) && t.nor == b.nor && t.partitionConfig == b.partitionConfig
  {
  }

  lemma ConfigThenConfig(o: Board, b: Board, t: Board)
    requires OnlyConfig(o, b) && (t == b || OnlyConfig(b, t))
    ensures OnlyConfig(o, t) && t.nor == o.nor && t.bootMode == o.bootMode && t.boot0 == o.boot0
  {
  }

  /** The image less its envelope has a place in the NOR. */
  predicate FitsNor(image: seq<Byte>) {
    |image| > BLOCK_SIZE && AlignUp(|image| - BLOCK_SIZE) <= BOOT_SIZE
  }

  /** A valid image, being at most 4 MiB, fits exactly if it is more than its envelope. */
  lemma ValidFits(image: seq<Byte>)
    requires ImageValid(image)
    ensures FitsNor(image) <==> |image| > 512
  {
  }

  predicate ImageValid(image: seq<Byte>) {
    |image| > 0 && |image| % BLOCK_SIZE == 0 && |image| <= BOOT_PARTITION_SIZE
  }

  lemma EraseKeepsChunkUpdate(o: seq<Byte>, before: seq<Byte>, after: seq<Byte>, address: nat, data: seq<Byte>)
    requires InChunkUpdate(o, before, address, data)
    requires EraseStep(before, after, address, address + AlignUp(|data|))
    ensures InChunkUpdate(o, after, address, data)
  {
  }

  /** What a failed attempt leaves for the next one: below a sector still being
      erased, or everywhere if a page is still being programmed, the new bits are
      set already. */
  ghost predicate Retryable(o: seq<Byte>, t: seq<Byte>, p: Pending, address: nat, data: seq<Byte>) {
    var hi, laid := address + AlignUp(|data|), Laid(o, address, data);
    match p
    case Idle => true
    case Busy => false
    case Erasing(sector) =>
      address <= sector && sector + ERASE_SIZE <= hi && CoversIn(t, laid, address, sector)
    case Programming(_, _) =>
      PieceOf(p, address, data) && CoversIn(t, laid, address, hi) && Blank(t, address + |data|, hi)
  }

  lemma IdleRetryable(o: seq<Byte>, address: nat, data: seq<Byte>)
    ensures Retryable(o, o, Idle, address, data)
  {
  }

  /** Ready to be programmed: the new bits are set, and the tail is blank. */
  ghost predicate Programmable(o: seq<Byte>, t: seq<Byte>, address: nat, data: seq<Byte>) {
    var hi := address + AlignUp(|data|);
    && SameOutside(o, t, address, hi) && CoversIn(t, Laid(o, address, data), address, hi)
    && Blank(t, address + |data|, hi)
  }

  lemma ProgramKeeps(o: seq<Byte>, b: seq<Byte>, t: seq<Byte>, address: nat, data: seq<Byte>)
    requires Programmable(o, b, address, data) && ProgramStep(b, t, address, data)
    ensures Programmable(o, t, address, data) && InChunkUpdate(o, t, address, data)
  {
    var hi, laid := address + AlignUp(|data|), Laid(o, address, data);
    forall i | 0 <= i < |t| && address <= i < hi ensures Has(t[i], laid[i]) {
      if i < address + |data| {
        ProgramKeepsBits(b[i], t[i], data[i - address]);
      }
    }
  }

  lemma ProgramKeepsBits(before: Byte, after: Byte, bits: Byte)
    requires Has(before, bits) && Has(after, before & bits)
    ensures Has(after, bits)
  {
  }

  /** A piece of the data being programmed is the data being programmed. */
  lemma PieceIsProgram(b: seq<Byte>, t: seq<Byte>, p: Pending, address: nat, data: seq<Byte>)
    requires p.Programming? && PieceOf(p, address, data) && ProgramStep(b, t, p.address, p.data)
    ensures ProgramStep(b, t, address, data)
  {
    forall i | 0 <= i < |b| && address <= i < address + |data|
      ensures Has(t[i], b[i] & data[i - address]) && Has(b[i], t[i])
    {
      if p.address <= i < p.address + |p.data| {
        assert p.data[i - p.address] == data[i - address];
      } else {
        AndIsBelow(b[i], data[i - address]);
      }
    }
  }

  /** The chip going on changes nothing about a chunk between two attempts. */
  lemma PendingKeepsChunk(o: seq<Byte>, b: seq<Byte>, t: seq<Byte>, p: Pending, address: nat, data: seq<Byte>)
    requires InChunkUpdate(o, b, address, data) && Retryable(o, b, p, address, data) && PendingStep(b, t, p)
    ensures InChunkUpdate(o, t, address, data) && Retryable(o, t, p, address, data)
  {
    match p
    case Erasing(sector) =>
      EraseWider(b, t, address, sector, sector + ERASE_SIZE, address + AlignUp(|data|));
      EraseKeepsChunkUpdate(o, b, t, address, data);
      CoversTrans(t, b, Laid(o, address, data), address, sector);
    case Programming(_, _) =>
      PieceIsProgram(b, t, p, address, data);
      ProgramKeeps(o, b, t, address, data);
    case _ =>
  }

  /** An erase of a retryable chunk: up to where it got the new bits are set, even
      if the chip was busy and its first sector was not erased. */
  lemma RetryErased(o: seq<Byte>, b: seq<Byte>, settled: seq<Byte>, t: seq<Byte>, p: Pending, address: nat,
                    data: seq<Byte>, end: nat)
    requires InChunkUpdate(o, b, address, data) && Retryable(o, b, p, address, data) && PendingStep(b, settled, p)
    requires address % ERASE_SIZE == 0 && end % ERASE_SIZE == 0 && address <= end <= address + AlignUp(|data|)
    requires EraseStep(settled, t, address, address + AlignUp(|data|)) && Wiped(settled, t, p, address, end)
    ensures CoversIn(t, Laid(o, address, data), address, end)
  {
    hide AlignUp, Laid;
    var hi, laid := address + AlignUp(|data|), Laid(o, address, data);
    PendingKeepsChunk(o, b, settled, p, address, data);
    forall i | 0 <= i < |t| && address <= i < end ensures Has(t[i], laid[i]) {
      BlankHasAll(laid[i]);
      if i < address + ERASE_SIZE && !p.Idle? {
        HasTrans(t[i], settled[i], laid[i]);
      }
    }
  }

  lemma HasTrans(a: Byte, b: Byte, c: Byte)
    ensures Has(a, b) && Has(b, c) ==> Has(a, c)
  {
  }

  lemma RetryReady(o: seq<Byte>, b: seq<Byte>, settled: seq<Byte>, t: seq<Byte>, p: Pending, address: nat,
                   data: seq<Byte>)
    requires InChunkUpdate(o, b, address, data) && Retryable(o, b, p, address, data) && PendingStep(b, settled, p)
    requires address % ERASE_SIZE == 0 && data != []
    requires EraseStep(settled, t, address, address + AlignUp(|data|))
    requires Wiped(settled, t, p, address, address + AlignUp(|data|))
    ensures Programmable(o, t, address, data)
  {
    hide Laid;
    var hi := address + AlignUp(|data|);
    RetryErased(o, b, settled, t, p, address, data, hi);
    PendingKeepsChunk(o, b, settled, p, address, data);
    forall i | 0 <= i < |t| && address + |data| <= i < hi ensures t[i] == ERASED {
      if i < address + ERASE_SIZE && !p.Idle? {
        assert hi == address + ERASE_SIZE;
        assert settled[i] == ERASED;
        BlankStays(t[i]);
      }
    }
  }

  lemma BlankStays(cell: Byte)
    ensures Has(cell, ERASED) ==> cell == ERASED
  {
  }

  lemma PassedKeepsChunk(o: seq<Byte>, b: seq<Byte>, settled: seq<Byte>, t: seq<Byte>, p: Pending, address: nat,
                         data: seq<Byte>)
    requires InChunkUpdate(o, b, address, data) && Retryable(o, b, p, address, data) && PendingStep(b, settled, p)
    requires Passed(b, p, settled, t, address, address + AlignUp(|data|))
             || EraseStep(settled, t, address, address + AlignUp(|data|))
    ensures InChunkUpdate(o, t, address, data)
  {
    hide InChunkUpdate, Retryable, PendingStep, EraseStep;
    if PendingStep(b, t, p) {
      PendingKeepsChunk(o, b, t, p, address, data);
    } else {
      PendingKeepsChunk(o, b, settled, p, address, data);
      EraseKeepsChunkUpdate(o, settled, t, address, data);
    }
  }

  lemma IdleOrProgram(b: seq<Byte>, t: seq<Byte>, address: nat, data: seq<Byte>)
    requires PendingStep(b, t, Idle) || ProgramStep(b, t, address, data)
    ensures ProgramStep(b, t, address, data)
  {
    NothingProgrammed(b, address, data);
  }

  /** What a program leaves pending is retryable. */
  lemma ProgrammedRetryable(o: seq<Byte>, settled: seq<Byte>, t: seq<Byte>, p: Pending, address: nat, data: seq<Byte>)
    requires Programmable(o, t, address, data) && (p.Idle? || LeftProgramming(Idle, p, settled, t, address, data))
    ensures Retryable(o, t, p, address, data)
  {
  }

  /** A program that takes every bit leaves its data in programmable cells. */
  lemma ProgrammableTakes(o: seq<Byte>, b: seq<Byte>, address: nat, data: seq<Byte>)
    requires Programmable(o, b, address, data) && address + |data| <= |b|
    ensures Programmed(b, address, data)[address..address + |data|] == data
  {
    var laid := Laid(o, address, data);
    forall i | address <= i < address + |data| ensures b[i] & data[i - address] == data[i - address] {
      assert Has(b[i], laid[i]) && laid[i] == data[i - address];
    }
  }

  lemma Rounded(n: nat)
    ensures AlignUp(n) % ERASE_SIZE == 0 && n <= AlignUp(n)
  {
  }

  lemma ProgrammedIsLaid(o: seq<Byte>, t: seq<Byte>, address: nat, data: seq<Byte>)
    requires Programmable(o, t, address, data) && address + |data| <= |t|
    requires t[address..address + |data|] == data
    ensures t == Laid(o, address, data)
  {
    VerifiedChunkIsLaid(o, t, address, data);
  }

  /** What a failed erase leaves pending is retryable. */
  lemma LeftRetryable(o: seq<Byte>, b: seq<Byte>, settled: seq<Byte>, t: seq<Byte>, p0: Pending, p: Pending,
                      address: nat, data: seq<Byte>)
    requires InChunkUpdate(o, b, address, data) && Retryable(o, b, p0, address, data) && PendingStep(b, settled, p0)
    requires address % ERASE_SIZE == 0 && EraseStep(settled, t, address, address + AlignUp(|data|))
    requires LeftErasing(p0, p, settled, t, address, address + AlignUp(|data|))
    ensures Retryable(o, t, p, address, data)
  {
    hide AlignUp, Laid;
    PendingKeepsChunk(o, b, settled, p0, address, data);
    if p.Idle? || (p == p0 && t == settled) {
      return;
    }
    RetryErased(o, b, settled, t, p0, address, data, p.sector);
  }

  lemma VerifiedChunkIsLaid(o: seq<Byte>, flash: seq<Byte>, address: nat, data: seq<Byte>)
    requires address + |data| <= |flash|
    requires SameOutside(o, flash, address, address + AlignUp(|data|))
    requires flash[address..address + |data|] == data
    requires Blank(flash, address + |data|, address + AlignUp(|data|))
    ensures flash == Laid(o, address, data)
  {
  }

  lemma AlignUpMonotone(m: nat, n: nat)
    requires m <= n
    ensures AlignUp(m) <= AlignUp(n)
    ensures m % ERASE_SIZE == 0 ==> AlignUp(m) == m && AlignUp(n) == m + AlignUp(n - m)
  {
  }

  /** While the first chunk is being erased the old image only gains bits. */
  lemma RewriteStarts(o: seq<Byte>, t: seq<Byte>, image: seq<Byte>, idle: bool)
    requires EraseStep(o, t, 0, AlignUp(FirstChunk(image)))
    ensures InNorRewrite(o, t, image, idle) && OldFirstChunk(o, t, image)
  {
  }

  lemma FirstChunkErased(o: seq<Byte>, t: seq<Byte>, p: Pending, image: seq<Byte>)
    requires EraseStep(o, t, 0, AlignUp(FirstChunk(image))) && Wiped(o, t, p, 0, AlignUp(FirstChunk(image)))
    ensures RewrittenUpTo(o, t, image, FirstChunk(image), p.Idle?)
  {
  }

  /** While another chunk is being written the first one stays as it is. */
  lemma RewriteMiddle(o: seq<Byte>, before: seq<Byte>, t: seq<Byte>, image: seq<Byte>, offset: nat, chunk: nat,
                      idle: bool)
    requires AlignUp(|image|) <= |o| && 0 < chunk && offset + chunk <= |image|
    requires offset % NOR_WRITE_CHUNK == 0 && FirstChunk(image) <= offset
    requires RewrittenUpTo(o, before, image, offset, idle)
    requires InChunkUpdate(before, t, offset, image[offset..offset + chunk])
    ensures InNorRewrite(o, t, image, idle) && NoFirstChunk(o, t, image, idle)
  {
    hide AlignUp, Laid, Has;
    ChunkFits(offset, chunk, |image|);
    ChunkFits(0, |image|, |image|);
    assert |image| > NOR_WRITE_CHUNK && NOR_WRITE_CHUNK <= offset;
  }

  lemma ChunkLands(o: seq<Byte>, before: seq<Byte>, t: seq<Byte>, image: seq<Byte>, offset: nat, chunk: nat, idle: bool)
    requires AlignUp(|image|) <= |o| && 0 < chunk && offset + chunk <= |image|
    requires offset % NOR_WRITE_CHUNK == 0 && FirstChunk(image) <= offset
    requires chunk == NOR_WRITE_CHUNK || offset + chunk == |image|
    requires RewrittenUpTo(o, before, image, offset, idle)
    requires t == Laid(before, offset, image[offset..offset + chunk])
    ensures RewrittenUpTo(o, t, image, offset + chunk, idle)
  {
    hide AlignUp;
    var first, hi, laid := AlignUp(FirstChunk(image)), AlignUp(offset + chunk), Laid(o, 0, image);
    ChunkFits(offset, chunk, |image|);
    assert first <= NOR_WRITE_CHUNK <= offset;
    forall i | first <= i < |o| ensures t[i] == if i < hi then laid[i] else o[i] {
      if offset <= i < offset + chunk {
        assert image[offset..offset + chunk][i - offset] == image[i];
      }
    }
  }

  /** While the first chunk is written, last, everything else is in place. */
  lemma RewriteEnds(o: seq<Byte>, before: seq<Byte>, t: seq<Byte>, image: seq<Byte>, idle: bool)
    requires 0 < |image| && AlignUp(|image|) <= |o|
    requires RewrittenUpTo(o, before, image, |image|, idle)
    requires InChunkUpdate(before, t, 0, image[..FirstChunk(image)])
    ensures InNorRewrite(o, t, image, idle)
  {
    hide Has;
    var first, laid := AlignUp(FirstChunk(image)), Laid(o, 0, image);
    AlignUpMonotone(FirstChunk(image), |image|);
    if CoversIn(t, before, 0, first) {
      CoversTrans(t, before, o, 0, first);
      BlankStaysIn(t, before, if idle then 0 else ERASE_SIZE, first);
      if |image| <= NOR_WRITE_CHUNK {
        assert OldFirstChunk(o, t, image);
      } else {
        assert first == NOR_WRITE_CHUNK;
      }
    } else {
      assert NewFirstChunk(o, t, image);
    }
  }

  lemma BlankStaysIn(t: seq<Byte>, b: seq<Byte>, lo: nat, hi: nat)
    requires CoversIn(t, b, 0, hi) && Blank(b, lo, hi)
    ensures Blank(t, lo, hi)
  {
  }

  lemma LastChunkLands(o: seq<Byte>, before: seq<Byte>, t: seq<Byte>, image: seq<Byte>, idle: bool)
    requires 0 < |image| && AlignUp(|image|) <= |o|
    requires RewrittenUpTo(o, before, image, |image|, idle)
    requires t == Laid(before, 0, image[..FirstChunk(image)])
    ensures t == Laid(o, 0, image)
  {
    hide CoversIn, Blank;
  }

  /** Erasing the first sector again, whether it works or not, keeps the rewrite
      in the same phase. */
  lemma AbortKeepsRewrite(o: seq<Byte>, before: seq<Byte>, t: seq<Byte>, image: seq<Byte>, idle: bool)
    requires 0 < |image| && AlignUp(|image|) <= |o|
    requires InNorRewrite(o, before, image, idle)
    requires EraseStep(before, t, 0, ERASE_SIZE)
    ensures InNorRewrite(o, t, image, idle)
  {
    var first := AlignUp(FirstChunk(image));
    assert ERASE_SIZE <= first <= AlignUp(|image|) by {
      AlignUpMonotone(FirstChunk(image), |image|);
    }
    EraseKeepsCover(o, before, t, first);
    EraseKeepsCover(o, before, t, NOR_WRITE_CHUNK);
    EraseKeepsCover(Laid(o, 0, image), before, t, first);
  }

  lemma EraseKeepsCover(o: seq<Byte>, b: seq<Byte>, t: seq<Byte>, hi: nat)
    requires EraseStep(b, t, 0, ERASE_SIZE) && ERASE_SIZE <= hi
    ensures CoversIn(b, o, 0, hi) ==> CoversIn(t, o, 0, hi)
    ensures SameOutside(o, b, 0, hi) ==> SameOutside(o, t, 0, hi)
    ensures forall lo :: Blank(b, lo, hi) ==> Blank(t, lo, hi)
  {
  }

  /** However the chip goes on with what is pending, the NOR stays in the rewrite. */
  ghost predicate PendingSafe(o: seq<Byte>, t: seq<Byte>, p: Pending, image: seq<Byte>, idle: bool) {
    forall s :: PendingStep(t, s, p) ==> InNorRewrite(o, s, image, idle)
  }

  lemma IdleIsSafe(o: seq<Byte>, t: seq<Byte>, image: seq<Byte>, idle: bool)
    requires InNorRewrite(o, t, image, idle)
    ensures PendingSafe(o, t, Idle, image, idle)
  {
    hide InNorRewrite;
  }

  lemma StartPasses(o: seq<Byte>, t: seq<Byte>, p: Pending, image: seq<Byte>)
    requires p.Idle? || p.Busy?
    requires Passed(o, p, o, t, 0, AlignUp(FirstChunk(image)))
    ensures InNorRewrite(o, t, image, p.Idle?)
  {
    hide InNorRewrite, AlignUp;
    NothingErased(o, 0, AlignUp(FirstChunk(image)));
    RewriteStarts(o, t, image, p.Idle?);
  }

  lemma StartSafe(o: seq<Byte>, t: seq<Byte>, p0: Pending, p: Pending, image: seq<Byte>)
    requires p0.Idle? || p0.Busy?
    requires EraseStep(o, t, 0, AlignUp(FirstChunk(image))) && LeftErasing(p0, p, o, t, 0, AlignUp(FirstChunk(image)))
    ensures PendingSafe(o, t, p, image, p0.Idle?)
    ensures forall s :: PendingStep(t, s, p) ==> OldFirstChunk(o, s, image)
  {
    hide InNorRewrite, AlignUp, OldFirstChunk, EraseStep;
    var hi := AlignUp(FirstChunk(image));
    forall s | PendingStep(t, s, p) ensures InNorRewrite(o, s, image, p0.Idle?) && OldFirstChunk(o, s, image) {
      if p.Erasing? {
        EraseWider(t, s, 0, p.sector, p.sector + ERASE_SIZE, hi);
        EraseStepTrans(o, t, s, 0, 0, hi);
      }
      RewriteStarts(o, s, image, p0.Idle?);
    }
  }

  lemma MiddleSafe(o: seq<Byte>, before: seq<Byte>, t: seq<Byte>, p: Pending, image: seq<Byte>, offset: nat, chunk: nat,
                   idle: bool)
    requires AlignUp(|image|) <= |o| && 0 < chunk && offset + chunk <= |image|
    requires offset % NOR_WRITE_CHUNK == 0 && FirstChunk(image) <= offset
    requires RewrittenUpTo(o, before, image, offset, idle)
    requires InChunkUpdate(before, t, offset, image[offset..offset + chunk])
    requires Retryable(before, t, p, offset, image[offset..offset + chunk])
    ensures PendingSafe(o, t, p, image, idle)
  {
    hide InNorRewrite, AlignUp, NoFirstChunk, PendingStep, Retryable, RewrittenUpTo, InChunkUpdate;
    forall s | PendingStep(t, s, p) ensures InNorRewrite(o, s, image, idle) {
      PendingKeepsChunk(before, t, s, p, offset, image[offset..offset + chunk]);
      RewriteMiddle(o, before, s, image, offset, chunk, idle);
    }
  }

  lemma EndSafe(o: seq<Byte>, before: seq<Byte>, t: seq<Byte>, p: Pending, image: seq<Byte>, idle: bool)
    requires 0 < |image| && AlignUp(|image|) <= |o|
    requires RewrittenUpTo(o, before, image, |image|, idle)
    requires InChunkUpdate(before, t, 0, image[..FirstChunk(image)])
    requires Retryable(before, t, p, 0, image[..FirstChunk(image)])
    ensures PendingSafe(o, t, p, image, idle)
  {
    hide InNorRewrite, AlignUp, PendingStep, Retryable, RewrittenUpTo, InChunkUpdate;
    forall s | PendingStep(t, s, p) ensures InNorRewrite(o, s, image, idle) {
      PendingKeepsChunk(before, t, s, p, 0, image[..FirstChunk(image)]);
      RewriteEnds(o, before, s, image, idle);
    }
  }

  /** The same for the abort erase, from any state of the rewrite. */
  lemma AbortPasses(o: seq<Byte>, b: seq<Byte>, settled: seq<Byte>, t: seq<Byte>, p: Pending, image: seq<Byte>,
                    idle: bool)
    requires 0 < |image| && AlignUp(|image|) <= |o|
    requires PendingSafe(o, b, p, image, idle) && PendingStep(b, settled, p)
    requires Passed(b, p, settled, t, 0, ERASE_SIZE) || EraseStep(settled, t, 0, ERASE_SIZE)
    ensures InNorRewrite(o, t, image, idle)
  {
    hide InNorRewrite, PendingStep, EraseStep;
    if !PendingStep(b, t, p) {
      AbortKeepsRewrite(o, settled, t, image, idle);
    }
  }

  lemma AbortSafe(o: seq<Byte>, b: seq<Byte>, settled: seq<Byte>, t: seq<Byte>, p0: Pending, p: Pending,
                  image: seq<Byte>, idle: bool)
    requires 0 < |image| && AlignUp(|image|) <= |o|
    requires PendingSafe(o, b, p0, image, idle) && PendingStep(b, settled, p0)
    requires EraseStep(settled, t, 0, ERASE_SIZE) && LeftErasing(p0, p, settled, t, 0, ERASE_SIZE)
    ensures PendingSafe(o, t, p, image, idle)
  {
    hide InNorRewrite, PendingStep, EraseStep;
    AbortKeepsRewrite(o, settled, t, image, idle);
    forall s | PendingStep(t, s, p) ensures InNorRewrite(o, s, image, idle) {
      if p.Idle? {
        SameLength(t, s, p);
      } else if p == p0 && t == settled {
        PendingTrans(b, settled, s, p0);
      } else {
        assert p == Erasing(0);
        AbortErasing(t, s);
        AbortKeepsRewrite(o, t, s, image, idle);
      }
    }
  }

  lemma AbortErasing(t: seq<Byte>, s: seq<Byte>)
    requires PendingStep(t, s, Erasing(0))
    ensures EraseStep(t, s, 0, ERASE_SIZE)
  {
  }

  /** The percentage reported when `written` of `size` bytes are done. */
  function Percent(start: nat, end: nat, written: nat, size: nat): nat
    requires start <= end && 0 < size
  {
    start + written * (end - start) / size
  }

  /** The percentage is the share of the span that is written, rounded down. */
  lemma PercentIsShare(start: nat, end: nat, written: nat, size: nat)
    requires start <= end && 0 < size
    ensures var share := Percent(start, end, written, size) - start;
      share * size <= written * (end - start) < share * size + size
  {
    Arith.QuotientBounds(written * (end - start), size);
  }

  lemma PercentStart(start: nat, end: nat, size: nat)
    requires start <= end && 0 < size
    ensures Percent(start, end, 0, size) == start
  {
  }

  lemma PercentAdvances(start: nat, end: nat, w0: nat, w: nat, size: nat)
    requires start < end && w0 <= w < size
    ensures Percent(start, end, w0, size) <= Percent(start, end, w, size) < end
  {
    Arith.ScaledShare(w0, w, end - start, size);
  }

  lemma ChunkFits(offset: nat, chunk: nat, size: nat)
    requires offset % NOR_WRITE_CHUNK == 0 && offset + chunk <= size
    ensures offset % ERASE_SIZE == 0 && AlignUp(offset) == offset
    ensures offset + AlignUp(chunk) == AlignUp(offset + chunk) <= AlignUp(size)
    ensures AlignUp(NOR_WRITE_CHUNK) == NOR_WRITE_CHUNK
  {
    hide AlignUp;
    ChunkAligned(offset);
    AlignUpMonotone(offset, offset + chunk);
    AlignUpMonotone(offset + chunk, size);
    AlignUpMonotone(NOR_WRITE_CHUNK, NOR_WRITE_CHUNK);
  }

  lemma ChunkAligned(offset: nat)
    requires offset % NOR_WRITE_CHUNK == 0
    ensures offset % ERASE_SIZE == 0
  {
  }

  /** The progress calls made since `before`, strictly increasing. */
  ghost predicate Reported(before: seq<nat>, after: seq<nat>, start: nat, end: nat) {
    && before <= after
    && (forall k :: |before| <= k < |after| ==> start < after[k] <= end)
    && (forall j, k :: |before| <= j < k < |after| ==> after[j] < after[k])
  }

  lemma NoneReported(p: seq<nat>, start: nat, end: nat)
    ensures Reported(p, p, start, end)
  {
  }

  /** The calls made in the loop so far: the last one is the percentage written. */
  ghost predicate Counted(before: seq<nat>, after: seq<nat>, hasProgress: bool, start: nat, end: nat, last: nat,
                          written: nat, size: nat) {
    && Reported(before, after, start, end) && (!hasProgress ==> after == before)
    && (hasProgress ==>
          && 0 < size && start <= last < end && last == Percent(start, end, written, size)
          && (forall k :: |before| <= k < |after| ==> after[k] <= last)
          && (last > start ==> |before| < |after| && after[|after| - 1] == last))
  }

  lemma CountStarts(before: seq<nat>, hasProgress: bool, start: nat, end: nat, size: nat)
    requires hasProgress ==> start < end && 0 < size
    ensures Counted(before, before, hasProgress, start, end, start, 0, size)
  {
    if hasProgress {
      PercentStart(start, end, size);
    }
  }

  lemma CountMeans(before: seq<nat>, after: seq<nat>, hasProgress: bool, start: nat, end: nat, last: nat,
                   written: nat, size: nat)
    requires Counted(before, after, hasProgress, start, end, last, written, size)
    ensures Reported(before, after, start, end) && (!hasProgress ==> after == before)
    ensures hasProgress ==> forall k :: |before| <= k < |after| ==> after[k] < end
  {
  }

  /** The stages report 5, 20, 35, then up to 99, then 100. */
  lemma ProgressJoins(p: seq<nat>, q: seq<nat>, r: seq<nat>, t: seq<nat>, rescueDone: bool)
    requires p <= q <= p + [5, 20, 35] && (rescueDone ==> q == p + [5, 20, 35])
    requires q == r || (rescueDone && Reported(q, r, 35, 99))
    requires t == r || (rescueDone && t == r + [100])
    ensures Reported(p, t, 0, 100)
  {
  }

  /** The calls of the raw protocol and how they ended. */
  datatype NorCall =
    | EraseCall(address: nat, length: nat, idle: bool, status: Status)
    | ProgramCall(address: nat, data: seq<Byte>, status: Status)
    | ReadCall(address: nat, length: nat, found: seq<Byte>, status: Status)

  /** One attempt at a chunk: an erase, and if that worked a program, and if that
      worked a read. */
  ghost predicate Attempt(calls: seq<NorCall>, offset: nat, data: seq<Byte>) {
    && 0 < |calls| <= 3 && calls[0].EraseCall? && calls[0].address == offset && calls[0].length == AlignUp(|data|)
    && (|calls| > 1 <==> calls[0].status.Success?)
    && (|calls| > 1 ==>
          && calls[1] == ProgramCall(offset, data, calls[1].status)
          && (|calls| > 2 <==> calls[1].status.Success?))
    && (|calls| > 2 ==> calls[2].ReadCall? && calls[2].address == offset && calls[2].length == |data|)
  }

  /** The attempt found its data in the cells. */
  ghost predicate Landed(calls: seq<NorCall>, data: seq<Byte>) {
    |calls| == 3 && calls[2].ReadCall? && calls[2].status.Success? && calls[2].found == data
  }

  /** Two attempts, and neither found its data. */
  ghost predicate TwiceFailed(calls: seq<NorCall>, offset: nat, data: seq<Byte>) {
    exists n: nat :: n <= |calls| && FailedAttempt(calls[..n], offset, data) && FailedAttempt(calls[n..], offset, data)
  }

  ghost predicate FailedAttempt(calls: seq<NorCall>, offset: nat, data: seq<Byte>) {
    Attempt(calls, offset, data) && !Landed(calls, data)
  }

  /** The calls from `lo` to `hi` are two attempts at one chunk of the image, both failed. */
  ghost predicate ChunkFailed(calls: seq<NorCall>, lo: nat, hi: nat, image: seq<Byte>, offset: nat, chunk: nat) {
    && lo <= hi <= |calls| && offset + chunk <= |image|
    && TwiceFailed(calls[lo..hi], offset, image[offset..offset + chunk])
  }

  ghost predicate SomeChunkFailed(calls: seq<NorCall>, from: nat, image: seq<Byte>) {
    exists lo: nat, offset: nat, chunk: nat :: from <= lo && ChunkFailed(calls, lo, |calls|, image, offset, chunk)
  }

  /** Why a rewrite failed: its first erase did, or both attempts at a chunk and the
      abort erase came last. */
  ghost predicate RewriteFailed(calls: seq<NorCall>, from: nat, image: seq<Byte>) {
    && from < |calls| && var last := calls[|calls| - 1];
       last.EraseCall? && last.address == 0
       && if |calls| == from + 1 then last.length == AlignUp(FirstChunk(image)) && !last.status.Success?
          else last.length == ERASE_SIZE && SomeChunkFailed(calls[..|calls| - 1], from, image)
  }

  lemma StillFailed(before: seq<NorCall>, after: seq<NorCall>, last: NorCall, from: nat, image: seq<Byte>)
    requires SomeChunkFailed(before, from, image) && after == before + [last] && from < |before|
    requires last.EraseCall? && last.address == 0 && last.length == ERASE_SIZE
    ensures RewriteFailed(after, from, image)
  {
    assert after[..|after| - 1] == before;
  }

  lemma FailedFrom(calls: seq<NorCall>, made: nat, from: nat, image: seq<Byte>)
    requires RewriteFailed(calls, from, image) && made <= from && from + 1 < |calls|
    ensures RewriteFailed(calls, made, image)
  {
    hide ChunkFailed;
    var before := calls[..|calls| - 1];
    var lo: nat, offset: nat, chunk: nat :| from <= lo && ChunkFailed(before, lo, |before|, image, offset, chunk);
    assert SomeChunkFailed(before, made, image);
  }

  lemma FirstFailed(calls: seq<NorCall>, from: nat, made: nat, image: seq<Byte>)
    requires from <= made <= |calls| && TwiceFailed(calls[made..], 0, image[..FirstChunk(image)])
    ensures SomeChunkFailed(calls, from, image)
  {
    hide TwiceFailed;
    assert calls[made..|calls|] == calls[made..] && image[0..0 + FirstChunk(image)] == image[..FirstChunk(image)];
    assert ChunkFailed(calls, made, |calls|, image, 0, FirstChunk(image));
  }

  lemma FailedLonger(before: seq<NorCall>, from: nat, image: seq<Byte>)
    requires SomeChunkFailed(before, from, image)
    ensures from < |before|
  {
  }

  lemma BothFailed(first: seq<NorCall>, second: seq<NorCall>, offset: nat, data: seq<Byte>)
    requires FailedAttempt(first, offset, data) && FailedAttempt(second, offset, data)
    ensures TwiceFailed(first + second, offset, data)
  {
    var calls := first + second;
    assert calls[..|first|] == first && calls[|first|..] == second;
  }

  /** The latest selection and how it ended. */
  datatype SelectCall = SelectCall(access: bv8, acted: bool, status: Status)

  class Vim3Fmp {
    var board: Board
    var lastAttempt: LastAttempt
    var installRequested: bool
    var progress: seq<nat>
    var pending: Pending
    var mcu: Mcu
    ghost var trace: seq<Board>
    ghost var calls: seq<NorCall>
    /** Everything that went wrong in a device, was not to be had or was refused, silent
        or not; the hand-back of the card, which nobody looks at, is not counted. */
    ghost var faults: nat
    /** Of these, the errors that the card stack reported. */
    ghost var cardErrors: nat
    ghost var lastSelect: SelectCall

    ghost predicate Valid()
      reads this
    {
      board.Valid() && |trace| > 0 && trace[|trace| - 1] == board
    }

    // ---- Device steps ----------------------------------------------------

    method Step(next: Board)
      requires Valid() && next.Valid()
      modifies this`board, this`trace
      ensures Valid() && board == next && trace == old(trace) + [next]
    {
      board := next;
      trace := trace + [next];
    }

    /** The chip goes on with what is pending: for a while or, if `finishes`, to its
        end, and then it is idle. */
    method GoOn() returns (finishes: bool)
      requires Valid()
      modifies this`board, this`trace, this`pending
      ensures Valid() && old(trace) <= trace
      ensures forall k :: |old(trace)| <= k < |trace| ==>
        OnlyNor(old(board), trace[k]) && PendingStep(old(board).nor, trace[k].nor, old(pending))
      ensures OnlyNor(old(board), board) && PendingStep(old(board).nor, board.nor, old(pending))
      ensures pending == if finishes then Idle else old(pending)
      ensures finishes ==> Finished(board.nor, old(pending))
      ensures old(pending).Idle? ==> finishes && trace == old(trace)
    {
      hide EraseStep, ProgramStep, Blank;
      ghost var before := board.nor;
      NothingPending(before, pending);
      if pending.Idle? {
        return true;
      }
      var torn: seq<Byte> := *;
      if !PendingStep(board.nor, torn, pending) {
        torn := board.nor;
      }
      SameLength(board.nor, torn, pending);
      Step(board.(nor := torn));
      finishes := *;
      if finishes {
        if pending.Erasing? {
          PendingEnds(board.nor, pending);
          PendingTrans(before, board.nor, WithBlank(board.nor, pending.sector, pending.sector + ERASE_SIZE), pending);
          Step(board.(nor := WithBlank(board.nor, pending.sector, pending.sector + ERASE_SIZE)));
        }
        pending := Idle;
      }
    }

    /** One sector erase, cut short anywhere, refused, or complete. A busy chip may
        finish first or ignore it, and reads ready afterwards either way; a wait that
        runs out leaves it pending. */
    method EraseSector(address: nat) returns (status: Status, ghost settled: seq<Byte>)
      requires Valid() && address % ERASE_SIZE == 0 && address + ERASE_SIZE <= |board.nor|
      modifies this`board, this`trace, this`pending, this`faults
      ensures Valid() && old(trace) <= trace
      ensures PendingStep(old(board).nor, settled, old(pending))
      ensures forall k :: |old(trace)| <= k < |trace| ==>
        && OnlyNor(old(board), trace[k])
        && Passed(old(board).nor, old(pending), settled, trace[k].nor, address, address + ERASE_SIZE)
      ensures OnlyNor(old(board), board) && EraseStep(settled, board.nor, address, address + ERASE_SIZE)
      ensures status.Success? ==>
        pending.Idle? && Wiped(settled, board.nor, old(pending), address, address + ERASE_SIZE)
      ensures !status.Success? ==>
        LeftErasing(old(pending), pending, settled, board.nor, address, address + ERASE_SIZE)
      ensures faults == old(faults) + if status.Success? then 0 else 1
    {
      hide PendingStep, EraseStep, Blank, Wiped, LeftErasing, WithBlank;
      ghost var p0 := pending;
      var wasIdle := pending.Idle?;
      var finishes := GoOn();
      settled := board.nor;
      NothingErased(settled, address, address + ERASE_SIZE);
      LeftAtOnce(p0, settled, settled, address);
      var ignored: bool := *;
      if !finishes || (ignored && !wasIdle) {
        var reportsReady: bool := *;
        if finishes {
          EraseIgnored(settled, p0, address);
        }
        if finishes && reportsReady {
          return Success, settled;
        }
        faults := faults + 1;
        return DeviceError, settled;
      }
      var torn: seq<Byte> := *;
      if !EraseStep(board.nor, torn, address, address + ERASE_SIZE) {
        torn := board.nor;
      }
      ErasedLength(settled, torn, address);
      LeftAtOnce(p0, settled, torn, address);
      Step(board.(nor := torn));
      if * {
        var timedOut: bool := *;
        faults := faults + 1;
        if timedOut {
          pending := Erasing(address);
        }
        return if timedOut then Timeout else DeviceError, settled;
      }
      EraseEnds(settled, torn, p0, address);
      Step(board.(nor := WithBlank(torn, address, address + ERASE_SIZE)));
      return Success, settled;
    }

    /** One page program, with a busy chip as above. It may clear fewer bits than
        asked, even when the chip reports no error. */
    method ProgramPage(address: nat, data: seq<Byte>) returns (status: Status, ghost settled: seq<Byte>)
      requires Valid() && address % PAGE_SIZE + |data| <= PAGE_SIZE && address + |data| <= |board.nor|
      modifies this`board, this`trace, this`pending, this`faults
      ensures Valid() && old(trace) <= trace
      ensures PendingStep(old(board).nor, settled, old(pending))
      ensures forall k :: |old(trace)| <= k < |trace| ==>
        && OnlyNor(old(board), trace[k])
        && (PendingStep(old(board).nor, trace[k].nor, old(pending))
            || ProgramStep(settled, trace[k].nor, address, data))
      ensures OnlyNor(old(board), board) && ProgramStep(settled, board.nor, address, data)
      ensures status.Success? ==> pending.Idle?
      ensures !status.Success? ==>
        pending.Idle? || (pending == old(pending) && board.nor == settled) || pending == Programming(address, data)
      ensures old(faults) <= faults
      ensures faults == old(faults) ==> status.Success? && board.nor == Programmed(settled, address, data)
    {
      hide PendingStep;
      var finishes := GoOn();
      settled := board.nor;
      NothingProgrammed(settled, address, data);
      if !finishes {
        faults := faults + 1;
        return DeviceError, settled;
      }
      var torn: seq<Byte> := *;
      if !ProgramStep(board.nor, torn, address, data) {
        ProgrammedIsStep(board.nor, address, data);
        torn := Programmed(board.nor, address, data);
      }
      Step(board.(nor := torn));
      var timedOut: bool, failed: bool := *, *;
      if timedOut || failed || torn != Programmed(settled, address, data) {
        faults := faults + 1;
      }
      if timedOut {
        pending := Programming(address, data);
        return Timeout, settled;
      }
      return if failed then DeviceError else Success, settled;
    }

    // ---- The raw NOR protocol, at the granularity of its flash commands --

    /** Bits are only set, and only in the range or under what was pending. Success
        means the range is blank, but for the first sector on a chip that was busy. */
    method NorErase(address: nat, length: nat) returns (status: Status, ghost settled: seq<Byte>)
      requires Valid()
      modifies this`board, this`trace, this`pending, this`calls, this`faults
      ensures calls == old(calls) + [EraseCall(address, length, old(pending).Idle?, status)]
      ensures old(faults) <= faults
      ensures faults == old(faults) && !status.Success? ==>
        address % ERASE_SIZE != 0 || length % ERASE_SIZE != 0 || address >= RUNTIME_BASE || length > RUNTIME_BASE - address
      ensures Valid() && old(trace) <= trace
      ensures PendingStep(old(board).nor, settled, old(pending))
      ensures forall k :: |old(trace)| <= k < |trace| ==>
        && OnlyNor(old(board), trace[k])
        && Passed(old(board).nor, old(pending), settled, trace[k].nor, address, address + length)
      ensures OnlyNor(old(board), board) && EraseStep(settled, board.nor, address, address + length)
      ensures status.Success? ==> Wiped(settled, board.nor, old(pending), address, address + length)
      ensures status.Success? && length > 0 ==> pending.Idle?
      ensures !status.Success? ==> LeftErasing(old(pending), pending, settled, board.nor, address, address + length)
    {
      hide EraseStep, Blank, PendingStep, Wiped, Passed, LeftErasing;
      ghost var p0, o, from, hi := pending, board.nor, |trace|, address + length;
      settled := board.nor;
      calls := calls + [EraseCall(address, length, pending.Idle?, WriteProtected)];
      NothingPending(o, p0);
      NotBegun(settled, p0, address, hi);
      assert ErasingUpTo(board, p0, from, settled, address, hi);
      var writeProtected: bool := *;
      if writeProtected {
        faults := faults + 1;
        return WriteProtected, settled;
      }
      if address % ERASE_SIZE != 0 || length % ERASE_SIZE != 0
         || address >= RUNTIME_BASE || length > RUNTIME_BASE - address {
        calls := old(calls) + [EraseCall(address, length, p0.Idle?, InvalidParameter)];
        return InvalidParameter, settled;
      }
      var done := 0;
      while done < length
        invariant 0 <= done <= length && done % ERASE_SIZE == 0
        invariant old(trace) <= trace && ErasingUpTo(old(board), p0, from, settled, address, hi)
        invariant done == 0 ==> board == old(board) && settled == o && pending == p0 && trace == old(trace)
        invariant done > 0 ==> pending.Idle?
        invariant Wiped(settled, board.nor, p0, address, address + done)
        invariant faults == old(faults)
      {
        status, settled := EraseNext(address, done, hi, old(board), p0, from, settled);
        if !status.Success? {
          calls := old(calls) + [EraseCall(address, length, p0.Idle?, status)];
          return;
        }
        done := done + ERASE_SIZE;
      }
      calls := old(calls) + [EraseCall(address, length, p0.Idle?, Success)];
      return Success, settled;
    }

    /** Every state of an erase call so far is one it passes. */
    ghost predicate ErasingUpTo(o: Board, p0: Pending, from: nat, settled: seq<Byte>, lo: nat, hi: nat)
      reads this
    {
      && Valid() && from <= |trace| && PendingStep(o.nor, settled, p0)
      && (forall k :: from <= k < |trace| ==>
            OnlyNor(o, trace[k]) && Passed(o.nor, p0, settled, trace[k].nor, lo, hi))
      && OnlyNor(o, board) && EraseStep(settled, board.nor, lo, hi)
    }

    /** One pass of the loop over the sectors. */
    method EraseNext(address: nat, done: nat, ghost hi: nat, ghost o: Board, ghost p0: Pending, ghost from: nat,
                     ghost settled: seq<Byte>)
      returns (status: Status, ghost settledNow: seq<Byte>)
      requires address % ERASE_SIZE == 0 && done % ERASE_SIZE == 0 && address + done + ERASE_SIZE <= hi <= RUNTIME_BASE
      requires ErasingUpTo(o, p0, from, settled, address, hi)
      requires if done == 0 then board == o && settled == o.nor && pending == p0 && |trace| == from
               else pending.Idle? && Wiped(settled, board.nor, p0, address, address + done)
      modifies this`board, this`trace, this`pending, this`faults
      ensures old(trace) <= trace && ErasingUpTo(o, p0, from, settledNow, address, hi)
      ensures status.Success? ==>
        pending.Idle? && Wiped(settledNow, board.nor, p0, address, address + done + ERASE_SIZE)
      ensures !status.Success? ==> LeftErasing(p0, pending, settledNow, board.nor, address, hi)
      ensures faults == old(faults) + if status.Success? then 0 else 1
    {
      hide EraseStep, Blank, PendingStep, Wiped, Passed, LeftErasing;
      ghost var before, n, mid, end := board.nor, |trace|, address + done, address + done + ERASE_SIZE;
      status, settledNow := EraseSector(address + done);
      if done == 0 {
        forall k | n <= k < |trace| ensures Passed(o.nor, p0, settledNow, trace[k].nor, address, hi) {
          FirstSector(o.nor, p0, settledNow, trace[k].nor, address, end, hi);
        }
        FirstSectorLeft(p0, pending, settledNow, board.nor, address, end, hi);
      } else {
        SameLength(before, settledNow, Idle);
        settledNow := settled;
        forall k | n <= k < |trace| ensures Passed(o.nor, p0, settled, trace[k].nor, address, hi) {
          LaterSectorPasses(o.nor, p0, settled, before, trace[k].nor, address, mid, end, hi);
        }
        LaterSector(settled, before, board.nor, p0, address, mid, end, hi);
        if !status.Success? {
          LaterSectorLeft(settled, before, board.nor, p0, pending, address, mid, hi);
        }
      }
    }

    /** Bits are only cleared, and only towards the data or under what was pending. */
    method NorProgram(address: nat, data: seq<Byte>) returns (status: Status, ghost settled: seq<Byte>)
      requires Valid()
      modifies this`board, this`trace, this`pending, this`calls, this`faults
      ensures calls == old(calls) + [ProgramCall(address, data, status)]
      ensures old(faults) <= faults
      ensures faults == old(faults) && address < RUNTIME_BASE && |data| <= RUNTIME_BASE - address ==>
        status.Success? && board.nor == Programmed(settled, address, data)
      ensures Valid() && old(trace) <= trace
      ensures PendingStep(old(board).nor, settled, old(pending))
      ensures forall k :: |old(trace)| <= k < |trace| ==>
        && OnlyNor(old(board), trace[k])
        && (PendingStep(old(board).nor, trace[k].nor, old(pending))
            || ProgramStep(settled, trace[k].nor, address, data))
      ensures OnlyNor(old(board), board) && ProgramStep(settled, board.nor, address, data)
      ensures status.Success? && data != [] ==> pending.Idle?
      ensures !status.Success? ==> LeftProgramming(old(pending), pending, settled, board.nor, address, data)
    {
      hide ProgramStep, EraseStep, SameOutside, Programmed, PendingStep;
      ghost var p0, o, from := pending, board.nor, |trace|;
      settled := board.nor;
      NothingPending(o, p0);
      NothingProgrammed(board.nor, address, data);
      ProgrammedNothing(board.nor, address, data);
      calls := calls + [ProgramCall(address, data, WriteProtected)];
      var writeProtected: bool := *;
      if writeProtected {
        faults := faults + 1;
        return WriteProtected, settled;
      }
      if address >= RUNTIME_BASE || |data| > RUNTIME_BASE - address {
        calls := old(calls) + [ProgramCall(address, data, InvalidParameter)];
        return InvalidParameter, settled;
      }
      var done := 0;
      while done < |data|
        invariant 0 <= done <= |data| && old(faults) <= faults && old(trace) <= trace
        invariant done == 0 ==> board == old(board) && settled == o && pending == p0 && trace == old(trace)
        invariant done > 0 ==> pending.Idle?
        invariant ProgrammingUpTo(old(board), p0, from, settled, address, data, done)
        invariant faults == old(faults) ==> board.nor == Programmed(settled, address, data[..done])
      {
        status, done, settled := ProgramNext(address, data, done, old(board), p0, from, settled, old(faults));
        if !status.Success? {
          calls := old(calls) + [ProgramCall(address, data, status)];
          return;
        }
      }
      assert data[..done] == data;
      calls := old(calls) + [ProgramCall(address, data, Success)];
      return Success, settled;
    }

    /** Every state of a program call so far is one it passes, and `done` bytes are sent. */
    ghost predicate ProgrammingUpTo(o: Board, p0: Pending, from: nat, settled: seq<Byte>, address: nat, data: seq<Byte>,
                                    done: nat)
      reads this
    {
      && Valid() && from <= |trace| && PendingStep(o.nor, settled, p0) && |settled| == |o.nor|
      && (forall k :: from <= k < |trace| ==>
            OnlyNor(o, trace[k])
            && (PendingStep(o.nor, trace[k].nor, p0) || ProgramStep(settled, trace[k].nor, address, data)))
      && OnlyNor(o, board) && ProgramStep(settled, board.nor, address, data)
      && SameOutside(settled, board.nor, address, address + done)
    }

    /** One pass of the loop over the pages. */
    method ProgramNext(address: nat, data: seq<Byte>, done: nat, ghost o: Board, ghost p0: Pending, ghost from: nat,
                       ghost settled: seq<Byte>, ghost faultsBefore: nat)
      returns (status: Status, doneNow: nat, ghost settledNow: seq<Byte>)
      requires done < |data| && address + |data| <= RUNTIME_BASE && |o.nor| == RUNTIME_BASE && faultsBefore <= faults
      requires ProgrammingUpTo(o, p0, from, settled, address, data, done)
      requires if done == 0 then board == o && settled == o.nor && pending == p0 && |trace| == from else pending.Idle?
      requires faults == faultsBefore ==> board.nor == Programmed(settled, address, data[..done])
      modifies this`board, this`trace, this`pending, this`faults
      ensures old(trace) <= trace && faultsBefore <= faults && done < doneNow <= |data|
      ensures ProgrammingUpTo(o, p0, from, settledNow, address, data, doneNow)
      ensures faults == faultsBefore ==>
        status.Success? && board.nor == Programmed(settledNow, address, data[..doneNow])
      ensures status.Success? ==> pending.Idle?
      ensures !status.Success? ==> LeftProgramming(p0, pending, settledNow, board.nor, address, data)
    {
      hide ProgramStep, EraseStep, SameOutside, Programmed, PendingStep, LeftProgramming;
      var room := PAGE_SIZE - (address + done) % PAGE_SIZE;
      var piece := if |data| - done < room then |data| - done else room;
      ghost var before, n := board.nor, |trace|;
      ghost var next;
      status, next := ProgramPage(address + done, data[done..done + piece]);
      settledNow := settled;
      if done == 0 {
        settledNow := next;
        SameLength(o.nor, next, p0);
        NothingProgrammed(next, address, data);
        ProgrammedNothing(next, address, data);
      } else {
        SameLength(before, next, Idle);
      }
      forall k | n <= k < |trace|
        ensures PendingStep(o.nor, trace[k].nor, p0) || ProgramStep(settledNow, trace[k].nor, address, data)
      {
        if done > 0 && PendingStep(before, trace[k].nor, Idle) {
          SameLength(before, trace[k].nor, Idle);
        }
        PagePasses(o.nor, p0, settledNow, next, trace[k].nor, address, data, done, piece);
      }
      ProgramExtends(settledNow, next, board.nor, address, data, done, piece);
      ProgrammedExtends(settledNow, address, data, done, piece);
      if !status.Success? {
        LeftByPage(p0, pending, settledNow, next, board.nor, address, data, done, piece);
      }
      doneNow := done + piece;
    }

    method NorRead(address: nat, length: nat) returns (status: Status, data: seq<Byte>)
      requires Valid()
      modifies this`calls, this`faults
      ensures calls == old(calls) + [ReadCall(address, length, data, status)] && old(faults) <= faults
      ensures faults == old(faults) && !status.Success? ==> address > |board.nor| || length > |board.nor| - address
      ensures status.Success? ==> address + length <= |board.nor| && |data| == length
      ensures status.Success? && pending.Idle? ==> data == board.nor[address..address + length]
    {
      var failed: bool := *;
      status, data := DeviceError, [];
      if failed {
        faults := faults + 1;
      } else if address <= |board.nor| && length <= |board.nor| - address {
        status, data := Success, board.nor[address..address + length];
        if !pending.Idle? {
          data := *;
          status := if |data| == length then Success else DeviceError;
          faults := faults + 1;
        }
      }
      calls := calls + [ReadCall(address, length, data, status)];
    }

    /** The old bits or the new bits are all still set at every step; success means
        the chunk was read back equal, and that makes it exact. The second attempt is
        made exactly if the first one failed, and may find the chip still busy with what
        that began; so it takes two faults for the chunk to fail. */
    method NorUpdateChunk(offset: nat, data: seq<Byte>)
      returns (status: Status, ghost first: seq<NorCall>, ghost second: seq<NorCall>)
      requires |data| <= NOR_WRITE_CHUNK
      requires Valid() && offset % ERASE_SIZE == 0 && offset + AlignUp(|data|) <= RUNTIME_BASE
      requires pending.Idle? && data != []
      modifies this`board, this`trace, this`pending, this`calls, this`faults
      ensures Valid() && old(trace) <= trace
      ensures forall k :: |old(trace)| <= k < |trace| ==>
        OnlyNor(old(board), trace[k]) && InChunkUpdate(old(board).nor, trace[k].nor, offset, data)
      ensures OnlyNor(old(board), board) && InChunkUpdate(old(board).nor, board.nor, offset, data)
      ensures Retryable(old(board).nor, board.nor, pending, offset, data)
      ensures status.Success? ==> board.nor == Laid(old(board).nor, offset, data) && pending.Idle?
      ensures calls == old(calls) + first + second && Attempt(first, offset, data)
      ensures if Landed(first, data) then second == [] else Attempt(second, offset, data)
      ensures status.Success? <==> Landed(first, data) || Landed(second, data)
      ensures old(faults) + (if status.Success? then 0 else 2) <= faults
    {
      hide InChunkUpdate, AlignUp, Laid, Retryable, Attempt, Landed;
      first, second := [], [];
      var attempt := 1;
      ghost var o := board.nor;
      ChunkUpdateStarts(o, offset, data);
      assert Retryable(o, o, Idle, offset, data) by { IdleRetryable(o, offset, data); }
      status := DeviceError;
      while attempt <= 2
        invariant 1 <= attempt <= 3 && !status.Success?
        invariant Valid() && old(trace) <= trace
        invariant forall k :: |old(trace)| <= k < |trace| ==>
          OnlyNor(old(board), trace[k]) && InChunkUpdate(o, trace[k].nor, offset, data)
        invariant OnlyNor(old(board), board) && InChunkUpdate(o, board.nor, offset, data)
        invariant Retryable(o, board.nor, pending, offset, data)
        invariant calls == old(calls) + first + second && old(faults) + attempt - 1 <= faults
        invariant attempt == 1 ==> first == [] && second == []
        invariant attempt > 1 ==> Attempt(first, offset, data) && !Landed(first, data)
        invariant attempt == 2 ==> second == []
        invariant attempt == 3 ==> Attempt(second, offset, data) && !Landed(second, data)
      {
        ghost var made;
        status, made := UpdateOnce(offset, data, old(board), |old(trace)|);
        if attempt == 1 {
          first := made;
        } else {
          second := made;
        }
        if status.Success? {
          assert attempt == 1 ==> second == [];
          return;
        }
        attempt := attempt + 1;
      }
    }

    /** One attempt: erase, program, read back. It takes a fault for it to fail. */
    method UpdateOnce(offset: nat, data: seq<Byte>, ghost o: Board, ghost from: nat)
      returns (status: Status, ghost made: seq<NorCall>)
      requires |data| <= NOR_WRITE_CHUNK
      requires Valid() && offset % ERASE_SIZE == 0 && offset + AlignUp(|data|) <= RUNTIME_BASE && data != []
      requires from <= |trace| && OnlyNor(o, board) && InChunkUpdate(o.nor, board.nor, offset, data)
      requires forall k :: from <= k < |trace| ==>
        OnlyNor(o, trace[k]) && InChunkUpdate(o.nor, trace[k].nor, offset, data)
      requires Retryable(o.nor, board.nor, pending, offset, data)
      modifies this`board, this`trace, this`pending, this`calls, this`faults
      ensures Valid() && old(trace) <= trace
      ensures forall k :: from <= k < |trace| ==>
        OnlyNor(o, trace[k]) && InChunkUpdate(o.nor, trace[k].nor, offset, data)
      ensures OnlyNor(o, board) && InChunkUpdate(o.nor, board.nor, offset, data)
      ensures Retryable(o.nor, board.nor, pending, offset, data)
      ensures status.Success? ==> board.nor == Laid(o.nor, offset, data) && pending.Idle?
      ensures calls == old(calls) + made && Attempt(made, offset, data) && (status.Success? <==> Landed(made, data))
      ensures old(faults) + (if status.Success? then 0 else 1) <= faults
    {
      hide InChunkUpdate, EraseStep, ProgramStep, SameOutside, Blank, AlignUp, Laid;
      hide PendingStep, Wiped, Passed, LeftErasing, Retryable, Programmable;
      ghost var before, p0, n := board.nor, pending, |trace|;
      ghost var settled;
      status, settled := NorErase(offset, AlignUp(|data|));
      forall k | n <= k < |trace| ensures InChunkUpdate(o.nor, trace[k].nor, offset, data) {
        PassedKeepsChunk(o.nor, before, settled, trace[k].nor, p0, offset, data);
      }
      PassedKeepsChunk(o.nor, before, settled, board.nor, p0, offset, data);
      made := [EraseCall(offset, AlignUp(|data|), p0.Idle?, status)];
      Rounded(|data|);
      if !status.Success? {
        LeftRetryable(o.nor, before, settled, board.nor, p0, pending, offset, data);
        return;
      }
      RetryReady(o.nor, before, settled, board.nor, p0, offset, data);
      ghost var rest;
      status, rest := ProgramAndVerify(offset, data, o, from);
      made := made + rest;
    }

    /** The second half of an attempt. */
    method ProgramAndVerify(offset: nat, data: seq<Byte>, ghost o: Board, ghost from: nat)
      returns (status: Status, ghost made: seq<NorCall>)
      requires |data| <= NOR_WRITE_CHUNK
      requires Valid() && offset + AlignUp(|data|) <= RUNTIME_BASE && data != [] && pending.Idle?
      requires from <= |trace| && OnlyNor(o, board) && Programmable(o.nor, board.nor, offset, data)
      requires forall k :: from <= k < |trace| ==>
        OnlyNor(o, trace[k]) && InChunkUpdate(o.nor, trace[k].nor, offset, data)
      modifies this`board, this`trace, this`pending, this`calls, this`faults
      ensures calls == old(calls) + made && 0 < |made| <= 2 && made[0] == ProgramCall(offset, data, made[0].status)
      ensures |made| > 1 <==> made[0].status.Success?
      ensures |made| > 1 ==> made[1].ReadCall? && made[1].address == offset && made[1].length == |data|
      ensures status.Success? <==> |made| == 2 && made[1].status.Success? && made[1].found == data
      ensures old(faults) + (if status.Success? then 0 else 1) <= faults
      ensures Valid() && old(trace) <= trace
      ensures forall k :: from <= k < |trace| ==>
        OnlyNor(o, trace[k]) && InChunkUpdate(o.nor, trace[k].nor, offset, data)
      ensures OnlyNor(o, board) && InChunkUpdate(o.nor, board.nor, offset, data)
      ensures Retryable(o.nor, board.nor, pending, offset, data)
      ensures status.Success? ==> board.nor == Laid(o.nor, offset, data) && pending.Idle?
    {
      hide InChunkUpdate, EraseStep, ProgramStep, SameOutside, Blank, AlignUp, Laid;
      hide PendingStep, LeftProgramming, Retryable, Programmable;
      ghost var before, n := board.nor, |trace|;
      ghost var settled;
      status, settled := NorProgram(offset, data);
      SameLength(before, settled, Idle);
      NothingProgrammed(before, offset, data);
      forall k | n <= k < |trace| ensures InChunkUpdate(o.nor, trace[k].nor, offset, data) {
        IdleOrProgram(before, trace[k].nor, offset, data);
        ProgramKeeps(o.nor, before, trace[k].nor, offset, data);
      }
      ProgramKeeps(o.nor, before, board.nor, offset, data);
      ProgrammedRetryable(o.nor, settled, board.nor, pending, offset, data);
      made := [ProgramCall(offset, data, status)];
      if !status.Success? {
        return;
      }
      ProgrammableTakes(o.nor, before, offset, data);
      var verify;
      status, verify := NorRead(offset, |data|);
      made := made + [ReadCall(offset, |data|, verify, status)];
      if status.Success? {
        if verify == data {
          ProgrammedIsLaid(o.nor, board.nor, offset, data);
          return Success, made;
        }
        status := DeviceError;
      }
    }

    /** The NOR rewrite that began in state `o` with `n` states recorded: every
        state since is one that a rewrite passes through. */
    ghost predicate Rewriting(o: Board, n: nat, image: seq<Byte>, idle: bool)
      reads this
    {
      && Valid() && n <= |trace|
      && (forall k :: n <= k < |trace| ==> OnlyNor(o, trace[k]) && InNorRewrite(o.nor, trace[k].nor, image, idle))
      && OnlyNor(o, board) && InNorRewrite(o.nor, board.nor, image, idle)
    }

    /** Nothing pending can still change the part of the chip that updates write. */
    predicate Settled()
      reads this
    {
      pending.Idle? || pending.Busy?
    }

    /** The last thing done to the NOR was to erase its first sector, and if the chip
        was idle and that worked the sector is blank. */
    ghost predicate Aborted()
      reads this
    {
      && |calls| > 0 && var last := calls[|calls| - 1];
         last.EraseCall? && last.address == 0 && last.length == ERASE_SIZE
         && (last.status.Success? && last.idle ==> Blank(board.nor, 0, ERASE_SIZE))
    }

    /** A failed NOR rewrite either never got past erasing the old first chunk or
        ended by erasing its first sector. */
    ghost predicate NorGivenUp(o: Board, image: seq<Byte>)
      reads this
    {
      || |image| <= BLOCK_SIZE
      || OldFirstChunk(o.nor, board.nor, image[BLOCK_SIZE..])
      || Aborted()
    }

    /** The last selection made was of the user area: the card is there if it acted,
        as it did for every success, and otherwise still at `stays`. */
    ghost predicate Released(stays: Partition)
      reads this
    {
      && lastSelect.access == ACCESS_USER
      && (lastSelect.status.Success? ==> lastSelect.acted)
      && Selected(board.partitionConfig) == if lastSelect.acted then User else stays
    }

    /** Where the card can be after an attempt that reached it and found it at `before`. */
    ghost predicate ReleasedAfter(before: Partition, last: LastAttempt)
      reads this
    {
      match last
      case Boot0Failed => Released(before) || Released(Boot0)
      case Boot1Failed => Released(Boot0) || Released(Boot1)
      case NorFailed | McuFlipFailed | AttemptSuccess => Released(Boot1)
      case _ => true
    }

    /** Report progress after a chunk if the percentage moved. */
    method ReportChunk(hasProgress: bool, start: nat, end: nat, ghost before: seq<nat>, ghost writtenBefore: nat,
                       written: nat, size: nat, last: nat)
      returns (lastPercent: nat)
      requires hasProgress ==> start < end && writtenBefore <= written < size
      requires Counted(before, progress, hasProgress, start, end, last, writtenBefore, size)
      modifies this`progress
      ensures old(progress) <= progress
      ensures Counted(before, progress, hasProgress, start, end, lastPercent, written, size)
    {
      hide Percent;
      lastPercent := last;
      if hasProgress {
        PercentAdvances(start, end, writtenBefore, written, size);
        var percent := Percent(start, end, written, size);
        if percent != lastPercent {
          progress := progress + [percent];
          lastPercent := percent;
        }
      }
    }

    /** One iteration of the loop over all chunks but the first. */
    method WriteChunk(norImage: seq<Byte>, offset: nat, chunk: nat, ghost o: Board, ghost from: nat, ghost idle: bool)
      returns (status: Status)
      requires AlignUp(|norImage|) <= RUNTIME_BASE && FirstChunk(norImage) <= offset && pending.Idle?
      requires 0 < chunk && offset % NOR_WRITE_CHUNK == 0 && offset + chunk <= |norImage|
      requires chunk <= NOR_WRITE_CHUNK && (chunk == NOR_WRITE_CHUNK || offset + chunk == |norImage|)
      requires Rewriting(o, from, norImage, idle) && RewrittenUpTo(o.nor, board.nor, norImage, offset, idle)
      modifies this`board, this`trace, this`pending, this`calls, this`faults
      ensures old(trace) <= trace && Rewriting(o, from, norImage, idle)
      ensures PendingSafe(o.nor, board.nor, pending, norImage, idle)
      ensures status.Success? ==> RewrittenUpTo(o.nor, board.nor, norImage, offset + chunk, idle) && pending.Idle?
      ensures !status.Success? ==> NoFirstChunk(o.nor, board.nor, norImage, idle)
      ensures old(calls) <= calls && old(faults) + (if status.Success? then 0 else 2) <= faults
      ensures !status.Success? ==>
        TwiceFailed(calls[|old(calls)|..], offset, norImage[offset..offset + chunk])
    {
      hide InNorRewrite, InChunkUpdate, RewrittenUpTo, NoFirstChunk, NewFirstChunk, Laid, AlignUp, Retryable, PendingSafe;
      hide Attempt, Landed, TwiceFailed;
      ghost var before, n := board.nor, |trace|;
      ChunkFits(offset, chunk, |norImage|);
      ghost var first, second;
      status, first, second := NorUpdateChunk(offset, norImage[offset..offset + chunk]);
      assert calls[|old(calls)|..] == first + second;
      if !status.Success? {
        BothFailed(first, second, offset, norImage[offset..offset + chunk]);
      }
      forall k | n <= k < |trace| ensures InNorRewrite(o.nor, trace[k].nor, norImage, idle) {
        RewriteMiddle(o.nor, before, trace[k].nor, norImage, offset, chunk, idle);
      }
      RewriteMiddle(o.nor, before, board.nor, norImage, offset, chunk, idle);
      MiddleSafe(o.nor, before, board.nor, pending, norImage, offset, chunk, idle);
      if status.Success? {
        ChunkLands(o.nor, before, board.nor, norImage, offset, chunk, idle);
      }
    }

    /** The loop over all chunks but the first. */
    method WriteLaterChunks(norImage: seq<Byte>, hasProgress: bool, start: nat, end: nat, ghost o: Board,
                            ghost from: nat, ghost idle: bool)
      returns (status: Status)
      requires 0 < |norImage| && AlignUp(|norImage|) <= RUNTIME_BASE && (hasProgress ==> start < end)
      requires Rewriting(o, from, norImage, idle) && pending.Idle?
      requires RewrittenUpTo(o.nor, board.nor, norImage, FirstChunk(norImage), idle)
      modifies this`board, this`trace, this`progress, this`pending, this`calls, this`faults
      ensures old(trace) <= trace && Rewriting(o, from, norImage, idle)
      ensures PendingSafe(o.nor, board.nor, pending, norImage, idle)
      ensures status.Success? ==> RewrittenUpTo(o.nor, board.nor, norImage, |norImage|, idle) && pending.Idle?
      ensures !status.Success? ==> NoFirstChunk(o.nor, board.nor, norImage, idle)
      ensures old(calls) <= calls && old(faults) + (if status.Success? then 0 else 2) <= faults
      ensures !status.Success? ==> SomeChunkFailed(calls, |old(calls)|, norImage)
      ensures Reported(old(progress), progress, start, end)
      ensures hasProgress ==> forall k :: |old(progress)| <= k < |progress| ==> progress[k] < end
      ensures !hasProgress ==> progress == old(progress)
    {
      hide InNorRewrite, RewrittenUpTo, NoFirstChunk, AlignUp, PendingSafe, Counted, Reported, TwiceFailed;
      var norSize := |norImage|;
      var firstChunk := FirstChunk(norImage);
      var written, offset := 0, firstChunk;
      var lastPercent: nat := start;
      CountStarts(progress, hasProgress, start, end, norSize);
      IdleIsSafe(o.nor, board.nor, norImage, idle);
      status := Success;
      while offset < norSize
        invariant firstChunk <= offset <= norSize && written == offset - firstChunk
        invariant offset < norSize ==> offset % NOR_WRITE_CHUNK == 0
        invariant status.Success? && old(trace) <= trace && Rewriting(o, from, norImage, idle)
        invariant RewrittenUpTo(o.nor, board.nor, norImage, offset, idle)
        invariant pending.Idle? && PendingSafe(o.nor, board.nor, pending, norImage, idle)
        invariant Counted(old(progress), progress, hasProgress, start, end, lastPercent, written, norSize)
        invariant old(calls) <= calls && old(faults) <= faults
      {
        ghost var made := |calls|;
        var chunk := if norSize - offset < NOR_WRITE_CHUNK then norSize - offset else NOR_WRITE_CHUNK;
        status := WriteChunk(norImage, offset, chunk, o, from, idle);
        if !status.Success? {
          CountMeans(old(progress), progress, hasProgress, start, end, lastPercent, written, norSize);
          assert calls[made..|calls|] == calls[made..];
          assert ChunkFailed(calls, made, |calls|, norImage, offset, chunk);
          return;
        }
        written := written + chunk;
        offset := offset + chunk;
        lastPercent := ReportChunk(hasProgress, start, end, old(progress), written - chunk, written, norSize, lastPercent);
      }
      CountMeans(old(progress), progress, hasProgress, start, end, lastPercent, written, norSize);
    }

    /** Every state of the abort erase is still one of the rewrite, worked or not, and
        however the chip goes on afterwards. */
    method Abort(norImage: seq<Byte>, ghost o: Board, ghost from: nat, ghost idle: bool)
      requires 0 < |norImage| && AlignUp(|norImage|) <= RUNTIME_BASE
      requires Rewriting(o, from, norImage, idle) && PendingSafe(o.nor, board.nor, pending, norImage, idle)
      modifies this`board, this`trace, this`pending, this`calls, this`faults
      ensures old(trace) <= trace && Rewriting(o, from, norImage, idle)
      ensures PendingSafe(o.nor, board.nor, pending, norImage, idle)
      ensures Aborted() && |calls| == |old(calls)| + 1 && old(calls) <= calls && old(faults) <= faults
      ensures calls[|calls| - 1].status.Success? ==> pending.Idle?
    {
      hide InNorRewrite, PendingStep, EraseStep, PendingSafe, LeftErasing, Passed;
      ghost var before, p0, n := board.nor, pending, |trace|;
      ghost var settled;
      var status;
      status, settled := NorErase(0, ERASE_SIZE);
      forall k | n <= k < |trace| ensures InNorRewrite(o.nor, trace[k].nor, norImage, idle) {
        AbortPasses(o.nor, before, settled, trace[k].nor, p0, norImage, idle);
      }
      AbortPasses(o.nor, before, settled, board.nor, p0, norImage, idle);
      if status.Success? {
        IdleIsSafe(o.nor, board.nor, norImage, idle);
      } else {
        AbortSafe(o.nor, before, settled, board.nor, p0, pending, norImage, idle);
      }
    }

    /** Between two calls the chip goes on by itself: whatever was pending has stopped
        changing the cells by the next call, though the chip may still read busy. */
    method Settle()
      requires Valid()
      modifies this`board, this`trace, this`pending
      ensures Valid() && Settled() && old(trace) <= trace
      ensures forall k :: |old(trace)| <= k < |trace| ==>
        OnlyNor(old(board), trace[k]) && PendingStep(old(board).nor, trace[k].nor, old(pending))
      ensures OnlyNor(old(board), board) && PendingStep(old(board).nor, board.nor, old(pending))
    {
      var finishes := GoOn();
      if !finishes {
        pending := Busy;
      }
    }

    /** The same at the end of a rewrite that failed. */
    method SettleRewrite(norImage: seq<Byte>, ghost o: Board, ghost from: nat, ghost idle: bool)
      requires Rewriting(o, from, norImage, idle) && PendingSafe(o.nor, board.nor, pending, norImage, idle)
      modifies this`board, this`trace, this`pending
      ensures old(trace) <= trace && Rewriting(o, from, norImage, idle) && Settled()
      ensures PendingStep(old(board).nor, board.nor, old(pending)) && (old(pending).Idle? ==> board == old(board))
    {
      hide InNorRewrite, PendingStep;
      ghost var before, p0 := board.nor, pending;
      Settle();
      if p0.Idle? {
        SameLength(before, board.nor, p0);
      }
    }

    /** The first chunk, last of all. */
    method WriteFirstChunk(norImage: seq<Byte>, ghost o: Board, ghost from: nat, ghost idle: bool)
      returns (status: Status)
      requires 0 < |norImage| && AlignUp(|norImage|) <= RUNTIME_BASE
      requires Rewriting(o, from, norImage, idle) && pending.Idle?
      requires RewrittenUpTo(o.nor, board.nor, norImage, |norImage|, idle)
      modifies this`board, this`trace, this`pending, this`calls, this`faults
      ensures old(trace) <= trace && Rewriting(o, from, norImage, idle)
      ensures PendingSafe(o.nor, board.nor, pending, norImage, idle)
      ensures status.Success? ==> board.nor == Laid(o.nor, 0, norImage) && pending.Idle?
      ensures old(calls) <= calls && old(faults) + (if status.Success? then 0 else 2) <= faults
      ensures !status.Success? ==> TwiceFailed(calls[|old(calls)|..], 0, norImage[..FirstChunk(norImage)])
    {
      hide InNorRewrite, InChunkUpdate, RewrittenUpTo, NoFirstChunk, NewFirstChunk, Laid, PendingSafe, Retryable;
      hide Attempt, Landed, TwiceFailed;
      ghost var before, n := board.nor, |trace|;
      ghost var first, second;
      status, first, second := NorUpdateChunk(0, norImage[..FirstChunk(norImage)]);
      assert calls[|old(calls)|..] == first + second;
      forall k | n <= k < |trace| ensures InNorRewrite(o.nor, trace[k].nor, norImage, idle) {
        RewriteEnds(o.nor, before, trace[k].nor, norImage, idle);
      }
      RewriteEnds(o.nor, before, board.nor, norImage, idle);
      EndSafe(o.nor, before, board.nor, pending, norImage, idle);
      if status.Success? {
        LastChunkLands(o.nor, before, board.nor, norImage, idle);
      } else {
        BothFailed(first, second, 0, norImage[..FirstChunk(norImage)]);
      }
    }

    /** Everything after the first erase: the later chunks, the first chunk, and
        the abort path. */
    method WriteAllChunks(norImage: seq<Byte>, hasProgress: bool, start: nat, end: nat, ghost o: Board,
                          ghost from: nat, ghost idle: bool)
      returns (status: Status)
      requires 0 < |norImage| && AlignUp(|norImage|) <= RUNTIME_BASE && (hasProgress ==> start < end)
      requires Rewriting(o, from, norImage, idle) && pending.Idle?
      requires RewrittenUpTo(o.nor, board.nor, norImage, FirstChunk(norImage), idle)
      modifies this`board, this`trace, this`progress, this`pending, this`calls, this`faults
      ensures old(trace) <= trace && Rewriting(o, from, norImage, idle)
      ensures PendingSafe(o.nor, board.nor, pending, norImage, idle)
      ensures if status.Success? then board.nor == Laid(o.nor, 0, norImage) && pending.Idle?
              else Aborted() && (calls[|calls| - 1].status.Success? ==> pending.Idle?)
      ensures Reported(old(progress), progress, start, end)
      ensures !hasProgress ==> progress == old(progress)
      ensures hasProgress && status.Success? ==> |progress| > |old(progress)| && progress[|progress| - 1] == end
      ensures old(calls) <= calls && old(faults) + (if status.Success? then 0 else 2) <= faults
      ensures !status.Success? ==>
        |calls| > |old(calls)| + 1 && RewriteFailed(calls, |old(calls)|, norImage)
    {
      hide InNorRewrite, InChunkUpdate, RewrittenUpTo, NoFirstChunk, NewFirstChunk, Laid, PendingSafe, Retryable;
      hide Attempt, Landed, TwiceFailed, SomeChunkFailed, RewriteFailed;
      status := WriteLaterChunks(norImage, hasProgress, start, end, o, from, idle);
      if status.Success? {
        ghost var made := |calls|;
        status := WriteFirstChunk(norImage, o, from, idle);
        if status.Success? {
          if hasProgress {
            progress := progress + [end];
          }
          return;
        }
        FirstFailed(calls, |old(calls)|, made, norImage);
      }
      ghost var before := calls;
      FailedLonger(before, |old(calls)|, norImage);
      Abort(norImage, o, from, idle);
      StillFailed(before, calls, calls[|calls| - 1], |old(calls)|, norImage);
    }

    /** Every state is one of a rewrite with the image less its 512-byte envelope, and
        success means the NOR is the old one with all of that laid over it. */
    method WriteAndVerifyNor(image: seq<Byte>, hasProgress: bool, start: nat, end: nat)
      returns (status: Status)
      requires Valid() && Settled() && (hasProgress ==> start < end)
      modifies this`board, this`trace, this`progress, this`pending, this`calls, this`faults
      ensures Valid() && Settled() && old(trace) <= trace
      ensures |image| <= BLOCK_SIZE || AlignUp(|image| - BLOCK_SIZE) > BOOT_SIZE ==>
        status == InvalidParameter && trace == old(trace)
      ensures if |image| > BLOCK_SIZE
              then Rewriting(old(board), |old(trace)|, image[BLOCK_SIZE..], old(pending).Idle?)
              else trace == old(trace)
      ensures status.Success? ==> |image| > BLOCK_SIZE && board.nor == Laid(old(board).nor, 0, image[BLOCK_SIZE..])
      ensures status.Success? ==> pending.Idle?
      ensures !status.Success? ==> NorGivenUp(old(board), image)
      ensures old(calls) <= calls && old(faults) <= faults
      ensures |image| > BLOCK_SIZE && AlignUp(|image| - BLOCK_SIZE) <= BOOT_SIZE && !status.Success? ==>
        && old(faults) < faults
        && if status.OutOfResources? && calls == old(calls) then trace == old(trace)
           else RewriteFailed(calls, |old(calls)|, image[BLOCK_SIZE..])
      ensures Reported(old(progress), progress, start, end)
      ensures !hasProgress ==> progress == old(progress)
      ensures hasProgress && status.Success? ==> |progress| > |old(progress)| && progress[|progress| - 1] == end
    {
      hide InNorRewrite, OldFirstChunk, EraseStep, Laid, Blank, Reported;
      NoneReported(progress, start, end);
      if |image| <= BLOCK_SIZE {
        return InvalidParameter;
      }
      var norImage := image[BLOCK_SIZE..];
      var norSize := |norImage|;
      NothingErased(board.nor, 0, AlignUp(FirstChunk(norImage)));
      RewriteStarts(board.nor, board.nor, norImage, pending.Idle?);
      if AlignUp(norSize) > BOOT_SIZE {
        return InvalidParameter;
      }
      var memory := Available();
      if !memory {
        return OutOfResources;
      }
      status := RewriteNor(norImage, hasProgress, start, end);
    }

    /** The rewrite itself, with the room for it at hand. */
    method RewriteNor(norImage: seq<Byte>, hasProgress: bool, start: nat, end: nat) returns (status: Status)
      requires Valid() && Settled() && (hasProgress ==> start < end)
      requires 0 < |norImage| && AlignUp(|norImage|) <= RUNTIME_BASE
      modifies this`board, this`trace, this`progress, this`pending, this`calls, this`faults
      ensures Settled() && old(trace) <= trace
      ensures Rewriting(old(board), |old(trace)|, norImage, old(pending).Idle?)
      ensures if status.Success? then board.nor == Laid(old(board).nor, 0, norImage) && pending.Idle?
              else OldFirstChunk(old(board).nor, board.nor, norImage) || Aborted()
      ensures old(calls) < calls && old(faults) <= faults
      ensures !status.Success? ==> old(faults) < faults && RewriteFailed(calls, |old(calls)|, norImage)
      ensures Reported(old(progress), progress, start, end)
      ensures !hasProgress ==> progress == old(progress)
      ensures hasProgress && status.Success? ==> |progress| > |old(progress)| && progress[|progress| - 1] == end
    {
      hide InNorRewrite, OldFirstChunk, RewrittenUpTo, EraseStep, PendingSafe, LeftErasing, Wiped, Passed, Blank;
      hide PendingStep, Laid, AlignUp, SomeChunkFailed;
      ghost var o, from, p0, made := board, |trace|, pending, |calls|;
      var firstChunk := FirstChunk(norImage);
      AlignUpMonotone(firstChunk, |norImage|);

      ghost var settled;
      status, settled := NorErase(0, AlignUp(firstChunk));
      SameLength(o.nor, settled, p0);
      forall k | from <= k < |trace| ensures InNorRewrite(o.nor, trace[k].nor, norImage, p0.Idle?) {
        StartPasses(o.nor, trace[k].nor, p0, norImage);
      }
      RewriteStarts(o.nor, board.nor, norImage, p0.Idle?);
      if !status.Success? {
        StartSafe(o.nor, board.nor, p0, pending, norImage);
        SettleRewrite(norImage, o, from, p0.Idle?);
        return;
      }
      FirstChunkErased(o.nor, board.nor, p0, norImage);
      ghost var erased := |calls|;

      status := WriteAllChunks(norImage, hasProgress, start, end, o, from, p0.Idle?);
      if !status.Success? {
        FailedFrom(calls, made, erased, norImage);
        SettleRewrite(norImage, o, from, p0.Idle?);
      }
    }

    // ---- The eMMC --------------------------------------------------------

    /** A protocol that is there, or memory that is to be had. */
    method Available() returns (found: bool)
      modifies this`faults
      ensures faults == old(faults) + if found then 0 else 1
    {
      found := *;
      if !found {
        faults := faults + 1;
      }
    }

    /** How a command or block transfer of the card stack ends. */
    method CardAnswer() returns (status: Status)
      modifies this`faults, this`cardErrors
      ensures cardErrors == old(cardErrors) + if status.Success? then 0 else 1
      ensures faults == old(faults) + if status.Success? then 0 else 1
      ensures FromCard(status)
    {
      status := *;
      if !FromCard(status) {
        status := DeviceError;
      }
      if !status.Success? {
        faults, cardErrors := faults + 1, cardErrors + 1;
      }
    }

    /** CMD6 and the wait for it. An error may come before or after the card
        acts; success means it acted. */
    method Switch(argument: bv32) returns (status: Status, ghost acted: bool)
      requires Valid()
      modifies this`board, this`trace, this`faults, this`cardErrors
      ensures FromCard(status)
      ensures Valid() && old(trace) <= trace
      ensures forall k :: |old(trace)| <= k < |trace| ==>
        trace[k] == old(board).(partitionConfig := SwitchResult(old(board).partitionConfig, argument))
      ensures board == if acted
                       then old(board).(partitionConfig := SwitchResult(old(board).partitionConfig, argument))
                       else old(board)
      ensures status.Success? ==> acted
      ensures cardErrors == old(cardErrors) + if status.Success? then 0 else 1
      ensures faults == old(faults) + if status.Success? then 0 else 1
    {
      status := CardAnswer();
      var rejected: bool := *;
      if !status.Success? && rejected {
        return status, false;
      }
      acted := true;
      Step(board.(partitionConfig := SwitchResult(board.partitionConfig, argument)));
    }

    method ReadPartitionConfig() returns (status: Status, config: bv8)
      requires Valid()
      modifies this`faults, this`cardErrors
      ensures cardErrors == old(cardErrors) + if status.Success? then 0 else 1
      ensures faults == old(faults) + if status.Success? then 0 else 1
      ensures FromCard(status)
      ensures status.Success? ==> config == board.partitionConfig
    {
      status := CardAnswer();
      config := board.partitionConfig;
    }

    /** Bits 7:3 of PARTITION_CONFIG never change, and the access bits are the ones
        asked for exactly if the card acted, as it did for every success. */
    method SelectPartition(access: bv8) returns (status: Status)
      requires Valid()
      modifies this`board, this`trace, this`lastSelect, this`faults, this`cardErrors
      ensures FromCard(status)
      ensures lastSelect == SelectCall(access, lastSelect.acted, status)
      ensures Valid() && old(trace) <= trace
      ensures forall k :: |old(trace)| <= k < |trace| ==> OnlyConfig(old(board), trace[k])
      ensures OnlyConfig(old(board), board)
      ensures if lastSelect.acted
              then board.partitionConfig & PARTITION_ACCESS_MASK == access & PARTITION_ACCESS_MASK
              else board.partitionConfig == old(board).partitionConfig
      ensures status.Success? ==> lastSelect.acted
      ensures cardErrors == old(cardErrors) + if status.Success? then 0 else 1
      ensures faults == old(faults) + if status.Success? then 0 else 1
    {
      hide SwitchResult, SwitchArgument, WithAccess, Selected, OnlyConfig;
      ghost var o := board;
      AccessReplaced(o, access);
      var config;
      status, config := ReadPartitionConfig();
      if !status.Success? {
        lastSelect := SelectCall(access, false, status);
        return;
      }
      config := WithAccess(config, access);
      ghost var acted;
      status, acted := Switch(SwitchArgument(config));
      lastSelect := SelectCall(access, acted, status);
    }

    /** One block write to whatever partition is selected. The block may end up
        holding anything, error or not. */
    method WriteBlock(lba: nat, data: seq<Byte>) returns (status: Status)
      requires Valid() && |data| == BLOCK_SIZE && (lba + 1) * BLOCK_SIZE <= BOOT_PARTITION_SIZE
      modifies this`board, this`trace, this`faults, this`cardErrors
      ensures Valid() && trace == old(trace) + [board]
      ensures BlockWritten(old(board), board, lba)
      ensures cardErrors == old(cardErrors) + if status.Success? then 0 else 1
      ensures old(faults) <= faults && (faults == old(faults) ==> status.Success? && BlockTaken(old(board), board, lba, data))
    {
      var p := Selected(board.partitionConfig);
      var before := Contents(board, p);
      var after: seq<Byte> := *;
      if !SameOutside(before, after, lba * BLOCK_SIZE, (lba + 1) * BLOCK_SIZE) {
        after := if p.OtherPartition? then []
                 else before[..lba * BLOCK_SIZE] + data + before[(lba + 1) * BLOCK_SIZE..];
      }
      Step(WithContents(board, p, after));
      var failed: bool := *;
      if failed {
        cardErrors := cardErrors + 1;
      }
      if failed || p.OtherPartition? || after != before[..lba * BLOCK_SIZE] + data + before[(lba + 1) * BLOCK_SIZE..] {
        faults := faults + 1;
      }
      return if failed then DeviceError else Success;
    }

    method WriteBlocks(image: seq<Byte>) returns (status: Status)
      requires Valid() && |image| % BLOCK_SIZE == 0 && |image| <= BOOT_PARTITION_SIZE
      modifies this`board, this`trace, this`faults, this`cardErrors
      ensures Valid() && old(trace) <= trace
      ensures var p := Selected(old(board).partitionConfig);
        && (forall k :: |old(trace)| <= k < |trace| ==> OnlyPartition(old(board), trace[k], p, |image|))
        && OnlyPartition(old(board), board, p, |image|)
        && board.partitionConfig == old(board).partitionConfig
        && old(faults) <= faults && (faults == old(faults) ==> status.Success? && StartsWith(Contents(board, p), image))
        && old(cardErrors) <= cardErrors && (status.Success? <==> cardErrors == old(cardErrors))
    {
      hide OnlyPartition, StartsWith, BlockTaken;
      ghost var p := Selected(board.partitionConfig);
      PartitionStays(board, board, board, p, 0, 0, |image|);
      assert StartsWith(Contents(board, p), image[..0 * BLOCK_SIZE]) by { StartsWithNothing(Contents(board, p), image[..0]); }
      var lba := 0;
      while lba * BLOCK_SIZE < |image|
        invariant 0 <= lba && lba * BLOCK_SIZE <= |image|
        invariant Valid() && old(trace) <= trace
        invariant forall k :: |old(trace)| <= k < |trace| ==> OnlyPartition(old(board), trace[k], p, |image|)
        invariant OnlyPartition(old(board), board, p, |image|)
        invariant board.partitionConfig == old(board).partitionConfig && old(faults) <= faults
        invariant cardErrors == old(cardErrors)
        invariant faults == old(faults) ==> StartsWith(Contents(board, p), image[..lba * BLOCK_SIZE])
      {
        ghost var before := board;
        status := WriteBlock(lba, image[lba * BLOCK_SIZE..(lba + 1) * BLOCK_SIZE]);
        PartitionStays(old(board), before, board, p, lba * BLOCK_SIZE, (lba + 1) * BLOCK_SIZE, |image|);
        if !status.Success? {
          return;
        }
        if faults == old(faults) {
          BlocksTaken(before, board, image, lba);
        }
        lba := lba + 1;
      }
      assert image[..lba * BLOCK_SIZE] == image;
      return Success;
    }

    method ReadBlocks(length: nat) returns (status: Status, data: seq<Byte>)
      requires Valid() && length <= BOOT_PARTITION_SIZE
      modifies this`faults, this`cardErrors
      ensures FromCard(status)
      ensures cardErrors == old(cardErrors) + if status.Success? then 0 else 1
      ensures faults == old(faults) + if status.Success? then 0 else 1
      ensures var p := Selected(board.partitionConfig);
        status.Success? && !p.OtherPartition? ==> data == Contents(board, p)[..length]
    {
      var p := Selected(board.partitionConfig);
      status := CardAnswer();
      data := *;
      if status.Success? && !p.OtherPartition? {
        data := Contents(board, p)[..length];
      }
    }

    /** Only the leading image-sized stretch of the selected partition changes, and
        success means it was read back equal. */
    method WriteAndVerify(image: seq<Byte>) returns (status: Status)
      requires Valid() && |image| % BLOCK_SIZE == 0 && |image| <= BOOT_PARTITION_SIZE
      modifies this`board, this`trace, this`faults, this`cardErrors
      ensures Valid() && old(trace) <= trace
      ensures var p := Selected(old(board).partitionConfig);
        && (forall k :: |old(trace)| <= k < |trace| ==> OnlyPartition(old(board), trace[k], p, |image|))
        && OnlyPartition(old(board), board, p, |image|)
        && board.partitionConfig == old(board).partitionConfig
        && (status.Success? && !p.OtherPartition? ==> StartsWith(Contents(board, p), image))
        && old(faults) <= faults
        && (!status.Success? && faults == old(faults) ==> p.OtherPartition?)
        && old(cardErrors) <= cardErrors && (status.Success? ==> cardErrors == old(cardErrors))
    {
      var memory := Available();
      if !memory {
        return OutOfResources;
      }
      status := WriteBlocks(image);
      if !status.Success? {
        return;
      }
      status := CardAnswer();
      if !status.Success? {
        return;
      }
      memory := Available();
      if !memory {
        return OutOfResources;
      }
      var readBack;
      status, readBack := ReadBlocks(|image|);
      if status.Success? && readBack != image {
        status := DeviceError;
      }
    }

    // ---- The firmware management protocol ----------------------------------

    method ProbeIdentity() returns (identity: Identity)
    {
      identity := *;
    }

    /** The first call judges the MCU by what it reads; later ones change nothing. */
    method McuInit() returns (ghost identity: Identity)
      modifies this`mcu
      ensures mcu == if old(mcu).Unprobed? then Judged(identity) else old(mcu)
    {
      identity := NoAnswer;
      if mcu.Unprobed? {
        mcu := Refused;
        var read := ProbeIdentity();
        identity := read;
        if read.NoAnswer? {
          return;
        }
        if read.deviceHigh != 0 || read.deviceLow != MCU_DEVICE_VIM3 || read.bootEnRtc > 2 {
          return;
        }
        mcu := Trusted;
      }
    }

    /** Vim3McuWriteByte of the boot mode: refused without a transfer exactly by an MCU
        that is not trusted. A failing transfer may still arrive. */
    method McuWriteBootMode(value: bv8) returns (status: Status)
      requires Valid()
      modifies this`board, this`trace, this`mcu, this`faults
      ensures status in {Success, DeviceError, Timeout, AccessDenied}
      ensures !mcu.Unprobed? && (!old(mcu).Unprobed? ==> mcu == old(mcu))
      ensures status.AccessDenied? <==> mcu.Refused?
      ensures status.AccessDenied? ==> board == old(board) && trace == old(trace)
      ensures Valid() && old(trace) <= trace
      ensures forall k :: |old(trace)| <= k < |trace| ==> trace[k] == old(board).(bootMode := value)
      ensures board == old(board) || board == old(board).(bootMode := value)
      ensures status.Success? ==> board.bootMode == value
      ensures faults == old(faults) + if status.Success? || status.AccessDenied? then 0 else 1
    {
      if mcu.Unprobed? {
        var _ := McuInit();
      }
      if mcu != Trusted {
        return AccessDenied;
      }
      status := McuTransfer(value);
    }

    /** The transfer; one that fails may still have arrived. */
    method McuTransfer(value: bv8) returns (status: Status)
      requires Valid()
      modifies this`board, this`trace, this`faults
      ensures status in {Success, DeviceError, Timeout}
      ensures Valid() && old(trace) <= trace
      ensures forall k :: |old(trace)| <= k < |trace| ==> trace[k] == old(board).(bootMode := value)
      ensures board == old(board) || board == old(board).(bootMode := value)
      ensures status.Success? ==> board.bootMode == value
      ensures faults == old(faults) + if status.Success? then 0 else 1
    {
      var fails: bool, arrives: bool, late: bool := *, *, *;
      if fails {
        faults := faults + 1;
      }
      if fails && !arrives {
        return if late then Timeout else DeviceError;
      }
      Step(board.(bootMode := value));
      return if !fails then Success else if late then Timeout else DeviceError;
    }

    /** Only the boot mode can change, and the request survives every failure. */
    method CompleteSpiNorInstall() returns (status: Status)
      requires Valid()
      modifies this`board, this`trace, this`installRequested, this`mcu, this`faults
      ensures status in {Success, DeviceError, Timeout, AccessDenied}
      ensures !mcu.Unprobed? && (!old(mcu).Unprobed? ==> mcu == old(mcu))
      ensures status.AccessDenied? <==> mcu.Refused?
      ensures status.AccessDenied? ==> board == old(board) && trace == old(trace)
      ensures Valid() && old(trace) <= trace
      ensures forall k :: |old(trace)| <= k < |trace| ==> trace[k] == old(board).(bootMode := MCU_SPI_FIRST)
      ensures board == old(board) || board == old(board).(bootMode := MCU_SPI_FIRST)
      ensures status.Success? ==> board.bootMode == MCU_SPI_FIRST
      ensures !status.Success? ==> installRequested == old(installRequested)
      ensures old(faults) <= faults && (faults == old(faults) ==> status.Success? || status.AccessDenied?)
      ensures status.Success? && faults == old(faults) ==> !installRequested
      ensures installRequested ==> old(installRequested)
    {
      status := McuWriteBootMode(MCU_SPI_FIRST);
      if !status.Success? {
        return;
      }
      var deleted: bool := *;
      if deleted {
        installRequested := false;
      } else {
        faults := faults + 1;
      }
    }

    /** Select one boot partition and write it. */
    method UpdateCopy(access: bv8, image: seq<Byte>) returns (status: Status)
      requires Valid() && ImageValid(image) && access in {ACCESS_BOOT0, ACCESS_BOOT1}
      modifies this`board, this`trace, this`lastSelect, this`faults, this`cardErrors
      ensures Valid() && old(trace) <= trace
      ensures var p := Selected(access);
        && (forall k :: |old(trace)| <= k < |trace| ==> OnlyCopy(old(board), trace[k], p, |image|))
        && OnlyCopy(old(board), board, p, |image|)
        && (status.Success? ==> StartsWith(Contents(board, p), image))
      ensures Selected(board.partitionConfig) in {Selected(access), Selected(old(board).partitionConfig)}
      ensures status.Success? ==> Selected(board.partitionConfig) == Selected(access)
      ensures old(cardErrors) <= cardErrors && (status.Success? ==> cardErrors == old(cardErrors))
      ensures old(faults) <= faults && (faults == old(faults) ==> status.Success?)
    {
      hide OnlyConfig, OnlyPartition, OnlyCopy;
      ghost var o, from, p := board, |trace|, Selected(access);
      status := SelectPartition(access);
      ghost var b, n := board, |trace|;
      forall k | from <= k < n ensures OnlyCopy(o, trace[k], p, |image|) {
        ConfigThenCopy(o, trace[k], trace[k], p, |image|);
      }
      ConfigThenCopy(o, b, b, p, |image|);
      if status.Success? {
        status := WriteAndVerify(image);
        forall k | n <= k < |trace| ensures OnlyCopy(o, trace[k], p, |image|) {
          ConfigThenCopy(o, b, trace[k], p, |image|);
        }
        ConfigThenCopy(o, b, board, p, |image|);
      }
    }

    /** The last selection is of the user area; the update stays in its phase whether
        the card follows or not. */
    method ReleaseCard(ghost o: Board, ghost from: nat, ghost image: seq<Byte>)
      requires Valid() && InUpdate(o, board, image, false, false, true) && from <= |trace|
      requires forall k :: from <= k < |trace| ==> InUpdate(o, trace[k], image, false, false, true)
      modifies this`board, this`trace, this`lastSelect, this`faults, this`cardErrors
      ensures faults == old(faults) && cardErrors == old(cardErrors)
      ensures Released(Selected(old(board).partitionConfig))
      ensures Valid() && old(trace) <= trace && InUpdate(o, board, image, false, false, true)
      ensures forall k :: from <= k < |trace| ==> InUpdate(o, trace[k], image, false, false, true)
      ensures WritingBoot0(o, old(board)) ==> WritingBoot0(o, board)
      ensures WritingBoot1(o, old(board), image) ==> WritingBoot1(o, board, image)
      ensures StartsWith(old(board).boot1, image) ==> StartsWith(board.boot1, image)
    {
      hide OnlyConfig, InUpdate, WritingBoot0, WritingBoot1, StartsWith;
      ghost var b, n := board, |trace|;
      var _ := SelectPartition(ACCESS_USER);
      faults, cardErrors := old(faults), old(cardErrors);
      forall k | n <= k < |trace| ensures InUpdate(o, trace[k], image, false, false, true) {
        ConfigInUpdate(o, b, trace[k], image, true);
      }
      ConfigInUpdate(o, b, board, image, true);
    }

    /** Both eMMC copies, boot0 proven before boot1 is touched. */
    method UpdateRescue(image: seq<Byte>, hasProgress: bool) returns (status: Status)
      requires Valid() && ImageValid(image)
      modifies this`board, this`trace, this`progress, this`lastAttempt, this`lastSelect, this`faults, this`cardErrors
      ensures ReleasedAfter(Selected(old(board).partitionConfig), if status.Success? then AttemptSuccess else lastAttempt)
      ensures Valid() && old(trace) <= trace
      ensures forall k :: |old(trace)| <= k < |trace| ==> InUpdate(old(board), trace[k], image, false, false, true)
      ensures InUpdate(old(board), board, image, false, false, true)
      ensures status.Success? ==> WritingBoot1(old(board), board, image) && StartsWith(board.boot1, image)
      ensures status.Success? ==> lastAttempt == old(lastAttempt)
      ensures !status.Success? ==> lastAttempt in {Boot0Failed, Boot1Failed}
      ensures !status.Success? ==> Outcome(old(board), board, image, false, false, lastAttempt)
      ensures old(progress) <= progress <= old(progress) + [5, 20, 35]
      ensures hasProgress && status.Success? ==> progress == old(progress) + [5, 20, 35]
      ensures old(faults) <= faults && (faults == old(faults) ==> status.Success?)
      ensures old(cardErrors) <= cardErrors && (status.Success? ==> cardErrors == old(cardErrors))
      ensures !hasProgress ==> progress == old(progress)
    {
      hide OnlyCopy, OnlyConfig, InUpdate, WritingBoot0, WritingBoot1, StartsWith, Selected;
      ghost var o, from := board, |trace|;
      SelectedByAccess();
      if hasProgress {
        progress := progress + [5];
      }
      status := UpdateCopy(ACCESS_BOOT0, image);
      ghost var b, n := board, |trace|;
      forall k | from <= k < n ensures InUpdate(o, trace[k], image, false, false, true) {
        Boot0InUpdate(o, trace[k], image, true);
      }
      Boot0InUpdate(o, board, image, true);
      if !status.Success? {
        ReleaseCard(o, from, image);
        lastAttempt := Boot0Failed;
        return;
      }
      if hasProgress {
        progress := progress + [20];
      }
      status := UpdateBoot1(image, o, from);
      if status.Success? && hasProgress {
        progress := progress + [35];
      }
    }

    /** The second copy, once the first one is proven. */
    method UpdateBoot1(image: seq<Byte>, ghost o: Board, ghost from: nat) returns (status: Status)
      requires Valid() && ImageValid(image) && from <= |trace|
      requires OnlyCopy(o, board, Boot0, |image|) && StartsWith(board.boot0, image)
      requires Selected(board.partitionConfig) == Boot0
      requires forall k :: from <= k < |trace| ==> InUpdate(o, trace[k], image, false, false, true)
      modifies this`board, this`trace, this`lastAttempt, this`lastSelect, this`faults, this`cardErrors
      ensures Valid() && old(trace) <= trace && InUpdate(o, board, image, false, false, true)
      ensures forall k :: from <= k < |trace| ==> InUpdate(o, trace[k], image, false, false, true)
      ensures WritingBoot1(o, board, image)
      ensures old(faults) <= faults && (faults == old(faults) ==> status.Success?)
      ensures old(cardErrors) <= cardErrors && (status.Success? ==> cardErrors == old(cardErrors))
      ensures if status.Success? then StartsWith(board.boot1, image) && lastAttempt == old(lastAttempt) && Released(Boot1)
              else lastAttempt == Boot1Failed && (Released(Boot0) || Released(Boot1))
    {
      hide OnlyCopy, OnlyConfig, InUpdate, WritingBoot0, WritingBoot1, StartsWith, Selected;
      SelectedByAccess();
      ghost var b, n := board, |trace|;
      status := UpdateCopy(ACCESS_BOOT1, image);
      forall k | n <= k < |trace| ensures InUpdate(o, trace[k], image, false, false, true) {
        Boot1InUpdate(o, b, trace[k], image, true);
      }
      Boot1InUpdate(o, b, board, image, true);
      ReleaseCard(o, from, image);
      if !status.Success? {
        lastAttempt := Boot1Failed;
      }
    }

    /** Every state since the update of `o` began is one an update passes
        through. */
    ghost predicate Updating(o: Board, from: nat, image: seq<Byte>, writeNor: bool, optIn: bool, idle: bool)
      reads this
    {
      && Valid() && from <= |trace|
      && (forall k :: from <= k < |trace| ==> InUpdate(o, trace[k], image, writeNor, optIn, idle))
      && InUpdate(o, board, image, writeNor, optIn, idle)
    }

    /** Point the BootROM at a NOR that has been written and verified. */
    method FlipToNor(image: seq<Byte>, ghost o: Board, ghost from: nat, ghost idle: bool)
      returns (status: Status)
      requires Updating(o, from, image, true, true, idle) && WritingNor(o, board, image, idle)
      requires board.nor == Laid(o.nor, 0, image[BLOCK_SIZE..])
      modifies this`board, this`trace, this`lastAttempt, this`installRequested, this`mcu, this`faults
      ensures old(trace) <= trace && Updating(o, from, image, true, true, idle)
      ensures MoreSure(old(mcu), mcu, status.Success?) && (status.AccessDenied? <==> mcu.Refused?)
      ensures status.AccessDenied? ==> board == old(board)
      ensures old(faults) <= faults && (faults == old(faults) ==> status.Success? || status.AccessDenied?)
      ensures status.Success? && faults == old(faults) ==> !installRequested
      ensures board.partitionConfig == old(board).partitionConfig
      ensures Outcome(o, board, image, true, true, if status.Success? then AttemptSuccess else McuFlipFailed)
      ensures lastAttempt == if status.Success? then old(lastAttempt) else McuFlipFailed
      ensures !status.Success? ==> installRequested == old(installRequested)
    {
      hide InUpdate, InNorRewrite, Laid, StartsWith;
      ghost var c, m := board, |trace|;
      status := CompleteSpiNorInstall();
      forall k | m <= k < |trace| ensures InUpdate(o, trace[k], image, true, true, idle) {
        McuInUpdate(o, c, trace[k], image, idle);
      }
      McuInUpdate(o, c, board, image, idle);
      if !status.Success? {
        lastAttempt := McuFlipFailed;
      }
    }

    /** The NOR primary, and the switch to it if the operator opted in. */
    method UpdatePrimary(image: seq<Byte>, optIn: bool, hasProgress: bool, ghost o: Board, ghost from: nat)
      returns (status: Status)
      requires ImageValid(image) && Valid() && Settled() && from <= |trace| && InUpdate(o, board, image, false, false, true)
      requires forall k :: from <= k < |trace| ==> InUpdate(o, trace[k], image, false, false, true)
      requires WritingBoot1(o, board, image) && StartsWith(board.boot1, image)
      modifies this`board, this`trace, this`progress, this`pending, this`lastAttempt, this`installRequested, this`calls,
               this`mcu, this`faults
      ensures old(trace) <= trace && Updating(o, from, image, true, optIn, old(pending).Idle?)
      ensures board.partitionConfig == old(board).partitionConfig && Settled()
      ensures MoreSure(old(mcu), mcu, optIn && status.Success?)
      ensures lastAttempt.NorFailed? && !status.Success? ==> NorGivenUp(o, image)
      ensures status.Success? ==> lastAttempt == old(lastAttempt)
      ensures status.Success? ==> Outcome(o, board, image, true, optIn, AttemptSuccess)
      ensures !status.Success? ==> lastAttempt in {NorFailed, McuFlipFailed}
      ensures !status.Success? ==> Outcome(o, board, image, true, optIn, lastAttempt)
      ensures Reported(old(progress), progress, 35, 99)
      ensures !hasProgress ==> progress == old(progress)
      ensures !optIn || !status.Success? ==> installRequested == old(installRequested)
      ensures old(calls) <= calls && old(faults) <= faults
      ensures faults == old(faults) ==>
        status.Success? || !FitsNor(image) || (optIn && mcu.Refused? && lastAttempt.McuFlipFailed?)
      ensures faults == old(faults) && status.Success? && optIn ==> !installRequested
      ensures FitsNor(image) && !status.Success? && lastAttempt.NorFailed? ==>
        calls == old(calls) || RewriteFailed(calls, |old(calls)|, image[BLOCK_SIZE..])
    {
      hide RewriteFailed;
      hide InUpdate, OnlyNor, InNorRewrite, OnlyCopy, Laid, Reported, StartsWith, OldFirstChunk;
      ghost var b, n, idle := board, |trace|, pending.Idle?;
      forall k | from <= k < n ensures InUpdate(o, trace[k], image, true, optIn, idle) {
        UpdateWidens(o, trace[k], image, true, optIn, idle);
      }
      UpdateWidens(o, b, image, true, optIn, idle);
      status := WriteAndVerifyNor(image, hasProgress, 35, 99);
      if |image| > BLOCK_SIZE {
        forall k | n <= k < |trace| ensures InUpdate(o, trace[k], image, true, optIn, idle) {
          NorInUpdate(o, b, trace[k], image, optIn, idle);
        }
        NorInUpdate(o, b, board, image, optIn, idle);
      }
      if !status.Success? {
        lastAttempt := NorFailed;
        return;
      }
      if optIn {
        status := FlipToNor(image, o, from, idle);
      }
    }

    /** An update of a board whose devices were found: the rescue copies first. */
    method Perform(image: seq<Byte>, writeNor: bool, optIn: bool, hasProgress: bool) returns (status: Status)
      requires Valid() && Settled() && ImageValid(image) && (optIn ==> writeNor)
      modifies this`board, this`trace, this`progress, this`pending, this`lastAttempt, this`installRequested,
               this`calls, this`lastSelect, this`mcu, this`faults, this`cardErrors
      ensures old(trace) <= trace && Settled()
      ensures Updating(old(board), |old(trace)|, image, writeNor, optIn, old(pending).Idle?)
      ensures lastAttempt !in {InvalidFormat, NoNorProtocol, NoEmmc} && (status.Success? <==> lastAttempt.AttemptSuccess?)
      ensures Outcome(old(board), board, image, writeNor, optIn, lastAttempt)
      ensures ReleasedAfter(Selected(old(board).partitionConfig), lastAttempt)
      ensures lastAttempt.NorFailed? ==> NorGivenUp(old(board), image)
      ensures lastAttempt !in {Boot0Failed, Boot1Failed} ==> cardErrors == old(cardErrors)
      ensures MoreSure(old(mcu), mcu, optIn && status.Success?)
      ensures !optIn || !status.Success? ==> installRequested == old(installRequested)
      ensures old(calls) <= calls && old(faults) <= faults
      ensures faults == old(faults) ==>
        status.Success? || (writeNor && !FitsNor(image)) || (optIn && mcu.Refused? && lastAttempt.McuFlipFailed?)
      ensures faults == old(faults) && status.Success? && optIn ==> !installRequested
      ensures FitsNor(image) && lastAttempt.NorFailed? ==>
        calls == old(calls) || RewriteFailed(calls, |old(calls)|, image[BLOCK_SIZE..])
      ensures !writeNor || lastAttempt in {Boot0Failed, Boot1Failed} ==> calls == old(calls)
      ensures Reported(old(progress), progress, 0, 100)
      ensures hasProgress && status.Success? ==> |progress| > |old(progress)| && progress[|progress| - 1] == 100
    {
      hide InUpdate, WritingBoot0, WritingBoot1, StartsWith, FlippingMcu, Reported, Laid, Selected, OldFirstChunk;
      hide RewriteFailed, FitsNor, Outcome;
      ghost var o, from, p, idle := board, |trace|, progress, pending.Idle?;
      status := UpdateRescue(image, hasProgress);
      ghost var b, q := board, progress;
      assert forall k :: from <= k < |trace| ==> InUpdate(o, trace[k], image, false, false, true);
      forall k | from <= k < |trace| ensures InUpdate(o, trace[k], image, writeNor, optIn, idle) {
        UpdateWidens(o, trace[k], image, writeNor, optIn, idle);
      }
      UpdateWidens(o, board, image, writeNor, optIn, idle);
      OutcomeWidens(o, board, image, writeNor, optIn, lastAttempt);
      ProgressJoins(p, q, q, q, false);
      if !status.Success? {
        return;
      }
      if writeNor {
        status := UpdatePrimary(image, optIn, hasProgress, o, from);
        ProgressJoins(p, q, progress, progress, hasProgress);
      } else {
        RescueOnly(o, board, image);
      }
      if status.Success? {
        if hasProgress {
          ProgressJoins(p, q, progress, progress + [100], true);
          progress := progress + [100];
        }
        lastAttempt := AttemptSuccess;
      }
    }

    /** SetImage(): returns the status, and records the stage that failed. */
    method SetImage(imageIndex: int, image: seq<Byte>, bootedFromSpiNor: bool, hasProgress: bool)
      returns (status: Status)
      requires Valid() && Settled()
      modifies this
      ensures old(trace) <= trace
      ensures var optIn := old(installRequested); var writeNor := bootedFromSpiNor || optIn;
        Updating(old(board), |old(trace)|, image, writeNor, optIn, old(pending).Idle?) && Settled()
      ensures imageIndex != IMAGE_INDEX ==>
        status == InvalidParameter && board == old(board) && lastAttempt == old(lastAttempt)
      ensures imageIndex == IMAGE_INDEX ==>
        && (status.Success? <==> lastAttempt.AttemptSuccess?)
        && (lastAttempt.InvalidFormat? <==> !ImageValid(image))
        && var optIn := old(installRequested); var writeNor := bootedFromSpiNor || optIn;
           Outcome(old(board), board, image, writeNor, optIn, lastAttempt)
      ensures imageIndex == IMAGE_INDEX ==> ReleasedAfter(Selected(old(board).partitionConfig), lastAttempt)
      ensures imageIndex == IMAGE_INDEX && lastAttempt.NorFailed? ==> NorGivenUp(old(board), image)
      ensures MoreSure(old(mcu), mcu, old(installRequested) && status.Success?)
      ensures status != Success ==> installRequested == old(installRequested)
      ensures !old(installRequested) ==> !installRequested
      ensures imageIndex == IMAGE_INDEX && lastAttempt !in {Boot0Failed, Boot1Failed} ==> cardErrors == old(cardErrors)
      ensures old(calls) <= calls && old(faults) <= faults
      ensures imageIndex == IMAGE_INDEX && ImageValid(image) && faults == old(faults) ==>
        var optIn := old(installRequested); var writeNor := bootedFromSpiNor || optIn;
        && (status.Success? || (writeNor && !FitsNor(image)) || (optIn && mcu.Refused? && lastAttempt.McuFlipFailed?))
        && (status.Success? && optIn ==> !installRequested)
      ensures imageIndex == IMAGE_INDEX && FitsNor(image) && lastAttempt.NorFailed? ==>
        calls == old(calls) || RewriteFailed(calls, |old(calls)|, image[BLOCK_SIZE..])
      ensures var writeNor := bootedFromSpiNor || old(installRequested);
        && (imageIndex == IMAGE_INDEX && lastAttempt.NoNorProtocol? ==> writeNor)
        && (!writeNor ==> calls == old(calls))
      ensures Reported(old(progress), progress, 0, 100)
      ensures hasProgress && status.Success? ==> |progress| > |old(progress)| && progress[|progress| - 1] == 100
    {
      hide InUpdate, Reported, Laid, Selected, Outcome, Released, NorGivenUp, RewriteFailed, FitsNor;
      var norOptIn := installRequested;
      var writeNor := bootedFromSpiNor || norOptIn;
      UpdateWidens(board, board, image, writeNor, norOptIn, pending.Idle?);
      ProgressJoins(progress, progress, progress, progress, false);
      NothingDone(board, image, writeNor, norOptIn);
      if imageIndex != IMAGE_INDEX {
        return InvalidParameter;
      }
      if !ImageValid(image) {
        lastAttempt := InvalidFormat;
        return InvalidParameter;
      }
      if writeNor {
        var located := Available();
        if !located {
          lastAttempt := NoNorProtocol;
          return NotFound;
        }
      }
      var located := Available();
      if !located {
        lastAttempt := NoEmmc;
        return NotFound;
      }
      status := Perform(image, writeNor, norOptIn, hasProgress);
    }

    /** Read the whole of boot0 and hand the card back, even on a read error. */
    method ReadBoot0() returns (status: Status, image: seq<Byte>)
      requires Valid()
      modifies this`board, this`trace, this`lastSelect, this`faults, this`cardErrors
      ensures FromCard(status)
      ensures Valid() && old(trace) <= trace
      ensures forall k :: |old(trace)| <= k < |trace| ==> OnlyConfig(old(board), trace[k])
      ensures OnlyConfig(old(board), board)
      ensures status.Success? ==> image == board.boot0 && Released(Boot0)
      ensures !status.Success? ==>
        Released(Boot0) || (lastSelect.access == ACCESS_BOOT0 && !lastSelect.status.Success?)
      ensures old(faults) <= faults && (faults == old(faults) ==> status.Success?)
      ensures old(cardErrors) <= cardErrors && (status.Success? ==> cardErrors == old(cardErrors))
    {
      hide OnlyConfig;
      ghost var o, from := board, |trace|;
      status := SelectPartition(ACCESS_BOOT0);
      ghost var b, n := board, |trace|;
      ConfigThenConfig(o, b, b);
      if status.Success? {
        status, image := ReadBlocks(BOOT_PARTITION_SIZE);
        ghost var read, errors := faults, cardErrors;
        var _ := SelectPartition(ACCESS_USER);
        faults, cardErrors := read, errors;
        forall k | n <= k < |trace| ensures OnlyConfig(o, trace[k]) {
          ConfigThenConfig(o, b, trace[k]);
        }
        ConfigThenConfig(o, b, board);
      } else {
        image := [];
      }
    }

    /** Copy the eMMC firmware into the NOR and boot the NOR first. `flipping`: the MCU
        was asked to, and so the NOR is whole. */
    method InstallFromEmmc() returns (status: Status, ghost flipping: bool)
      requires Valid() && Settled()
      modifies this
      ensures Valid() && Settled() && old(trace) <= trace
      ensures forall k :: |old(trace)| <= k < |trace| ==> InInstall(old(board), trace[k], old(pending).Idle?)
      ensures InInstall(old(board), board, old(pending).Idle?)
      ensures flipping ==> board.nor == Laid(old(board).nor, 0, old(board).boot0[BLOCK_SIZE..])
      ensures status.Success? ==> flipping && board.bootMode == MCU_SPI_FIRST
      ensures status.AccessDenied? <==> flipping && mcu.Refused?
      ensures status.AccessDenied? || !flipping ==> board.bootMode == old(board).bootMode
      ensures MoreSure(old(mcu), mcu, status.Success?) && status != VolumeCorrupted
      ensures status.Success? || flipping ==> Released(Boot0)
      ensures lastSelect == old(lastSelect) || Released(Boot0)
              || (lastSelect.access == ACCESS_BOOT0 && !lastSelect.status.Success?)
      ensures !status.Success? && !flipping && calls != old(calls) ==>
        RewriteFailed(calls, |old(calls)|, old(board).boot0[BLOCK_SIZE..])
      ensures old(faults) <= faults && (faults == old(faults) ==> status.Success? || (flipping && mcu.Refused?))
      ensures old(calls) <= calls && (status.Success? && faults == old(faults) ==> !installRequested)
      ensures !status.Success? ==> installRequested == old(installRequested)
      ensures progress == old(progress) && lastAttempt == old(lastAttempt)
    {
      hide OnlyConfig, OnlyNor, InInstall, InNorRewrite, Laid, RewriteFailed;
      ghost var o, from, idle := board, |trace|, pending.Idle?;
      ConfigInInstall(o, o, idle);
      var located := Available();
      if !located {
        return NotFound, false;
      }
      var memory := Available();
      if !memory {
        return OutOfResources, false;
      }
      var image;
      status, image := ReadBoot0();
      ConfigThenConfig(o, board, board);
      forall k | from <= k < |trace| ensures InInstall(o, trace[k], idle) {
        ConfigInInstall(o, trace[k], idle);
      }
      ConfigInInstall(o, board, idle);
      flipping := false;
      if !status.Success? {
        return;
      }
      status, flipping := InstallImage(image, o, from, idle);
    }

    /** The rest of it, with boot0 read and the card handed back. */
    method InstallImage(image: seq<Byte>, ghost o: Board, ghost from: nat, ghost idle: bool)
      returns (status: Status, ghost flipping: bool)
      requires Valid() && Settled() && o.Valid() && image == o.boot0 && from <= |trace| && idle == pending.Idle?
      requires InInstall(o, board, idle) && board.nor == o.nor && board.bootMode == o.bootMode
      requires forall k :: from <= k < |trace| ==> InInstall(o, trace[k], idle)
      modifies this`board, this`trace, this`progress, this`pending, this`calls, this`installRequested, this`mcu,
               this`faults
      ensures Valid() && Settled() && old(trace) <= trace && board.partitionConfig == old(board).partitionConfig
      ensures forall k :: from <= k < |trace| ==> InInstall(o, trace[k], idle)
      ensures InInstall(o, board, idle)
      ensures flipping ==> board.nor == Laid(o.nor, 0, o.boot0[BLOCK_SIZE..])
      ensures status.Success? ==> flipping && board.bootMode == MCU_SPI_FIRST
      ensures status.AccessDenied? <==> flipping && mcu.Refused?
      ensures status.AccessDenied? || !flipping ==> board.bootMode == o.bootMode
      ensures MoreSure(old(mcu), mcu, status.Success?) && status != VolumeCorrupted
      ensures old(faults) <= faults && (faults == old(faults) ==> status.Success? || (flipping && mcu.Refused?))
      ensures old(calls) <= calls && (status.Success? && faults == old(faults) ==> !installRequested)
      ensures !status.Success? ==> installRequested == old(installRequested)
      ensures !status.Success? && !flipping && calls != old(calls) ==>
        RewriteFailed(calls, |old(calls)|, o.boot0[BLOCK_SIZE..])
      ensures progress == old(progress)
    {
      hide OnlyConfig, OnlyNor, InInstall, InNorRewrite, Laid, RewriteFailed;
      flipping := false;
      if !ImageValid(image) {
        return VolumeCorrupted, false;
      }
      ghost var b, n := board, |trace|;
      status := WriteAndVerifyNor(image, false, 0, 0);
      forall k | n <= k < |trace| ensures InInstall(o, trace[k], idle) {
        NorInInstall(o, b, trace[k], idle);
      }
      NorInInstall(o, b, board, idle);
      if !status.Success? {
        return DeviceError, false;
      }
      ghost var c, m := board, |trace|;
      flipping := true;
      status := CompleteSpiNorInstall();
      forall k | m <= k < |trace| ensures InInstall(o, trace[k], idle) {
        McuInInstall(o, c, trace[k], idle);
      }
      McuInInstall(o, c, board, idle);
    }
  }
}
