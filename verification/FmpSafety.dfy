/** What the update protocol guarantees, whatever step power is lost at: proved
    for every state that Fmp.InUpdate and Fmp.InInstall admit, which includes
    every state the methods of Vim3Fmp record. */
module FmpSafety {
  import opened NorFlash
  import opened Fmp

  const MEDIA_BL2 := BLOCK_SIZE + NOR_WRITE_CHUNK

  /** The BootROM's check of the first 64 KiB is true only of a whole BL2: not of
      blank flash, and not of this BL2 with extra bits left at 1. */
  ghost predicate WholeOnly(validates: seq<Byte> -> bool, bl2: seq<Byte>) {
    && !validates(seq(NOR_WRITE_CHUNK, _ => ERASED))
    && forall c :: |c| == |bl2| && CoversIn(c, bl2, 0, |bl2|) && validates(c) ==> c == bl2
  }

  /** An old BL2 is not mistaken for its own first sector: the chip was idle when the
      rewrite began, or that BL2 does not validate, or it reaches past the sector. */
  ghost predicate Telling(o: seq<Byte>, idle: bool, validates: seq<Byte> -> bool)
    requires NOR_WRITE_CHUNK <= |o|
  {
    idle || !validates(o[..NOR_WRITE_CHUNK]) || !Blank(o, ERASE_SIZE, NOR_WRITE_CHUNK)
  }

  /** At every step of a rewrite, a NOR whose BL2 validates is entirely the old
      image or entirely the new one. */
  lemma NorIsOldOrNew(o: seq<Byte>, t: seq<Byte>, image: seq<Byte>, idle: bool, validates: seq<Byte> -> bool)
    requires 0 < |image| && AlignUp(|image|) <= |o| && NOR_WRITE_CHUNK <= |o|
    requires InNorRewrite(o, t, image, idle) && Telling(o, idle, validates)
    requires WholeOnly(validates, o[..NOR_WRITE_CHUNK])
    requires WholeOnly(validates, Laid(o, 0, image)[..NOR_WRITE_CHUNK])
    requires validates(t[..NOR_WRITE_CHUNK])
    ensures t == o || t == Laid(o, 0, image)
  {
    var first, laid, bl2 := AlignUp(FirstChunk(image)), Laid(o, 0, image), t[..NOR_WRITE_CHUNK];
    AlignUpMonotone(FirstChunk(image), NOR_WRITE_CHUNK);
    if OldFirstChunk(o, t, image) {
      CutKeepsCover(o, t, first);
      assert bl2 == o[..NOR_WRITE_CHUNK];
      SameBelowAndAbove(o, t, first);
    } else if NoFirstChunk(o, t, image, idle) {
      HeadNeverValidates(o, t, idle, validates);
    } else {
      CutKeepsCover(laid, t, first);
      assert bl2 == laid[..NOR_WRITE_CHUNK];
      SameBelowAndAbove(laid, t, first);
    }
  }

  lemma HeadNeverValidates(o: seq<Byte>, t: seq<Byte>, idle: bool, validates: seq<Byte> -> bool)
    requires NOR_WRITE_CHUNK <= |o| && CoversIn(t, o, 0, NOR_WRITE_CHUNK)
    requires Blank(t, if idle then 0 else ERASE_SIZE, NOR_WRITE_CHUNK)
    requires Telling(o, idle, validates) && WholeOnly(validates, o[..NOR_WRITE_CHUNK])
    ensures !validates(t[..NOR_WRITE_CHUNK])
  {
    if idle {
      BlankNeverValidates(t, o[..NOR_WRITE_CHUNK], validates);
    } else if validates(t[..NOR_WRITE_CHUNK]) {
      var bl2, was := t[..NOR_WRITE_CHUNK], o[..NOR_WRITE_CHUNK];
      assert CoversIn(bl2, was, 0, |was|);
      assert bl2 == was;
      forall i | ERASE_SIZE <= i < NOR_WRITE_CHUNK ensures o[i] == ERASED {
        assert bl2[i] == t[i] && was[i] == o[i];
      }
      assert false;
    }
  }

  /** That hypothesis is needed. A busy chip ignores the erase of the one sector that
      holds the old BL2, the other sectors of its chunk are blank already, and so the
      next chunk is begun over an old BL2 that validates: one sector erased there, and
      the NOR is neither the old image nor the new one. */
  lemma OneSectorMixes(o: seq<Byte>, image: seq<Byte>) returns (t: seq<Byte>)
    requires |image| > NOR_WRITE_CHUNK && AlignUp(|image|) <= |o| && Blank(o, ERASE_SIZE, NOR_WRITE_CHUNK)
    requires o[NOR_WRITE_CHUNK] != ERASED && image[NOR_WRITE_CHUNK] != ERASED
    ensures Wiped(o, o, Busy, 0, AlignUp(FirstChunk(image))) && RewrittenUpTo(o, o, image, NOR_WRITE_CHUNK, false)
    ensures EraseStep(o, t, NOR_WRITE_CHUNK, NOR_WRITE_CHUNK + ERASE_SIZE)
    ensures var chunk := if |image| < 2 * NOR_WRITE_CHUNK then |image| - NOR_WRITE_CHUNK else NOR_WRITE_CHUNK;
      InChunkUpdate(o, t, NOR_WRITE_CHUNK, image[NOR_WRITE_CHUNK..NOR_WRITE_CHUNK + chunk])
    ensures InNorRewrite(o, t, image, false) && t[..NOR_WRITE_CHUNK] == o[..NOR_WRITE_CHUNK]
    ensures t != o && t != Laid(o, 0, image)
  {
    var n, chunk := NOR_WRITE_CHUNK, if |image| < 2 * NOR_WRITE_CHUNK then |image| - NOR_WRITE_CHUNK else NOR_WRITE_CHUNK;
    t := WithBlank(o, n, n + ERASE_SIZE);
    PendingEnds(o, Erasing(n));
    ChunkUpdateStarts(o, n, image[n..n + chunk]);
    EraseWider(o, t, n, n, n + ERASE_SIZE, n + AlignUp(chunk));
    EraseKeepsChunkUpdate(o, o, t, n, image[n..n + chunk]);
    OldHeadStays(o, image);
    hide Has;
    RewriteMiddle(o, o, t, image, n, chunk, false);
    assert Laid(o, 0, image)[n] == image[n];
  }

  lemma OldHeadStays(o: seq<Byte>, image: seq<Byte>)
    requires |image| > NOR_WRITE_CHUNK && Blank(o, ERASE_SIZE, NOR_WRITE_CHUNK)
    ensures Wiped(o, o, Busy, 0, AlignUp(FirstChunk(image))) && RewrittenUpTo(o, o, image, NOR_WRITE_CHUNK, false)
  {
    NothingErased(o, 0, NOR_WRITE_CHUNK);
  }

  lemma BlankNeverValidates(t: seq<Byte>, bl2: seq<Byte>, validates: seq<Byte> -> bool)
    requires NOR_WRITE_CHUNK <= |t| && Blank(t, 0, NOR_WRITE_CHUNK) && WholeOnly(validates, bl2)
    ensures !validates(t[..NOR_WRITE_CHUNK])
  {
    assert t[..NOR_WRITE_CHUNK] == seq(NOR_WRITE_CHUNK, _ => ERASED);
  }

  lemma CutKeepsCover(o: seq<Byte>, t: seq<Byte>, first: nat)
    requires first <= NOR_WRITE_CHUNK <= |o|
    requires SameOutside(o, t, 0, first) && CoversIn(t, o, 0, first)
    ensures CoversIn(t[..NOR_WRITE_CHUNK], o[..NOR_WRITE_CHUNK], 0, NOR_WRITE_CHUNK)
  {
  }

  lemma SameBelowAndAbove(o: seq<Byte>, t: seq<Byte>, first: nat)
    requires first <= NOR_WRITE_CHUNK <= |o|
    requires SameOutside(o, t, 0, first) && t[..NOR_WRITE_CHUNK] == o[..NOR_WRITE_CHUNK]
    ensures t == o
  {
  }

  // ---- What boots ----------------------------------------------------------

  datatype BootSource = FromNor | FromBoot0 | FromBoot1 | NoFirmware

  /** Where the BootROM takes its firmware from: it commits to the first copy, in
      the order the boot mode sets, whose BL2 validates. */
  function BootRom(b: Board, norOk: seq<Byte> -> bool, mediaOk: seq<Byte> -> bool): BootSource
    requires b.Valid()
  {
    var nor := norOk(b.nor[..NOR_WRITE_CHUNK]);
    if b.bootMode == MCU_SPI_FIRST && nor then FromNor
    else if mediaOk(b.boot0[..MEDIA_BL2]) then FromBoot0
    else if mediaOk(b.boot1[..MEDIA_BL2]) then FromBoot1
    else if nor then FromNor
    else NoFirmware
  }

  /** The board boots a complete image: the old or the new one from the NOR, or
      the new one from boot0. */
  ghost predicate BootsComplete(o: Board, t: Board, image: seq<Byte>, source: BootSource) {
    match source
    case FromNor => t.nor == o.nor || (|image| > BLOCK_SIZE && t.nor == Laid(o.nor, 0, image[BLOCK_SIZE..]))
    case FromBoot0 => StartsWith(t.boot0, image)
    case FromBoot1 | NoFirmware => false
  }

  /** The checks accept whole BL2s only, and accept the new image's. */
  ghost predicate GoodChecks(o: Board, image: seq<Byte>, idle: bool, norOk: seq<Byte> -> bool,
                             mediaOk: seq<Byte> -> bool) {
    && |image| >= MEDIA_BL2 && |o.nor| >= NOR_WRITE_CHUNK
    && mediaOk(image[..MEDIA_BL2]) && Telling(o.nor, idle, norOk)
    && WholeOnly(norOk, o.nor[..NOR_WRITE_CHUNK])
    && WholeOnly(norOk, Laid(o.nor, 0, image[BLOCK_SIZE..])[..NOR_WRITE_CHUNK])
  }

  /** A cut at any step of an update of a board that boots from its NOR, or at
      any step from the NOR rewrite on for any board, leaves a board that boots a
      complete image. */
  lemma EveryCutBoots(o: Board, t: Board, image: seq<Byte>, writeNor: bool, optIn: bool, idle: bool,
                      norOk: seq<Byte> -> bool, mediaOk: seq<Byte> -> bool)
    requires o.Valid() && t.Valid() && ImageValid(image) && GoodChecks(o, image, idle, norOk, mediaOk)
    requires InUpdate(o, t, image, writeNor, optIn, idle)
    requires || (BootRom(o, norOk, mediaOk) == FromNor && o.bootMode == MCU_SPI_FIRST)
             || WritingNor(o, t, image, idle) || FlippingMcu(o, t, image)
    ensures BootsComplete(o, t, image, BootRom(t, norOk, mediaOk))
  {
    if WritingBoot0(o, t) || WritingBoot1(o, t, image) {
      if o.bootMode == MCU_SPI_FIRST && norOk(o.nor[..NOR_WRITE_CHUNK]) {
        return;
      }
    }
    assert StartsWith(t.boot0, image) && t.boot0[..MEDIA_BL2] == image[..MEDIA_BL2];
    if norOk(t.nor[..NOR_WRITE_CHUNK]) && WritingNor(o, t, image, idle) {
      NorIsOldOrNew(o.nor, t.nor, image[BLOCK_SIZE..], idle, norOk);
    }
  }

  /** Copying boot0 into the NOR: at every step the eMMC copies are the old ones
      and a NOR whose BL2 validates is the old one or the whole of boot0. */
  lemma EveryInstallCutBoots(o: Board, t: Board, idle: bool, norOk: seq<Byte> -> bool)
    requires o.Valid() && InInstall(o, t, idle) && Telling(o.nor, idle, norOk)
    requires WholeOnly(norOk, o.nor[..NOR_WRITE_CHUNK])
    requires WholeOnly(norOk, Laid(o.nor, 0, o.boot0[BLOCK_SIZE..])[..NOR_WRITE_CHUNK])
    ensures t.boot0 == o.boot0 && t.boot1 == o.boot1
    ensures norOk(t.nor[..NOR_WRITE_CHUNK]) ==>
      t.nor == o.nor || t.nor == Laid(o.nor, 0, o.boot0[BLOCK_SIZE..])
  {
    if norOk(t.nor[..NOR_WRITE_CHUNK]) && t.nor != o.nor {
      NorIsOldOrNew(o.nor, t.nor, o.boot0[BLOCK_SIZE..], idle, norOk);
    }
  }

  // ---- Which copies survive -------------------------------------------------

  /** Starting from a complete boot1, or a complete NOR, some copy is complete at
      every step. */
  lemma SomeCopySurvives(o: Board, t: Board, image: seq<Byte>, writeNor: bool, optIn: bool, idle: bool,
                         complete: seq<Byte> -> bool, norComplete: seq<Byte> -> bool)
    requires InUpdate(o, t, image, writeNor, optIn, idle)
    requires complete(o.boot1) || norComplete(o.nor)
    requires forall s :: StartsWith(s, image) ==> complete(s)
    ensures complete(t.boot0) || complete(t.boot1) || norComplete(t.nor)
  {
  }

  /** The MCU is pointed at the NOR only in states where all three copies hold
      the new image. */
  lemma McuOnlyAfterAllCopies(o: Board, t: Board, image: seq<Byte>, writeNor: bool, optIn: bool, idle: bool)
    requires InUpdate(o, t, image, writeNor, optIn, idle) && t.bootMode != o.bootMode
    ensures StartsWith(t.boot0, image) && StartsWith(t.boot1, image)
    ensures optIn && |image| > BLOCK_SIZE && t.nor == Laid(o.nor, 0, image[BLOCK_SIZE..])
  {
  }

  /** One step of the card: a partition selected, or a block of the selected
      partition written or torn. */
  ghost predicate CardStep(b: Board, t: Board) {
    || (exists access :: t == b.(partitionConfig := WithAccess(b.partitionConfig, access)))
    || (exists lba: nat :: (lba + 1) * BLOCK_SIZE <= BOOT_PARTITION_SIZE && BlockWritten(b, t, lba))
  }

  /** Card steps, one after the other, all within the update of `o`. */
  ghost predicate Run(o: Board, run: seq<Board>, image: seq<Byte>) {
    && |run| > 0 && (forall i :: 0 <= i < |run| ==> InUpdate(o, run[i], image, false, false, true))
    && forall i :: 0 < i < |run| ==> CardStep(run[i - 1], run[i])
  }

  /** boot0 of `b` with the first n blocks of the image in it. */
  function Copied(b: Board, image: seq<Byte>, n: nat): Board
    requires n * BLOCK_SIZE <= |image| <= |b.boot0|
  {
    b.(boot0 := image[..n * BLOCK_SIZE] + b.boot0[n * BLOCK_SIZE..])
  }

  lemma SelectStep(o: Board, b: Board, t: Board, image: seq<Byte>, access: bv8)
    requires InUpdate(o, b, image, false, false, true)
    requires t == b.(partitionConfig := WithAccess(b.partitionConfig, access))
    ensures CardStep(b, t) && InUpdate(o, t, image, false, false, true)
    ensures WithAccess(b.partitionConfig, access) & PARTITION_ACCESS_MASK == access & PARTITION_ACCESS_MASK
  {
    SwitchSelects(b.partitionConfig, access);
  }

  lemma BlockCopied(b: Board, image: seq<Byte>, n: nat)
    requires b.Valid() && Selected(b.partitionConfig) == Boot0 && (n + 1) * BLOCK_SIZE <= |image| <= BOOT_PARTITION_SIZE
    ensures CardStep(Copied(b, image, n), Copied(b, image, n + 1))
  {
    var before, after := Copied(b, image, n), Copied(b, image, n + 1);
    assert BlockWritten(before, after, n);
  }

  /** Writing boot0 block by block is a run. */
  lemma {:induction false} CopyRuns(o: Board, b: Board, image: seq<Byte>, n: nat) returns (run: seq<Board>)
    requires b.Valid() && Selected(b.partitionConfig) == Boot0 && n * BLOCK_SIZE <= |image| <= BOOT_PARTITION_SIZE
    requires b == o.(partitionConfig := b.partitionConfig) && b.partitionConfig & 0xF8 == o.partitionConfig & 0xF8
    ensures Run(o, run, image) && run[0] == b && run[|run| - 1] == Copied(b, image, n)
  {
    if n == 0 {
      assert Copied(b, image, 0) == b;
      run := [b];
    } else {
      var before := CopyRuns(o, b, image, n - 1);
      BlockCopied(b, image, n - 1);
      run := before + [Copied(b, image, n)];
    }
  }

  lemma RunGrows(o: Board, run: seq<Board>, image: seq<Byte>, t: Board)
    requires Run(o, run, image) && CardStep(run[|run| - 1], t) && InUpdate(o, t, image, false, false, true)
    ensures Run(o, run + [t], image)
  {
  }

  /** The hypothesis of SomeCopySurvives is needed: a cut in the first block of boot1,
      then a second update cut in the first block of boot0, and an eMMC-booted board
      has no complete copy left. Both cuts end runs of the card's own steps. */
  lemma TwoCutsLoseBothCopies(o: Board, image: seq<Byte>) returns (first: seq<Board>, second: seq<Board>)
    requires o.Valid() && ImageValid(image) && image[0] == 1
    requires o.boot0[0] == 1 && o.boot1[0] == 1
    ensures Run(o, first, image) && first[0] == o
    ensures var t := first[|first| - 1];
      && WritingBoot1(o, t, image) && Run(t, second, image) && second[0] == t
      && var u := second[|second| - 1];
         && WritingBoot0(t, u)
         && !StartsWith(u.boot0, image) && u.boot0 != o.boot0
         && !StartsWith(u.boot1, image) && u.boot1 != o.boot1
  {
    hide Run, InUpdate, CardStep, WithAccess;
    var t;
    first, t := CutInBoot1(o, image);
    second := CutInBoot0(t, image);
    var u := second[|second| - 1];
    assert u.boot0[..|image|][0] == 0 && u.boot1[..|image|][0] == 0;
  }

  lemma CutInBoot1(o: Board, image: seq<Byte>) returns (run: seq<Board>, t: Board)
    requires o.Valid() && ImageValid(image)
    ensures Run(o, run, image) && run[0] == o && run[|run| - 1] == t
    ensures t.Valid() && WritingBoot1(o, t, image) && t.boot1 == o.boot1[0 := 0]
  {
    var b := o.(partitionConfig := WithAccess(o.partitionConfig, ACCESS_BOOT0));
    UpdateWidens(o, o, image, false, false, true);
    SelectStep(o, o, b, image, ACCESS_BOOT0);
    var n := |image| / BLOCK_SIZE;
    var copy := CopyRuns(o, b, image, n);
    var c := Copied(b, image, n);
    run := [o] + copy;
    assert Run(o, run, image);
    var d := c.(partitionConfig := WithAccess(c.partitionConfig, ACCESS_BOOT1));
    SelectStep(o, c, d, image, ACCESS_BOOT1);
    RunGrows(o, run, image, d);
    t := d.(boot1 := d.boot1[0 := 0]);
    assert BlockWritten(d, t, 0);
    assert t.boot0[..|image|] == image;
    RunGrows(o, run + [d], image, t);
    run := run + [d] + [t];
  }

  lemma CutInBoot0(o: Board, image: seq<Byte>) returns (run: seq<Board>)
    requires o.Valid() && ImageValid(image)
    ensures Run(o, run, image) && run[0] == o
    ensures var u := run[|run| - 1]; WritingBoot0(o, u) && u.boot0 == o.boot0[0 := 0]
  {
    UpdateWidens(o, o, image, false, false, true);
    var b := o.(partitionConfig := WithAccess(o.partitionConfig, ACCESS_BOOT0));
    SelectStep(o, o, b, image, ACCESS_BOOT0);
    var u := b.(boot0 := b.boot0[0 := 0]);
    assert BlockWritten(b, u, 0);
    assert Run(o, [o], image);
    RunGrows(o, [o], image, b);
    RunGrows(o, [o] + [b], image, u);
    run := [o] + [b] + [u];
  }
}
