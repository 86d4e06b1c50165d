/** What serial NOR does to its cells, shared by the flash driver and the
    firmware updater.

    Erasing sets every bit of a 4 KiB sector; programming can only clear bits.
    Either may be cut short or, for a program, silently leave bits at 1, so each
    is a relation between the contents before and after, not a function. */
module NorFlash {

  type Byte = bv8

  const ERASED: Byte := 0xFF
  const ERASE_SIZE := 0x1000
  const PAGE_SIZE := 0x100
  const NOR_SIZE := 0x100_0000
  const BOOT_SIZE := 0xC0_0000
  const RUNTIME_BASE := 0xF0_0000
  const RUNTIME_SIZE := 0xC_0000

  /** `cell` has every bit of `bits` set. */
  predicate Has(cell: Byte, bits: Byte) {
    cell & bits == bits
  }

  /** Nothing changed except possibly in [lo, hi). */
  predicate SameOutside(before: seq<Byte>, after: seq<Byte>, lo: int, hi: int) {
    && |after| == |before|
    && forall i :: 0 <= i < |before| && !(lo <= i < hi) ==> after[i] == before[i]
  }

  /** In [lo, hi) every bit that is 1 in `bits` is 1 in `flash`: what programming
      `bits` into erased flash guarantees however badly it goes. */
  predicate CoversIn(flash: seq<Byte>, bits: seq<Byte>, lo: int, hi: int) {
    && |flash| == |bits|
    && forall i :: 0 <= i < |flash| && lo <= i < hi ==> Has(flash[i], bits[i])
  }

  predicate Blank(flash: seq<Byte>, lo: int, hi: int) {
    forall i :: 0 <= i < |flash| && lo <= i < hi ==> flash[i] == ERASED
  }

  /** An erase of [lo, hi), finished or not: bits have only been set. */
  predicate EraseStep(before: seq<Byte>, after: seq<Byte>, lo: int, hi: int) {
    SameOutside(before, after, lo, hi) && CoversIn(after, before, lo, hi)
  }

  /** A program of `data` at `address`, finished or not, perhaps leaving bits at
      1: the cells end between the old value and old AND data. */
  predicate ProgramStep(before: seq<Byte>, after: seq<Byte>, address: int, data: seq<Byte>) {
    && SameOutside(before, after, address, address + |data|)
    && forall i :: 0 <= i < |before| && address <= i < address + |data| ==>
         Has(after[i], before[i] & data[i - address]) && Has(before[i], after[i])
  }

  /** A complete, fault-free program. */
  function Programmed(flash: seq<Byte>, address: nat, data: seq<Byte>): (r: seq<Byte>) {
    seq(|flash|, i requires 0 <= i < |flash| =>
      if address <= i < address + |data| then flash[i] & data[i - address] else flash[i])
  }

  /** ALIGN_VALUE (n, VIM3_NOR_ERASE_SIZE). */
  function AlignUp(n: nat): (r: nat)
    ensures n <= r < n + ERASE_SIZE && r % ERASE_SIZE == 0
  {
    (n + ERASE_SIZE - 1) / ERASE_SIZE * ERASE_SIZE
  }

  /** The contents after the sectors under `data` are erased and `data` is
      programmed at `address`: the tail of the last sector stays blank. */
  function Laid(flash: seq<Byte>, address: nat, data: seq<Byte>): (r: seq<Byte>)
    ensures |r| == |flash|
  {
    seq(|flash|, i requires 0 <= i < |flash| =>
      if address <= i < address + |data| then data[i - address]
      else if address <= i < address + AlignUp(|data|) then ERASED
      else flash[i])
  }

  /** A byte as a number, and a number as a byte. */
  function Number(b: Byte): (x: nat)
    ensures x < 0x100
  {
    b as int
  }

  function ByteAt(x: nat): (b: Byte)
    requires x < 0x100
    ensures Number(b) == x
  {
    if x == 0 then 0 else ByteAt(x - 1) + 1
  }

  lemma CoversTrans(a: seq<Byte>, b: seq<Byte>, c: seq<Byte>, lo: int, hi: int)
    requires CoversIn(a, b, lo, hi) && CoversIn(b, c, lo, hi)
    ensures CoversIn(a, c, lo, hi)
  {
  }

  lemma ProgrammedIsStep(flash: seq<Byte>, address: nat, data: seq<Byte>)
    requires address + |data| <= |flash|
    ensures ProgramStep(flash, Programmed(flash, address, data), address, data)
  {
    forall i | 0 <= i < |flash| && address <= i < address + |data|
      ensures Has(flash[i] & data[i - address], flash[i] & data[i - address])
      ensures Has(flash[i], flash[i] & data[i - address])
    {
      AndIsBelow(flash[i], data[i - address]);
    }
  }

  lemma AndIsBelow(cell: Byte, bits: Byte)
    ensures Has(cell & bits, cell & bits) && Has(cell, cell & bits)
  {
  }

  /** Programming the next piece of `data`, after the first `done` bytes. */
  lemma ProgramExtends(a: seq<Byte>, b: seq<Byte>, c: seq<Byte>, address: nat, data: seq<Byte>, done: nat, piece: nat)
    requires address + |data| <= |a| && done + piece <= |data|
    requires ProgramStep(a, b, address, data) && SameOutside(a, b, address, address + done)
    requires ProgramStep(b, c, address + done, data[done..done + piece])
    ensures ProgramStep(a, c, address, data)
    ensures SameOutside(a, c, address, address + done + piece)
  {
  }

  /** Programming the same data again changes nothing that one complete program
      would not have. */
  lemma ProgramTwice(a: seq<Byte>, b: seq<Byte>, c: seq<Byte>, address: nat, data: seq<Byte>)
    requires address + |data| <= |a|
    requires ProgramStep(a, b, address, data) && ProgramStep(b, c, address, data)
    ensures ProgramStep(a, c, address, data)
    ensures c == Programmed(b, address, data) ==> c == Programmed(a, address, data)
  {
    forall i | 0 <= i < |a| && address <= i < address + |data|
      ensures Has(c[i], a[i] & data[i - address]) && Has(a[i], c[i])
      ensures b[i] & data[i - address] == a[i] & data[i - address]
    {
      ProgramTwiceBits(a[i], b[i], c[i], data[i - address]);
    }
  }

  lemma ProgramTwiceBits(a: Byte, b: Byte, c: Byte, bits: Byte)
    requires Has(b, a & bits) && Has(a, b) && Has(c, b & bits) && Has(b, c)
    ensures Has(c, a & bits) && Has(a, c) && b & bits == a & bits
  {
  }

  lemma ProgrammedExtends(flash: seq<Byte>, address: nat, data: seq<Byte>, done: nat, piece: nat)
    requires address + |data| <= |flash| && done + piece <= |data|
    ensures Programmed(Programmed(flash, address, data[..done]), address + done, data[done..done + piece])
         == Programmed(flash, address, data[..done + piece])
  {
  }

  lemma NothingProgrammed(flash: seq<Byte>, address: nat, data: seq<Byte>)
    ensures ProgramStep(flash, flash, address, data) && SameOutside(flash, flash, address, address)
  {
  }

  lemma NothingErased(flash: seq<Byte>, lo: int, hi: int)
    ensures EraseStep(flash, flash, lo, hi) && Blank(flash, lo, lo)
  {
  }

  /** A sector erase inside [lo, hi), after [lo, mid) was erased. */
  lemma EraseExtends(a: seq<Byte>, b: seq<Byte>, c: seq<Byte>, lo: int, mid: int, end: int, hi: int)
    requires lo <= mid <= end <= hi
    requires EraseStep(a, b, lo, hi) && Blank(b, lo, mid) && EraseStep(b, c, mid, end)
    ensures EraseStep(a, c, lo, hi)
    ensures Blank(c, mid, end) ==> Blank(c, lo, end)
  {
  }

  lemma EraseStepTrans(a: seq<Byte>, b: seq<Byte>, c: seq<Byte>, lo: int, mid: int, hi: int)
    requires lo <= mid <= hi
    requires EraseStep(a, b, lo, hi) && EraseStep(b, c, mid, hi)
    ensures EraseStep(a, c, lo, hi)
  {
  }
}
