/** The DMA memory pool of the xHCI driver (UsbHcMem): blocks of pages carved into
    64-byte units, a bit per unit, first fit, blocks on a linked list. */
module DmaPool {
  import Arith
  import opened NorFlash
  import opened Wrappers

  const WORD64 := 0x1_0000_0000_0000_0000
  const MEM_UNIT := 64
  const DEFAULT_PAGES := 16
  const PAGE := 0x1000
  const RINGS_BOUNDARY := 0x1_0000

  // ---- Bit arrays -------------------------------------------------------------

  /** USB_HC_BIT (bit). */
  function Mask(bit: nat): Byte
    requires bit < 8
  {
    if bit == 0 then 1 else if bit == 1 then 2 else if bit == 2 then 4 else if bit == 3 then 8
    else if bit == 4 then 16 else if bit == 5 then 32 else if bit == 6 then 64 else 128
  }

  /** Bits count from the least significant. */
  lemma MaskIsPower(bit: nat)
    requires bit < 8
    ensures Mask(bit) as nat == Arith.Pow2(bit)
  {
    assert Arith.Pow2(2) == 4 && Arith.Pow2(4) == 16 && Arith.Pow2(6) == 64;
  }

  predicate BitIsSet(data: Byte, bit: nat)
    requires bit < 8
  {
    data & Mask(bit) == Mask(bit)
  }

  /** Unit `u` of the block is allocated. */
  predicate Used(bits: seq<Byte>, u: nat)
    requires u < 8 * |bits|
  {
    BitIsSet(bits[u / 8], u % 8)
  }

  lemma UnitOfBit(bits: seq<Byte>, byte: nat, bit: nat)
    requires byte < |bits| && bit < 8
    ensures byte * 8 + bit < 8 * |bits| && Used(bits, byte * 8 + bit) == BitIsSet(bits[byte], bit)
  {
  }

  lemma SetOneBit(data: Byte, bit: nat, other: nat)
    requires bit < 8 && other < 8
    ensures BitIsSet(data | Mask(bit), other) == (other == bit || BitIsSet(data, other))
  {
  }

  lemma FlipOneBit(data: Byte, bit: nat, other: nat)
    requires bit < 8 && other < 8
    ensures BitIsSet(data ^ Mask(bit), other) == (if other == bit then !BitIsSet(data, bit) else BitIsSet(data, other))
  {
  }

  lemma AllClear(data: Byte)
    ensures data == 0 <==> forall bit :: 0 <= bit < 8 ==> !BitIsSet(data, bit)
  {
    if forall bit :: 0 <= bit < 8 ==> !BitIsSet(data, bit) {
      assert !BitIsSet(data, 0) && !BitIsSet(data, 1) && !BitIsSet(data, 2) && !BitIsSet(data, 3);
      assert !BitIsSet(data, 4) && !BitIsSet(data, 5) && !BitIsSet(data, 6) && !BitIsSet(data, 7);
    }
  }

  // ---- Fits ---------------------------------------------------------------------

  predicate Free(bits: seq<Byte>, start: nat, units: nat)
    requires start + units <= 8 * |bits|
  {
    forall u :: start <= u < start + units ==> !Used(bits, u)
  }

  /** No byte of the run is across a 64 KiB boundary from another. */
  predicate OneWindow(host: nat, start: nat, units: nat)
    requires 0 < units
  {
    (host + start * MEM_UNIT) / RINGS_BOUNDARY == (host + (start + units - 1) * MEM_UNIT) / RINGS_BOUNDARY
  }

  /** A request for `units` can be met at unit `start`. */
  predicate Fits(bits: seq<Byte>, host: nat, start: nat, units: nat, forRing: bool)
    requires 0 < units
  {
    start + units <= 8 * |bits| && Free(bits, start, units) && (forRing ==> OneWindow(host, start, units))
  }

  /** The scan has seen that no start below `start` will do and that the
      `available` units from there on are free and in one window. */
  predicate Scanned(bits: seq<Byte>, host: nat, start: nat, available: nat, units: nat, forRing: bool)
    requires 0 < units
  {
    && available < units && start + available <= 8 * |bits|
    && Free(bits, start, available)
    && (forRing && 0 < available ==> OneWindow(host, start, available))
    && forall s :: 0 <= s < start ==> !Fits(bits, host, s, units, forRing)
  }

  lemma ScanStarts(bits: seq<Byte>, host: nat, units: nat, forRing: bool)
    requires 0 < units
    ensures Scanned(bits, host, 0, 0, units, forRing)
  {
  }

  /** The next unit is free and in the same window. */
  lemma ScanGrows(bits: seq<Byte>, host: nat, start: nat, available: nat, units: nat, forRing: bool)
    requires 0 < units && Scanned(bits, host, start, available, units, forRing)
    requires start + available < 8 * |bits| && !Used(bits, start + available)
    requires forRing && 0 < available ==>
      (host + (start + available) * MEM_UNIT) / RINGS_BOUNDARY == (host + (start + available - 1) * MEM_UNIT) / RINGS_BOUNDARY
    ensures available + 1 < units ==> Scanned(bits, host, start, available + 1, units, forRing)
    ensures available + 1 == units ==> Fits(bits, host, start, units, forRing)
  {
  }

  /** The next unit begins a new window: start over there. */
  lemma ScanCrosses(bits: seq<Byte>, host: nat, start: nat, available: nat, units: nat)
    requires 0 < units && Scanned(bits, host, start, available, units, true) && 0 < available
    requires (host + (start + available) * MEM_UNIT) / RINGS_BOUNDARY != (host + (start + available - 1) * MEM_UNIT) / RINGS_BOUNDARY
    ensures Scanned(bits, host, start + available, 0, units, true)
  {
  }

  /** The next unit is taken: start over behind it. */
  lemma ScanBlocked(bits: seq<Byte>, host: nat, start: nat, available: nat, units: nat, forRing: bool)
    requires 0 < units && Scanned(bits, host, start, available, units, forRing)
    requires start + available < 8 * |bits| && Used(bits, start + available)
    ensures Scanned(bits, host, start + available + 1, 0, units, forRing)
  {
  }

  /** The end of the block is reached: nothing will do. */
  lemma ScanEnds(bits: seq<Byte>, host: nat, start: nat, available: nat, units: nat, forRing: bool)
    requires 0 < units && Scanned(bits, host, start, available, units, forRing)
    requires start + available == 8 * |bits|
    ensures forall s :: 0 <= s < 8 * |bits| ==> !Fits(bits, host, s, units, forRing)
  {
  }

  lemma ScanLowest(bits: seq<Byte>, host: nat, start: nat, available: nat, units: nat, forRing: bool)
    requires 0 < units && Scanned(bits, host, start, available, units, forRing)
    ensures forall s :: 0 <= s < start ==> !Fits(bits, host, s, units, forRing)
  {
  }

  /** Exactly `units` units from s on were cleared. */
  predicate ClearedRun(before: seq<Byte>, after: seq<Byte>, s: nat, units: nat) {
    |after| == |before| &&
    forall u :: 0 <= u < 8 * |before| ==> Used(after, u) == (Used(before, u) && !(s <= u < s + units))
  }

  lemma OneCleared(first: seq<Byte>, before: seq<Byte>, s: nat, count: nat, byte: nat, bit: nat)
    requires ClearedRun(first, before, s, count) && byte < |before| && bit < 8 && byte * 8 + bit == s + count
    requires Used(before, s + count)
    ensures ClearedRun(first, before[byte := before[byte] ^ Mask(bit)], s, count + 1)
  {
    hide Mask, BitIsSet;
    var after := before[byte := before[byte] ^ Mask(bit)];
    forall u | 0 <= u < 8 * |before| ensures Used(after, u) == (Used(before, u) && u != s + count) {
      if u / 8 == byte {
        FlipOneBit(before[byte], bit, u % 8);
      }
    }
  }

  class MemBlock {
    const bits: array<Byte>
    const bufHost: nat
    const buf: nat
    var next: MemBlock?

    constructor (pages: nat, host: nat, pci: nat)
      ensures fresh(bits) && bits.Length == pages * PAGE / (MEM_UNIT * 8) && next == null
      ensures bufHost == host && buf == pci
      ensures forall i :: 0 <= i < bits.Length ==> bits[i] == 0
    {
      bits := new Byte[pages * PAGE / (MEM_UNIT * 8)](_ => 0);
      bufHost, buf := host, pci;
      next := null;
    }

    function BufLen(): nat {
      bits.Length * 8 * MEM_UNIT
    }

    ghost function View(): BlockView
      reads bits
    {
      BlockView(bufHost, buf, bits[..])
    }

    /** The scan: the lowest unit where the request can be met, if there is one. */
    method FindUnits(units: nat, forRing: bool) returns (found: bool, startByte: nat, startBit: nat)
      requires 0 < units
      ensures found ==> startBit < 8 && Fits(bits[..], bufHost, startByte * 8 + startBit, units, forRing)
      ensures forall s :: 0 <= s < (if found then startByte * 8 + startBit else 8 * bits.Length) ==>
        !Fits(bits[..], bufHost, s, units, forRing)
    {
      hide Scanned, Fits, OneWindow, Free, BitIsSet, Used, NextBit;
      ghost var b, start, cur := bits[..], 0, 0;
      var available := 0;
      startByte, startBit := 0, 0;
      var byte, bit := 0, 0;
      ScanStarts(b, bufHost, units, forRing);
      while byte < bits.Length
        invariant byte <= bits.Length && 0 <= bit < 8 && cur == byte * 8 + bit <= 8 * bits.Length
        invariant startBit < 8 && start == startByte * 8 + startBit && start + available == cur
        invariant available < units && Scanned(b, bufHost, start, available, units, forRing)
        decreases 8 * bits.Length - cur
      {
        UnitOfBit(b, byte, bit);
        if !BitIsSet(bits[byte], bit) {
          if forRing && available != 0 {
            var memUnitAddr := bufHost + (byte * 8 + bit) * MEM_UNIT;
            if memUnitAddr / RINGS_BOUNDARY != (memUnitAddr - MEM_UNIT) / RINGS_BOUNDARY {
              ScanCrosses(b, bufHost, start, available, units);
              available, startByte, startBit := 0, byte, bit;
              start := cur;
            }
          }
          ScanLowest(b, bufHost, start, available, units, forRing);
          ScanGrows(b, bufHost, start, available, units, forRing);
          available := available + 1;
          if available >= units {
            return true, startByte, startBit;
          }
          var after := NextBit(byte, bit);
          byte, bit := after.0, after.1;
        } else {
          ScanBlocked(b, bufHost, start, available, units, forRing);
          var after := NextBit(byte, bit);
          byte, bit := after.0, after.1;
          available, startByte, startBit := 0, byte, bit;
          start := cur + 1;
        }
        cur := cur + 1;
      }
      ScanEnds(b, bufHost, start, available, units, forRing);
      return false, 0, 0;
    }

    /** Set the bits of a free run. */
    method MarkUsed(startByte: nat, startBit: nat, units: nat)
      requires startBit < 8 && startByte * 8 + startBit + units <= 8 * bits.Length
      requires Free(bits[..], startByte * 8 + startBit, units)
      modifies bits
      ensures var s := startByte * 8 + startBit; forall u :: 0 <= u < 8 * bits.Length ==>
        Used(bits[..], u) == (Used(old(bits[..]), u) || s <= u < s + units)
    {
      ghost var s := startByte * 8 + startBit;
      var byte, bit := startByte, startBit;
      var count := 0;
      while count < units
        invariant 0 <= count <= units && 0 <= bit < 8 && byte * 8 + bit == s + count
        invariant forall u :: 0 <= u < 8 * bits.Length ==>
          Used(bits[..], u) == (Used(old(bits[..]), u) || s <= u < s + count)
      {
        ghost var before := bits[..];
        bits[byte] := bits[byte] | Mask(bit);
        forall u | 0 <= u < 8 * bits.Length
          ensures Used(bits[..], u) == (Used(before, u) || u == s + count)
        {
          SetOneBit(before[byte], bit, u % 8);
        }
        var after := NextBit(byte, bit);
        byte, bit := after.0, after.1;
        count := count + 1;
      }
    }

    /** First fit: allocate at the lowest unit where the request can be met; nothing
        only if it can be met nowhere. */
    method AllocFromBlock(units: nat, forRing: bool) returns (mem: Option<nat>, ghost start: nat)
      requires 0 < units
      modifies bits
      ensures mem.None? ==> bits[..] == old(bits[..])
      ensures mem.None? ==> forall s :: 0 <= s < 8 * bits.Length ==> !Fits(bits[..], bufHost, s, units, forRing)
      ensures mem.Some? ==> mem.value == bufHost + start * MEM_UNIT
      ensures mem.Some? ==> FirstFit(old(bits[..]), bits[..], bufHost, start, units, forRing)
    {
      var found, startByte, startBit := FindUnits(units, forRing);
      start := startByte * 8 + startBit;
      if !found {
        return None, start;
      }
      MarkUsed(startByte, startBit, units);
      mem := Some(bufHost + (startByte * 8 + startBit) * MEM_UNIT);
    }

    /** Clear the bits of an allocated run. */
    method ClearUnits(start: nat, units: nat)
      requires start + units <= 8 * bits.Length
      requires forall u :: start <= u < start + units ==> Used(bits[..], u)
      modifies bits
      ensures ClearedRun(old(bits[..]), bits[..], start, units)
    {
      var byte, bit := start / 8, start % 8;
      var count := 0;
      while count < units
        invariant 0 <= count <= units && 0 <= bit < 8 && byte * 8 + bit == start + count
        invariant ClearedRun(old(bits[..]), bits[..], start, count)
      {
        ghost var before := bits[..];
        assert Used(before, start + count);
        bits[byte] := bits[byte] ^ Mask(bit);
        assert bits[..] == before[byte := before[byte] ^ Mask(bit)];
        OneCleared(old(bits[..]), before, start, count, byte, bit);
        var after := NextBit(byte, bit);
        byte, bit := after.0, after.1;
        count := count + 1;
      }
    }

    method IsEmpty() returns (empty: bool)
      ensures empty <==> forall u :: 0 <= u < 8 * bits.Length ==> !Used(bits[..], u)
    {
      var index := 0;
      while index < bits.Length
        invariant 0 <= index <= bits.Length
        invariant forall u :: 0 <= u < 8 * index ==> !Used(bits[..], u)
      {
        AllClear(bits[index]);
        if bits[index] != 0 {
          ghost var bit: nat :| bit < 8 && BitIsSet(bits[index], bit);
          assert Used(bits[..], index * 8 + bit);
          return false;
        }
        forall u | 8 * index <= u < 8 * (index + 1) ensures !Used(bits[..], u) {
          assert !BitIsSet(bits[index], u % 8);
        }
        index := index + 1;
      }
      return true;
    }
  }

  /** NEXT_BIT. */
  function NextBit(byte: nat, bit: nat): (r: (nat, nat))
    requires bit < 8
    ensures r.1 < 8 && r.0 * 8 + r.1 == byte * 8 + bit + 1
  {
    if bit + 1 > 7 then (byte + 1, 0) else (byte, bit + 1)
  }

  /** From `before` to `after` the run at `s` was allocated, and no lower start
      would have done. */
  ghost predicate FirstFit(before: seq<Byte>, after: seq<Byte>, host: nat, s: nat, units: nat, forRing: bool)
    requires 0 < units
  {
    && |after| == |before|
    && Fits(before, host, s, units, forRing)
    && (forall t :: 0 <= t < s ==> !Fits(before, host, t, units, forRing))
    && (forall u :: 0 <= u < 8 * |before| ==> Used(after, u) == (Used(before, u) || s <= u < s + units))
  }

  // ---- The pool as a value -------------------------------------------------------

  datatype BlockView = BlockView(host: nat, pci: nat, bits: seq<Byte>) {
    function Len(): nat {
      |bits| * 8 * MEM_UNIT
    }

    predicate Empty() {
      forall u :: 0 <= u < 8 * |bits| ==> !Used(bits, u)
    }
  }

  datatype Allocation = Allocation(addr: nat, units: nat) {
    function End(): nat {
      addr + units * MEM_UNIT
    }
  }

  /** USBHC_MEM_ROUND (size) / USBHC_MEM_UNIT. */
  function UnitsOf(size: nat): nat {
    (size + MEM_UNIT - 1) / MEM_UNIT
  }

  /** The fewest 64-byte units that hold the request. */
  lemma UnitsCover(size: nat)
    ensures size <= 64 * UnitsOf(size) < size + 64
  {
  }

  predicate Disjoint(a: nat, aLen: nat, b: nat, bLen: nat) {
    a + aLen <= b || b + bLen <= a
  }

  /** Blocks are page aligned, not empty of units, and share neither host nor bus
      addresses. */
  ghost predicate Shape(views: seq<BlockView>) {
    && (forall i :: 0 <= i < |views| ==> views[i].host % PAGE == 0 && |views[i].bits| > 0)
    && (forall i, j :: 0 <= i < j < |views| ==>
          && Disjoint(views[i].host, views[i].Len(), views[j].host, views[j].Len())
          && Disjoint(views[i].pci, views[i].Len(), views[j].pci, views[j].Len()))
  }

  ghost predicate Inside(v: BlockView, a: Allocation) {
    0 < a.units && v.host <= a.addr && (a.addr - v.host) % MEM_UNIT == 0 && a.End() <= v.host + v.Len()
  }

  /** The unit at `addr` belongs to a live allocation. */
  ghost predicate Taken(live: set<Allocation>, addr: nat) {
    exists a :: a in live && a.addr <= addr < a.End()
  }

  ghost predicate Placed(views: seq<BlockView>, live: set<Allocation>) {
    forall a :: a in live ==> exists i :: 0 <= i < |views| && Inside(views[i], a)
  }

  ghost predicate Apart(live: set<Allocation>) {
    forall a, b :: a in live && b in live && a != b ==> a.End() <= b.addr || b.End() <= a.addr
  }

  ghost predicate BitsTell(views: seq<BlockView>, live: set<Allocation>) {
    forall i, u :: 0 <= i < |views| && 0 <= u < 8 * |views[i].bits| ==>
      Used(views[i].bits, u) == Taken(live, views[i].host + u * MEM_UNIT)
  }

  /** Conservation: live allocations lie in blocks and are pairwise disjoint, and a
      bit is set exactly if its unit belongs to one. */
  ghost predicate Conserved(views: seq<BlockView>, live: set<Allocation>) {
    Shape(views) && Placed(views, live) && Apart(live) && BitsTell(views, live)
  }

  /** The views after block k's bits become `bits`. */
  function WithBits(views: seq<BlockView>, k: nat, bits: seq<Byte>): seq<BlockView>
    requires k < |views|
  {
    views[k := views[k].(bits := bits)]
  }

  /** Two allocations in disjoint blocks are disjoint. */
  lemma OtherBlock(views: seq<BlockView>, i: nat, j: nat, a: Allocation, b: Allocation)
    requires Shape(views) && i < |views| && j < |views| && i != j
    requires Inside(views[i], a) && Inside(views[j], b)
    ensures a.End() <= b.addr || b.End() <= a.addr
  {
  }

  lemma NotCovered(views: seq<BlockView>, live: set<Allocation>, k: nat, u: nat, b: Allocation)
    requires Conserved(views, live) && k < |views| && u < 8 * |views[k].bits|
    requires !Used(views[k].bits, u) && b in live
    ensures !(b.addr <= views[k].host + u * MEM_UNIT < b.End())
  {
  }

  /** A free run taken from block k touches no live allocation. */
  lemma FreeRunIsApart(views: seq<BlockView>, live: set<Allocation>, k: nat, s: nat, units: nat, b: Allocation)
    requires Conserved(views, live) && k < |views| && 0 < units && s + units <= 8 * |views[k].bits|
    requires Free(views[k].bits, s, units) && b in live
    ensures var a := Allocation(views[k].host + s * MEM_UNIT, units);
      Inside(views[k], a) && (a.End() <= b.addr || b.End() <= a.addr)
  {
    hide Conserved, Shape, Used;
    var a := Allocation(views[k].host + s * MEM_UNIT, units);
    assert Inside(views[k], a);
    var j := HomeOf(views, live, b);
    if j != k {
      OtherBlock(views, k, j, a, b);
    } else {
      var t := (b.addr - views[k].host) / MEM_UNIT;
      if s <= t {
        if t < s + units {
          NotCovered(views, live, k, t, b);
        }
      } else {
        NotCovered(views, live, k, s, b);
      }
    }
  }

  lemma HomeOf(views: seq<BlockView>, live: set<Allocation>, a: Allocation) returns (k: nat)
    requires Conserved(views, live) && a in live
    ensures k < |views| && Inside(views[k], a) && Shape(views)
  {
    k :| 0 <= k < |views| && Inside(views[k], a);
  }

  /** Unit u of block i is in allocation a of block k exactly if it is one of a's
      units there. */
  lemma UnitInAllocation(views: seq<BlockView>, k: nat, a: Allocation, i: nat, u: nat)
    requires Shape(views) && k < |views| && i < |views| && Inside(views[k], a) && u < 8 * |views[i].bits|
    ensures var s := (a.addr - views[k].host) / MEM_UNIT;
      a.addr <= views[i].host + u * MEM_UNIT < a.End() <==> i == k && s <= u < s + a.units
  {
  }

  /** Shape does not depend on which bits are set. */
  lemma ShapeKept(views: seq<BlockView>, k: nat, bits: seq<Byte>)
    requires Shape(views) && k < |views| && |bits| == |views[k].bits|
    ensures Shape(WithBits(views, k, bits))
    ensures forall a, i :: 0 <= i < |views| ==> Inside(WithBits(views, k, bits)[i], a) == Inside(views[i], a)
  {
  }

  lemma StillPlaced(views: seq<BlockView>, live: set<Allocation>, k: nat, bits: seq<Byte>)
    requires Shape(views) && Placed(views, live) && k < |views| && |bits| == |views[k].bits|
    ensures Shape(WithBits(views, k, bits)) && Placed(WithBits(views, k, bits), live)
  {
    ShapeKept(views, k, bits);
    forall b | b in live ensures exists i :: 0 <= i < |views| && Inside(WithBits(views, k, bits)[i], b) {
      var j :| 0 <= j < |views| && Inside(views[j], b);
      assert Inside(WithBits(views, k, bits)[j], b);
    }
  }

  /** Allocating a free run keeps the pool conserved. */
  lemma AllocConserves(views: seq<BlockView>, live: set<Allocation>, k: nat, s: nat, units: nat, bits: seq<Byte>)
    requires Conserved(views, live) && k < |views| && 0 < units && s + units <= 8 * |views[k].bits|
    requires Free(views[k].bits, s, units) && |bits| == |views[k].bits|
    requires forall u :: 0 <= u < 8 * |bits| ==> Used(bits, u) == (Used(views[k].bits, u) || s <= u < s + units)
    ensures Conserved(WithBits(views, k, bits), live + {Allocation(views[k].host + s * MEM_UNIT, units)})
  {
    var a := Allocation(views[k].host + s * MEM_UNIT, units);
    var after, more := WithBits(views, k, bits), live + {a};
    StillPlaced(views, live, k, bits);
    assert Inside(views[k], a) && Inside(after[k], a);
    assert Placed(after, more);
    forall b | b in live ensures a.End() <= b.addr || b.End() <= a.addr {
      FreeRunIsApart(views, live, k, s, units, b);
    }
    assert Apart(more);
    AllocBits(views, live, k, s, units, bits);
  }

  lemma AllocBits(views: seq<BlockView>, live: set<Allocation>, k: nat, s: nat, units: nat, bits: seq<Byte>)
    requires Shape(views) && BitsTell(views, live) && k < |views| && 0 < units && s + units <= 8 * |views[k].bits|
    requires |bits| == |views[k].bits|
    requires forall u :: 0 <= u < 8 * |bits| ==> Used(bits, u) == (Used(views[k].bits, u) || s <= u < s + units)
    ensures BitsTell(WithBits(views, k, bits), live + {Allocation(views[k].host + s * MEM_UNIT, units)})
  {
    hide Used, Shape;
    var a := Allocation(views[k].host + s * MEM_UNIT, units);
    var after, more := WithBits(views, k, bits), live + {a};
    forall i, u | 0 <= i < |after| && 0 <= u < 8 * |after[i].bits|
      ensures Used(after[i].bits, u) == Taken(more, after[i].host + u * MEM_UNIT)
    {
      UnitInAllocation(views, k, a, i, u);
      TakenMore(live, a, views[i].host + u * MEM_UNIT);
    }
  }

  /** Freeing a live allocation keeps the pool conserved. */
  lemma FreeConserves(views: seq<BlockView>, live: set<Allocation>, k: nat, a: Allocation, bits: seq<Byte>)
    requires Conserved(views, live) && k < |views| && a in live && Inside(views[k], a)
    requires |bits| == |views[k].bits|
    requires var s := (a.addr - views[k].host) / MEM_UNIT; forall u :: 0 <= u < 8 * |bits| ==>
      Used(bits, u) == (Used(views[k].bits, u) && !(s <= u < s + a.units))
    ensures Conserved(WithBits(views, k, bits), live - {a})
  {
    StillPlaced(views, live, k, bits);
    FreeBits(views, live, k, a, bits);
  }

  lemma FreeBits(views: seq<BlockView>, live: set<Allocation>, k: nat, a: Allocation, bits: seq<Byte>)
    requires Shape(views) && Apart(live) && BitsTell(views, live) && k < |views| && a in live && Inside(views[k], a)
    requires |bits| == |views[k].bits|
    requires var s := (a.addr - views[k].host) / MEM_UNIT; forall u :: 0 <= u < 8 * |bits| ==>
      Used(bits, u) == (Used(views[k].bits, u) && !(s <= u < s + a.units))
    ensures BitsTell(WithBits(views, k, bits), live - {a})
  {
    hide Used, Shape;
    var after, fewer := WithBits(views, k, bits), live - {a};
    forall i, u | 0 <= i < |after| && 0 <= u < 8 * |after[i].bits|
      ensures Used(after[i].bits, u) == Taken(fewer, after[i].host + u * MEM_UNIT)
    {
      UnitInAllocation(views, k, a, i, u);
      TakenLess(live, a, views[i].host + u * MEM_UNIT);
    }
  }

  lemma TakenLess(live: set<Allocation>, a: Allocation, addr: nat)
    requires Apart(live) && a in live
    ensures Taken(live - {a}, addr) == (Taken(live, addr) && !(a.addr <= addr < a.End()))
  {
  }

  /** The bits of an allocation are all set, so freeing it never flips a clear
      bit. */
  lemma LiveIsUsed(views: seq<BlockView>, live: set<Allocation>, k: nat, a: Allocation)
    requires Conserved(views, live) && k < |views| && a in live && Inside(views[k], a)
    ensures var s := (a.addr - views[k].host) / MEM_UNIT;
      s + a.units <= 8 * |views[k].bits| && forall u :: s <= u < s + a.units ==> Used(views[k].bits, u)
  {
  }

  /** The list with a block inserted behind the head. */
  function Inserted(views: seq<BlockView>, v: BlockView): seq<BlockView>
    requires |views| > 0
  {
    [views[0], v] + views[1..]
  }

  /** The list without block k. */
  function Removed(views: seq<BlockView>, k: nat): seq<BlockView>
    requires k < |views|
  {
    views[..k] + views[k + 1..]
  }

  ghost predicate NewBlock(views: seq<BlockView>, v: BlockView) {
    && v.host % PAGE == 0 && |v.bits| > 0 && v.Empty()
    && forall i :: 0 <= i < |views| ==>
         && Disjoint(views[i].host, views[i].Len(), v.host, v.Len())
         && Disjoint(views[i].pci, views[i].Len(), v.pci, v.Len())
  }

  /** An empty block may join the pool. */
  lemma InsertConserves(views: seq<BlockView>, live: set<Allocation>, v: BlockView)
    requires Conserved(views, live) && |views| > 0 && NewBlock(views, v)
    ensures Conserved(Inserted(views, v), live)
  {
    hide Used;
    var after := Inserted(views, v);
    forall b | b in live ensures exists i :: 0 <= i < |after| && Inside(after[i], b) {
      var j := HomeOf(views, live, b);
      assert after[if j == 0 then 0 else j + 1] == views[j];
    }
    forall i, u | 0 <= i < |after| && 0 <= u < 8 * |after[i].bits|
      ensures Used(after[i].bits, u) == Taken(live, after[i].host + u * MEM_UNIT)
    {
      if i == 1 {
        NothingTakenOutside(views, live, v, u);
      }
    }
  }

  lemma NothingTakenOutside(views: seq<BlockView>, live: set<Allocation>, v: BlockView, u: nat)
    requires Placed(views, live) && NewBlock(views, v) && u < 8 * |v.bits|
    ensures !Taken(live, v.host + u * MEM_UNIT)
  {
  }

  lemma HomeIsNotEmpty(views: seq<BlockView>, live: set<Allocation>, k: nat, a: Allocation)
    requires Conserved(views, live) && k < |views| && a in live && Inside(views[k], a)
    ensures !views[k].Empty()
  {
    LiveIsUsed(views, live, k, a);
    assert Used(views[k].bits, (a.addr - views[k].host) / MEM_UNIT);
  }

  /** An empty block may leave the pool. */
  lemma RemoveConserves(views: seq<BlockView>, live: set<Allocation>, k: nat)
    requires Conserved(views, live) && k < |views| && views[k].Empty()
    ensures Conserved(Removed(views, k), live)
  {
    hide Used;
    var after := Removed(views, k);
    forall b | b in live ensures exists i :: 0 <= i < |after| && Inside(after[i], b) {
      var j := HomeOf(views, live, b);
      if Inside(views[k], b) {
        HomeIsNotEmpty(views, live, k, b);
      }
      assert after[if j < k then j else j - 1] == views[j];
    }
  }

  lemma TakenMore(live: set<Allocation>, a: Allocation, addr: nat)
    ensures Taken(live + {a}, addr) == (Taken(live, addr) || a.addr <= addr < a.End())
  {
  }

  // ---- The pool ----------------------------------------------------------------

  ghost predicate NoFit(v: BlockView, units: nat, forRing: bool)
    requires 0 < units
  {
    forall s :: 0 <= s < 8 * |v.bits| ==> !Fits(v.bits, v.host, s, units, forRing)
  }

  /** The request was met by first fit at unit s of block k. */
  ghost predicate MetIn(before: seq<BlockView>, after: seq<BlockView>, k: nat, s: nat, units: nat, forRing: bool)
    requires 0 < units
  {
    && k < |before| && |after| == |before| && after == WithBits(before, k, after[k].bits)
    && FirstFit(before[k].bits, after[k].bits, before[k].host, s, units, forRing)
  }

  /** ... and no earlier block of the list could meet it. */
  ghost predicate AllocatedIn(before: seq<BlockView>, after: seq<BlockView>, k: nat, s: nat, units: nat, forRing: bool)
    requires 0 < units
  {
    k <= |before| && MetIn(before, after, k, s, units, forRing) && NoFitAnywhere(before[..k], units, forRing)
  }

  ghost predicate NoFitAnywhere(views: seq<BlockView>, units: nat, forRing: bool)
    requires 0 < units
  {
    forall j :: 0 <= j < |views| ==> NoFit(views[j], units, forRing)
  }

  /** The allocation's bits are cleared in block k, which is released if that
      leaves it empty and it is not the head. */
  ghost predicate FreedIn(before: seq<BlockView>, after: seq<BlockView>, k: nat, a: Allocation, bits: seq<Byte>) {
    && k < |before| && Inside(before[k], a)
    && ClearedRun(before[k].bits, bits, (a.addr - before[k].host) / MEM_UNIT, a.units)
    && var cleared := WithBits(before, k, bits);
       after == if 0 < k && cleared[k].Empty() then Removed(cleared, k) else cleared
  }

  class MemPool {
    const head: MemBlock
    ghost var blocks: seq<MemBlock>
    ghost var live: set<Allocation>
    ghost var leaked: set<MemBlock>

    static ghost function ViewsOf(bs: seq<MemBlock>): (views: seq<BlockView>)
      reads set b | b in bs :: b.bits
      ensures |views| == |bs| && forall i :: 0 <= i < |bs| ==> views[i] == bs[i].View()
    {
      if |bs| == 0 then [] else ViewsOf(bs[..|bs| - 1]) + [bs[|bs| - 1].View()]
    }

    ghost function Arrays(): set<array<Byte>>
      reads this`blocks
    {
      set b | b in blocks :: b.bits
    }

    ghost function Views(): seq<BlockView>
      reads this`blocks, Arrays()
    {
      ViewsOf(blocks)
    }

    static ghost predicate InUse(bs: seq<MemBlock>, views: seq<BlockView>, idle: set<MemBlock>) {
      |views| == |bs| && forall k :: 1 <= k < |bs| ==> (views[k].Empty() <==> bs[k] in idle)
    }

    static ghost function Successor(bs: seq<MemBlock>, i: nat): MemBlock? {
      if i + 1 < |bs| then bs[i + 1] else null
    }

    /** The list runs through `blocks` and ends. */
    ghost predicate Linked()
      reads this`blocks, blocks`next
    {
      && |blocks| > 0 && blocks[0] == head
      && (forall i, j :: 0 <= i < j < |blocks| ==> blocks[i] != blocks[j] && blocks[i].bits != blocks[j].bits)
      && (forall i :: 0 <= i < |blocks| ==> blocks[i].next == Successor(blocks, i))
    }

    /** Every block but the head is in use, apart from exactly those that a failed ring
        request left behind and nothing was allocated in since. */
    ghost predicate Valid()
      reads this, blocks`next, Arrays()
    {
      Linked() && Conserved(Views(), live) && InUse(blocks, Views(), leaked)
    }

    /** UsbHcInitMemPool, once its first block has been allocated. */
    constructor (first: MemBlock)
      requires first.next == null && first.bits.Length > 0 && first.bufHost % PAGE == 0
      requires first.View().Empty()
      ensures Valid() && blocks == [first] && live == {} && leaked == {}
    {
      head := first;
      blocks, live, leaked := [first], {}, {};
    }

    /** Try one block of the list. */
    method AllocateFrom(block: MemBlock, units: nat, forRing: bool, ghost k: nat)
      returns (mem: Option<nat>, ghost start: nat)
      requires Valid() && 0 < units && k < |blocks| && block == blocks[k]
      modifies this`live, this`leaked, block.bits
      ensures Valid() && Tried(old(Views()), Views(), old(live), live, k, mem, start, units, forRing)
      ensures leaked == if mem.Some? then old(leaked) - {block} else old(leaked)
    {
      hide Conserved, Fits, NoFit, Used, InUse, FirstFit, Tried, ViewsOf, Successor;
      ghost var views := Views();
      mem, start := block.AllocFromBlock(units, forRing);
      ghost var bits := block.bits[..];
      assert Views() == WithBits(views, k, bits);
      NoFitMeans(views[k], units, forRing);
      TriedHere(blocks, leaked, views, live, k, mem, start, units, forRing, bits);
      if mem.Some? {
        live := live + {Allocation(mem.value, units)};
        leaked := leaked - {block};
      }
    }

    /** Try the blocks in list order: met at unit `start` of block k, or nowhere. */
    method AllocateFromBlocks(units: nat, forRing: bool) returns (mem: Option<nat>, ghost k: nat, ghost start: nat)
      requires Valid() && 0 < units
      modifies this`live, this`leaked, Arrays()
      ensures Valid()
      ensures mem.None? ==> Views() == old(Views()) && live == old(live) && NoFitAnywhere(Views(), units, forRing)
      ensures if mem.Some? then k < |blocks| && leaked == old(leaked) - {blocks[k]} else leaked == old(leaked)
      ensures mem.Some? ==> live == old(live) + {Allocation(mem.value, units)}
      ensures mem.Some? ==> k < |blocks| && mem.value == blocks[k].bufHost + start * MEM_UNIT
      ensures mem.Some? ==> AllocatedIn(old(Views()), Views(), k, start, units, forRing)
      ensures mem.Some? ==> !NoFitAnywhere(old(Views()), units, forRing)
    {
      hide Valid, NoFit, Tried, MetIn, ViewsOf, AllocatedIn, NoFitAnywhere;
      ghost var views := Views();
      LinkAt(0);
      NoneTried(views, units, forRing);
      var block: MemBlock? := head;
      k, start, mem := 0, 0, None;
      while block != null
        invariant 0 <= k <= |blocks| && block == (if k < |blocks| then blocks[k] else null)
        invariant Valid() && Views() == views && live == old(live) && leaked == old(leaked) && mem.None?
        invariant NoFitAnywhere(views[..k], units, forRing)
        decreases |blocks| - k
      {
        mem, start := AllocateFrom(block, units, forRing, k);
        NextTried(views, Views(), old(live), live, k, mem, start, units, forRing);
        if mem.Some? {
          return;
        }
        LinkAt(k);
        block := block.next;
        k := k + 1;
      }
      assert views[..k] == views;
    }

    lemma LinkAt(k: nat)
      requires Valid() && k <= |blocks|
      ensures |blocks| > 0 && blocks[0] == head && (k < |blocks| ==> blocks[k].next == Successor(blocks, k))
    {
    }

    /** UsbHcInsertMemBlockToPool: behind the head. */
    method LinkBehindHead(block: MemBlock)
      requires Linked() && forall b :: b in blocks ==> b != block && b.bits != block.bits
      modifies this`blocks, head`next, block`next
      ensures Linked() && blocks == [head, block] + old(blocks)[1..]
    {
      ghost var was := blocks;
      assert head in was && was[0].next == Successor(was, 0);
      block.next := head.next;
      head.next := block;
      blocks := [head, block] + blocks[1..];
      forall i | 0 <= i < |blocks| ensures blocks[i].next == Successor(blocks, i) {
        if i >= 2 {
          assert was[i - 1] != was[0] && was[i - 1] in was && was[i - 1].next == Successor(was, i - 1);
        }
      }
      forall i, j | 0 <= i < j < |blocks|
        ensures blocks[i] != blocks[j] && blocks[i].bits != blocks[j].bits
      {
        assert blocks[j] == if j == 1 then block else was[j - 1];
        assert blocks[i] == if i == 0 then was[0] else if i == 1 then block else was[i - 1];
      }
    }

    method InsertMemBlock(block: MemBlock)
      requires Valid() && NewBlock(Views(), block.View())
      requires forall b :: b in blocks ==> b != block && b.bits != block.bits
      modifies this`blocks, this`leaked, head`next, block`next
      ensures Valid() && blocks == [head, block] + old(blocks)[1..]
      ensures Views() == Inserted(old(Views()), old(block.View()))
      ensures leaked == old(leaked) + {block}
    {
      hide Conserved, NewBlock, Used, InUse, Successor, ViewsOf;
      ghost var views, was := Views(), blocks;
      NewBlockAligned(views, block.View());
      LinkBehindHead(block);
      assert Views() == Inserted(views, block.View());
      InsertConserves(views, live, block.View());
      InsertInUse(was, views, leaked, block, block.View());
      leaked := leaked + {block};
    }

    /** Give the pool a new, empty block. */
    method AddBlock(units: nat, offered: Pages) returns (block: MemBlock)
      requires Valid() && NewBlock(Views(), FreshView(offered, units))
      modifies this`blocks, this`leaked, head`next
      ensures Valid() && |blocks| > 1 && block == blocks[1] && fresh(block) && fresh(block.bits)
      ensures blocks[0] == head && blocks[2..] == old(blocks)[1..] && block !in old(leaked)
      ensures Views() == Inserted(old(Views()), FreshView(offered, units)) && leaked == old(leaked) + {block}
      ensures block.bufHost == offered.host
    {
      hide Conserved, NewBlock, FreshView, InUse, Successor, ViewsOf;
      block := new MemBlock(PagesFor(units), offered.host, offered.pci);
      ViewIsFresh(block, offered, units);
      InsertMemBlock(block);
    }

    /** Allocate from an empty block that has just joined the pool. */
    method AllocateFromNew(block: MemBlock, units: nat, forRing: bool) returns (mem: Option<nat>, ghost start: nat)
      requires Valid() && 0 < units && |blocks| > 1 && block == blocks[1]
      modifies this`live, this`leaked, block.bits
      ensures Valid()
      ensures mem.None? <==> NoFit(old(Views())[1], units, forRing)
      ensures mem.Some? ==> mem.value == block.bufHost + start * MEM_UNIT
      ensures mem.Some? ==> MetIn(old(Views()), Views(), 1, start, units, forRing)
      ensures mem.None? ==> Views() == old(Views())
      ensures live == if mem.Some? then old(live) + {Allocation(mem.value, units)} else old(live)
      ensures leaked == if mem.Some? then old(leaked) - {block} else old(leaked)
    {
      hide Conserved, MetIn, NoFit, Tried, InUse, ViewsOf, Successor;
      ghost var views := Views();
      mem, start := AllocateFrom(block, units, forRing, 1);
      TriedMeans(views, Views(), old(live), live, 1, mem, start, units, forRing);
    }

    /** Give the pool a new block and allocate from it. If a ring does not fit, the
        empty block stays. */
    method Grow(units: nat, forRing: bool, offered: Pages) returns (mem: Option<nat>, ghost start: nat)
      requires Valid() && 0 < units && NewBlock(Views(), FreshView(offered, units))
      modifies this`blocks, this`live, this`leaked, head`next
      ensures Valid() && |blocks| > 1
      ensures mem.Some? <==> !forRing || units <= RingRoom(offered.host)
      ensures mem.Some? ==> mem.value == blocks[1].bufHost + start * MEM_UNIT
      ensures mem.Some? ==> MetIn(Inserted(old(Views()), FreshView(offered, units)), Views(), 1, start, units, forRing)
      ensures mem.None? ==> Views() == Inserted(old(Views()), FreshView(offered, units))
      ensures live == if mem.Some? then old(live) + {Allocation(mem.value, units)} else old(live)
      ensures leaked == if mem.Some? then old(leaked) - {blocks[1]} else old(leaked) + {blocks[1]}
    {
      assert |blocks| > 0;
      hide Conserved, NewBlock, MetIn, NoFit, RingRoom, FreshView, InUse, ViewsOf, Successor, Linked;
      NewBlockAligned(Views(), FreshView(offered, units));
      FreshFits(offered, units, forRing);
      var block := AddBlock(units, offered);
      mem, start := AllocateFromNew(block, units, forRing);
    }

    /** Allocate. `offered` is what the page allocator gives if it is asked: pages
        that overlap nothing in the pool, or nothing. The request is met at unit
        `start` of block k. */
    method AllocateMem(size: nat, forRing: bool, offered: Option<Pages>)
      returns (mem: Option<nat>, ghost k: nat, ghost start: nat)
      requires Valid() && 0 < size
      requires offered.Some? ==> NewBlock(Views(), FreshView(offered.value, UnitsOf(size)))
      modifies this`blocks, this`live, this`leaked, head`next, Arrays()
      ensures Valid()
      ensures mem.None? ==> live == old(live)
      ensures mem.Some? ==> live == old(live) + {Allocation(mem.value, UnitsOf(size))}
      ensures mem.Some? ==> k < |blocks| && leaked == old(leaked) - {blocks[k]}
      ensures mem.Some? ==> mem.value == blocks[k].bufHost + start * MEM_UNIT
      ensures !NoFitAnywhere(old(Views()), UnitsOf(size), forRing) ==>
        mem.Some? && AllocatedIn(old(Views()), Views(), k, start, UnitsOf(size), forRing)
      ensures NoFitAnywhere(old(Views()), UnitsOf(size), forRing) && offered.None? ==>
        mem.None? && Views() == old(Views()) && leaked == old(leaked)
      ensures NoFitAnywhere(old(Views()), UnitsOf(size), forRing) && offered.Some? ==>
        var grown := Inserted(old(Views()), FreshView(offered.value, UnitsOf(size)));
        && (mem.Some? <==> !forRing || UnitsOf(size) <= RingRoom(offered.value.host))
        && (mem.Some? ==> AllocatedIn(grown, Views(), 1, start, UnitsOf(size), forRing) && k == 1)
        && (mem.None? ==> Views() == grown && |blocks| > 1 && leaked == old(leaked) + {blocks[1]})
    {
      LinkAt(0);
      hide Valid, NewBlock, AllocatedIn, MetIn, RingRoom, FreshView, NoFitAnywhere, ViewsOf, Inserted, Successor;
      var units := UnitsOf(size);
      mem, k, start := AllocateFromBlocks(units, forRing);
      if mem.None? && offered.Some? {
        ghost var views := Views();
        mem, start := Grow(units, forRing, offered.value);
        k := 1;
        if mem.Some? {
          GrownIsAllocated(views, FreshView(offered.value, units), Views(), start, units, forRing);
        }
      }
    }

    /** Find the block that holds all of a stretch of host memory. */
    method FindHost(mem: nat, length: nat) returns (block: MemBlock?, ghost k: nat)
      requires Linked()
      ensures k <= |blocks| && block == (if k < |blocks| then blocks[k] else null)
      ensures forall j :: 0 <= j < k ==> !Holds(blocks[j].bufHost, blocks[j].BufLen(), mem, length)
      ensures block != null ==> Holds(block.bufHost, block.BufLen(), mem, length)
    {
      block := head;
      k := 0;
      while block != null
        invariant 0 <= k <= |blocks| && block == (if k < |blocks| then blocks[k] else null)
        invariant forall j :: 0 <= j < k ==> !Holds(blocks[j].bufHost, blocks[j].BufLen(), mem, length)
        decreases |blocks| - k
      {
        if Holds(block.bufHost, block.BufLen(), mem, length) {
          return;
        }
        assert block.next == Successor(blocks, k);
        block := block.next;
        k := k + 1;
      }
    }

    /** The block before block k of the list. */
    method FindPrevious(block: MemBlock, ghost k: nat) returns (prev: MemBlock)
      requires Linked() && 0 < k < |blocks| && block == blocks[k]
      ensures prev == blocks[k - 1]
    {
      prev := head;
      ghost var p := 0;
      while prev.next != block
        invariant 0 <= p < k && prev == blocks[p] && prev.next == Successor(blocks, p)
        decreases k - p
      {
        prev := prev.next;
        p := p + 1;
        assert prev.next == Successor(blocks, p);
      }
    }

    /** UsbHcUnlinkMemBlock: take block k out of the list. */
    method UnlinkMemBlock(block: MemBlock, ghost k: nat)
      requires Linked() && 0 < k < |blocks| && block == blocks[k]
      modifies this`blocks, blocks`next
      ensures Linked() && blocks == old(blocks)[..k] + old(blocks)[k + 1..] && block.next == null
    {
      ghost var was := blocks;
      var prev := FindPrevious(block, k);
      hide Successor;
      RemovedApart(was, k);
      prev.next := block.next;
      block.next := null;
      blocks := was[..k] + was[k + 1..];
      forall i | 0 <= i < |blocks| ensures blocks[i].next == Successor(blocks, i) {
        SuccessorRemoved(was, k, i);
        var j := if i < k then i else i + 1;
        assert was[j] != was[k];
      }
    }

    static lemma RemovedApart(bs: seq<MemBlock>, k: nat)
      requires 0 < k < |bs|
      requires forall i, j :: 0 <= i < j < |bs| ==> bs[i] != bs[j] && bs[i].bits != bs[j].bits
      ensures var rest := bs[..k] + bs[k + 1..];
        forall i, j :: 0 <= i < j < |rest| ==> rest[i] != rest[j] && rest[i].bits != rest[j].bits
    {
    }

    static lemma SuccessorRemoved(bs: seq<MemBlock>, k: nat, i: nat)
      requires 0 < k < |bs| && i < |bs| - 1
      ensures var rest, j := bs[..k] + bs[k + 1..], if i < k then i else i + 1;
        && rest[i] == bs[j] && Successor(rest, i) == if j == k - 1 then Successor(bs, k) else Successor(bs, j)
    {
    }

    /** Clear the bits of a live allocation. */
    method ClearBlock(block: MemBlock, mem: nat, units: nat, ghost k: nat) returns (ghost bits: seq<Byte>)
      requires Valid() && k < |blocks| && block == blocks[k]
      requires Allocation(mem, units) in live && Inside(Views()[k], Allocation(mem, units))
      modifies this`live, block.bits
      ensures Linked() && live == old(live) - {Allocation(mem, units)} && Conserved(Views(), live)
      ensures |bits| == |old(Views())[k].bits| && Views() == WithBits(old(Views()), k, bits)
      ensures ClearedRun(old(Views())[k].bits, bits, (mem - block.bufHost) / MEM_UNIT, units)
    {
      hide Conserved, ViewsOf, Used, Successor, InUse;
      ghost var a, views := Allocation(mem, units), Views();
      LiveIsUsed(views, live, k, a);
      block.ClearUnits((mem - block.bufHost) / MEM_UNIT, units);
      bits := block.bits[..];
      assert Views() == WithBits(views, k, bits);
      FreeConserves(views, live, k, a, bits);
      live := live - {a};
    }

    /** Block k leaves the list exactly when nothing is allocated in it and k > 0. */
    method ReleaseIfEmpty(block: MemBlock, ghost k: nat)
      requires Linked() && Conserved(Views(), live) && k < |blocks| && block == blocks[k]
      requires k > 0 ==> block !in leaked
      requires forall j :: 1 <= j < |blocks| && j != k ==> (Views()[j].Empty() <==> blocks[j] in leaked)
      modifies this`blocks, blocks`next
      ensures Valid()
      ensures Views() == if 0 < k && old(Views())[k].Empty() then Removed(old(Views()), k) else old(Views())
    {
      hide Conserved, ViewsOf, Used, Successor;
      ghost var views, was := Views(), blocks;
      var empty := block.IsEmpty();
      assert views[k] == block.View();
      assert views[k].Empty() == empty;
      if block != head && empty {
        UnlinkMemBlock(block, k);
        assert Views() == Removed(views, k);
        RemoveConserves(views, live, k);
        forall j | 1 <= j < |blocks| ensures Views()[j].Empty() <==> blocks[j] in leaked {
          assert blocks[j] == was[if j < k then j else j + 1];
          assert Views()[j] == views[if j < k then j else j + 1];
        }
      }
    }

    /** Free a live allocation: its bits are cleared in block k, and a block that
        becomes empty is released unless it is the head. */
    method FreeMem(mem: nat, size: nat) returns (ghost k: nat, ghost bits: seq<Byte>)
      requires Valid() && Allocation(mem, UnitsOf(size)) in live
      modifies this`blocks, this`live, blocks`next, Arrays()
      ensures Valid() && live == old(live) - {Allocation(mem, UnitsOf(size))}
      ensures FreedIn(old(Views()), Views(), k, Allocation(mem, UnitsOf(size)), bits)
    {
      hide Conserved, ViewsOf, Used, Successor, ClearedRun, Removed;
      var units := UnitsOf(size);
      ghost var a, views := Allocation(mem, units), Views();
      var block;
      block, k := FindHost(mem, units * MEM_UNIT);
      HomeIsFound(views, live, a, k);
      HomeIsNotEmpty(views, live, k, a);
      bits := ClearBlock(block, mem, units, k);
      ReleaseIfEmpty(block, k);
    }

    // ---- Address translation ---------------------------------------------------

    /** Host address to bus address. */
    method PciAddrForHost(mem: nat, size: nat, alignment: bool) returns (phys: nat)
      requires Valid() && (mem != 0 ==> SomeHost(Views(), mem, TranslatedSize(size, alignment)))
      ensures phys == if mem == 0 then 0 else ToPci(Views(), mem, TranslatedSize(size, alignment))
    {
      hide Conserved, ViewsOf, InUse;
      if mem == 0 {
        return 0;
      }
      ghost var k;
      var block;
      block, k := FindHost(mem, TranslatedSize(size, alignment));
      FirstHostIs(Views(), mem, TranslatedSize(size, alignment), k);
      return block.buf + (mem - block.bufHost);
    }

    /** Bus address to host address. */
    method HostAddrForPci(mem: nat, size: nat, alignment: bool) returns (host: nat)
      requires Valid() && (mem != 0 ==> SomeBus(Views(), mem, TranslatedSize(size, alignment)))
      ensures host == if mem == 0 then 0 else ToHost(Views(), mem, TranslatedSize(size, alignment))
    {
      hide Conserved, ViewsOf, InUse;
      if mem == 0 {
        return 0;
      }
      var length := TranslatedSize(size, alignment);
      var block: MemBlock? := head;
      ghost var k := 0;
      while block != null && !Holds(block.buf, block.BufLen(), mem, length)
        invariant 0 <= k <= |blocks| && block == (if k < |blocks| then blocks[k] else null)
        invariant forall j :: 0 <= j < k ==> !Holds(blocks[j].buf, blocks[j].BufLen(), mem, length)
        decreases |blocks| - k
      {
        assert block.next == Successor(blocks, k);
        block := block.next;
        k := k + 1;
      }
      FirstBusIs(Views(), mem, length, k);
      return block.bufHost + (mem - block.buf);
    }
  }

  function TranslatedSize(size: nat, alignment: bool): nat {
    if alignment then UnitsOf(size) * MEM_UNIT else size
  }

  /** A stretch is translated by whole units if alignment is asked for, and else as it is. */
  lemma TranslatedIs(size: nat)
    ensures TranslatedSize(size, true) % 64 == 0 && size <= TranslatedSize(size, true) < size + 64
    ensures TranslatedSize(size, false) == size
  {
  }

  ghost predicate SomeHost(views: seq<BlockView>, mem: nat, length: nat) {
    exists i :: 0 <= i < |views| && Holds(views[i].host, views[i].Len(), mem, length)
  }

  ghost predicate SomeBus(views: seq<BlockView>, mem: nat, length: nat) {
    exists i :: 0 <= i < |views| && Holds(views[i].pci, views[i].Len(), mem, length)
  }

  /** The bus address that the first block holding the stretch gives it. */
  ghost function ToPci(views: seq<BlockView>, mem: nat, length: nat): nat
    requires SomeHost(views, mem, length)
  {
    if Holds(views[0].host, views[0].Len(), mem, length) then views[0].pci + (mem - views[0].host)
    else
      LaterHost(views, mem, length);
      ToPci(views[1..], mem, length)
  }

  ghost function ToHost(views: seq<BlockView>, mem: nat, length: nat): nat
    requires SomeBus(views, mem, length)
  {
    if Holds(views[0].pci, views[0].Len(), mem, length) then views[0].host + (mem - views[0].pci)
    else
      LaterBus(views, mem, length);
      ToHost(views[1..], mem, length)
  }

  lemma LaterHost(views: seq<BlockView>, mem: nat, length: nat)
    requires SomeHost(views, mem, length) && !Holds(views[0].host, views[0].Len(), mem, length)
    ensures SomeHost(views[1..], mem, length)
  {
  }

  lemma LaterBus(views: seq<BlockView>, mem: nat, length: nat)
    requires SomeBus(views, mem, length) && !Holds(views[0].pci, views[0].Len(), mem, length)
    ensures SomeBus(views[1..], mem, length)
  {
  }

  lemma {:induction false} FirstHostIs(views: seq<BlockView>, mem: nat, length: nat, k: nat)
    requires SomeHost(views, mem, length) && k <= |views|
    requires forall j :: 0 <= j < k ==> !Holds(views[j].host, views[j].Len(), mem, length)
    requires k < |views| ==> Holds(views[k].host, views[k].Len(), mem, length)
    ensures k < |views| && ToPci(views, mem, length) == views[k].pci + (mem - views[k].host)
  {
    if k > 0 {
      LaterHost(views, mem, length);
      FirstHostIs(views[1..], mem, length, k - 1);
    }
  }

  lemma {:induction false} FirstBusIs(views: seq<BlockView>, mem: nat, length: nat, k: nat)
    requires SomeBus(views, mem, length) && k <= |views|
    requires forall j :: 0 <= j < k ==> !Holds(views[j].pci, views[j].Len(), mem, length)
    requires k < |views| ==> Holds(views[k].pci, views[k].Len(), mem, length)
    ensures k < |views| && ToHost(views, mem, length) == views[k].host + (mem - views[k].pci)
  {
    if k > 0 {
      LaterBus(views, mem, length);
      FirstBusIs(views[1..], mem, length, k - 1);
    }
  }

  /** Blocks overlap neither on the host nor on the bus, so translating to the bus
      and back is the identity, and two addresses never meet on the bus. */
  lemma TranslationRoundTrip(views: seq<BlockView>, mem: nat, length: nat)
    requires Shape(views) && 0 < length && SomeHost(views, mem, length)
    ensures SomeBus(views, ToPci(views, mem, length), length)
    ensures ToHost(views, ToPci(views, mem, length), length) == mem
  {
    var k := FirstHolder(views, mem, length);
    FirstHostIs(views, mem, length, k);
    var bus := ToPci(views, mem, length);
    assert Holds(views[k].pci, views[k].Len(), bus, length);
    forall j | 0 <= j < k ensures !Holds(views[j].pci, views[j].Len(), bus, length) {
      assert Disjoint(views[j].pci, views[j].Len(), views[k].pci, views[k].Len());
    }
    FirstBusIs(views, bus, length, k);
  }

  lemma FirstHolder(views: seq<BlockView>, mem: nat, length: nat) returns (k: nat)
    requires SomeHost(views, mem, length)
    ensures k < |views| && Holds(views[k].host, views[k].Len(), mem, length)
    ensures forall j :: 0 <= j < k ==> !Holds(views[j].host, views[j].Len(), mem, length)
  {
    k := 0;
    while k < |views| && !Holds(views[k].host, views[k].Len(), mem, length)
      invariant k <= |views|
      invariant forall j :: 0 <= j < k ==> !Holds(views[j].host, views[j].Len(), mem, length)
    {
      k := k + 1;
    }
  }

  lemma ByteDetermined(a: Byte, b: Byte)
    requires forall bit :: 0 <= bit < 8 ==> BitIsSet(a, bit) == BitIsSet(b, bit)
    ensures a == b
  {
    assert BitIsSet(a, 0) == BitIsSet(b, 0) && BitIsSet(a, 1) == BitIsSet(b, 1) && BitIsSet(a, 2) == BitIsSet(b, 2);
    assert BitIsSet(a, 3) == BitIsSet(b, 3) && BitIsSet(a, 4) == BitIsSet(b, 4) && BitIsSet(a, 5) == BitIsSet(b, 5);
    assert BitIsSet(a, 6) == BitIsSet(b, 6) && BitIsSet(a, 7) == BitIsSet(b, 7);
  }

  lemma BitsDetermined(a: seq<Byte>, b: seq<Byte>)
    requires |a| == |b| && forall u :: 0 <= u < 8 * |a| ==> Used(a, u) == Used(b, u)
    ensures a == b
  {
    forall i | 0 <= i < |a| ensures a[i] == b[i] {
      forall bit | 0 <= bit < 8 ensures BitIsSet(a[i], bit) == BitIsSet(b[i], bit) {
        UnitOfBit(a, i, bit);
        UnitOfBit(b, i, bit);
      }
      ByteDetermined(a[i], b[i]);
    }
  }

  /** Freeing an allocation straight away restores the pool as it was, less the
      block it was made in if that block was idle. */
  lemma AllocFreeRestores(before: seq<BlockView>, mid: seq<BlockView>, after: seq<BlockView>, k: nat, s: nat, units: nat,
                          forRing: bool, home: nat, bits: seq<Byte>)
    requires Shape(before) && 0 < units && MetIn(before, mid, k, s, units, forRing)
    requires FreedIn(mid, after, home, Allocation(before[k].host + s * MEM_UNIT, units), bits)
    ensures after == if 0 < k && before[k].Empty() then Removed(before, k) else before
  {
    hide Used;
    var a := Allocation(before[k].host + s * MEM_UNIT, units);
    ShapeKept(before, k, mid[k].bits);
    OneHolder(mid, k, home, a.addr, units * MEM_UNIT);
    assert (a.addr - mid[k].host) / MEM_UNIT == s;
    BitsDetermined(bits, before[k].bits);
    assert WithBits(mid, k, bits) == before;
  }

  lemma GrownIsAllocated(views: seq<BlockView>, v: BlockView, after: seq<BlockView>, s: nat, units: nat, forRing: bool)
    requires |views| > 0 && 0 < units && NoFitAnywhere(views, units, forRing)
    requires MetIn(Inserted(views, v), after, 1, s, units, forRing)
    ensures AllocatedIn(Inserted(views, v), after, 1, s, units, forRing)
  {
  }

  /** ... also when the pool had to grow for it: the new block goes again. */
  lemma GrowThenFree(views: seq<BlockView>, v: BlockView, mid: seq<BlockView>, after: seq<BlockView>, s: nat, units: nat,
                     forRing: bool, home: nat, bits: seq<Byte>)
    requires Shape(views) && |views| > 0 && NewBlock(views, v) && 0 < units
    requires MetIn(Inserted(views, v), mid, 1, s, units, forRing)
    requires FreedIn(mid, after, home, Allocation(v.host + s * MEM_UNIT, units), bits)
    ensures after == views
  {
  }

  /** The block found for a live allocation is the one it lies in. */
  lemma HomeIsFound(views: seq<BlockView>, live: set<Allocation>, a: Allocation, k: nat)
    requires Conserved(views, live) && a in live && k <= |views|
    requires forall j :: 0 <= j < k ==> !Holds(views[j].host, views[j].Len(), a.addr, a.units * MEM_UNIT)
    requires k < |views| ==> Holds(views[k].host, views[k].Len(), a.addr, a.units * MEM_UNIT)
    ensures k < |views| && Inside(views[k], a)
  {
  }

  lemma OneHolder(views: seq<BlockView>, i: nat, j: nat, mem: nat, length: nat)
    requires Shape(views) && i < |views| && j < |views| && 0 < length
    requires Holds(views[i].host, views[i].Len(), mem, length) && Holds(views[j].host, views[j].Len(), mem, length)
    ensures i == j
  {
  }

  /** [mem, mem + length) lies in [base, base + len). */
  predicate Holds(base: nat, len: nat, mem: nat, length: nat) {
    base <= mem && mem + length <= base + len
  }

  lemma ViewIsFresh(block: MemBlock, p: Pages, units: nat)
    requires block.bufHost == p.host && block.buf == p.pci
    requires block.bits.Length == PagesFor(units) * PAGE / (MEM_UNIT * 8)
    requires forall i :: 0 <= i < block.bits.Length ==> block.bits[i] == 0
    ensures block.View() == FreshView(p, units)
  {
  }

  lemma NewBlockAligned(views: seq<BlockView>, v: BlockView)
    requires NewBlock(views, v)
    ensures v.host % PAGE == 0 && v.Empty()
  {
  }

  lemma InsertInUse(blocks: seq<MemBlock>, views: seq<BlockView>, leaked: set<MemBlock>, block: MemBlock, v: BlockView)
    requires MemPool.InUse(blocks, views, leaked) && |blocks| > 0 && v.Empty() && block !in blocks
    ensures MemPool.InUse([blocks[0], block] + blocks[1..], Inserted(views, v), leaked + {block})
  {
  }

  /** Host and bus address of freshly allocated pages. */
  datatype Pages = Pages(host: nat, pci: nat)

  /** How many pages a new block gets for a request of `units`. */
  function PagesFor(units: nat): (pages: nat)
    ensures pages >= DEFAULT_PAGES && units * MEM_UNIT <= pages * PAGE
  {
    var allocSize := units * MEM_UNIT;
    if allocSize > DEFAULT_PAGES * PAGE then (allocSize + PAGE - 1) / PAGE + 1 else DEFAULT_PAGES
  }

  /** Up to 64 KiB a block gets sixteen pages, and above one page more than the request fills. */
  lemma PagesCover(units: nat)
    ensures var size, pages := 64 * units, PagesFor(units);
      if size <= 0x1_0000 then pages == 16 else size + 4096 <= pages * 4096 < size + 2 * 4096
  {
  }

  function FreshView(p: Pages, units: nat): BlockView {
    BlockView(p.host, p.pci, seq(PagesFor(units) * PAGE / (MEM_UNIT * 8), _ => 0))
  }

  /** The longest ring that sixteen fresh pages at `host` can hold: the larger of
      the parts before and after the 64 KiB boundary they contain. */
  function RingRoom(host: nat): nat {
    var after := host % RINGS_BOUNDARY / MEM_UNIT;
    var before := RINGS_BOUNDARY / MEM_UNIT - after;
    if before < after then after else before
  }

  lemma NothingUsed(bits: seq<Byte>, u: nat)
    requires u < 8 * |bits| && forall i :: 0 <= i < |bits| ==> bits[i] == 0
    ensures !Used(bits, u)
  {
  }

  /** Which starts keep a run inside one window: those that end before the
      boundary and those that start at or after it. */
  lemma WindowOfRun(host: nat, s: nat, units: nat)
    requires host % PAGE == 0 && 0 < units && s + units <= 1024
    ensures var before := 1024 - host % RINGS_BOUNDARY / MEM_UNIT;
      OneWindow(host, s, units) <==> s + units <= before || before <= s
  {
  }

  lemma LongRun(host: nat, s: nat, units: nat)
    requires 1024 < units
    ensures !OneWindow(host, s, units)
  {
  }

  lemma FreshBits(p: Pages, units: nat)
    requires 0 < units
    ensures var v := FreshView(p, units);
      && v.host == p.host && units <= 8 * |v.bits| && (units <= 1024 ==> |v.bits| == 128)
      && forall u :: 0 <= u < 8 * |v.bits| ==> !Used(v.bits, u)
  {
    hide Used;
    var v := FreshView(p, units);
    BytesOf(PagesFor(units));
    forall u | 0 <= u < 8 * |v.bits| ensures !Used(v.bits, u) {
      NothingUsed(v.bits, u);
    }
  }

  lemma BytesOf(pages: nat)
    ensures 8 * (pages * PAGE / (MEM_UNIT * 8)) == pages * 64
  {
  }

  lemma RoomOnASide(host: nat)
    ensures RingRoom(host) <= 1024
  {
  }

  /** A fresh block serves every plain request, and a ring request exactly if the
      ring is no longer than the room on one side of the boundary. */
  lemma FreshFits(p: Pages, units: nat, forRing: bool)
    requires 0 < units && p.host % PAGE == 0
    ensures !NoFit(FreshView(p, units), units, forRing) <==> !forRing || units <= RingRoom(p.host)
  {
    hide OneWindow, Used, FreshView, RingRoom, PagesFor;
    var v := FreshView(p, units);
    FreshBits(p, units);
    RoomOnASide(p.host);
    assert forall s :: 0 <= s && s + units <= 8 * |v.bits| ==> Free(v.bits, s, units);
    if !forRing {
      assert Fits(v.bits, v.host, 0, units, forRing);
    } else if units > 1024 {
      forall s | 0 <= s < 8 * |v.bits| ensures !Fits(v.bits, v.host, s, units, forRing) {
        LongRun(v.host, s, units);
      }
    } else {
      RingInFreshBlock(v, units);
    }
  }

  lemma RingInFreshBlock(v: BlockView, units: nat)
    requires v.host % PAGE == 0 && |v.bits| == 128 && 0 < units <= 1024
    requires forall s :: 0 <= s && s + units <= 1024 ==> Free(v.bits, s, units)
    ensures !NoFit(v, units, true) <==> units <= RingRoom(v.host)
  {
    hide OneWindow, Free;
    var before := 1024 - v.host % RINGS_BOUNDARY / MEM_UNIT;
    forall s | 0 <= s && s + units <= 1024
      ensures Fits(v.bits, v.host, s, units, true) <==> s + units <= before || before <= s
    {
      WindowOfRun(v.host, s, units);
    }
    if units <= before {
      assert Fits(v.bits, v.host, 0, units, true);
    } else if units <= 1024 - before {
      assert Fits(v.bits, v.host, before, units, true);
    }
  }

  /** Rings of up to 32 KiB always fit a fresh block; a larger one need not. */
  lemma SmallRingsFit(host: nat)
    requires host % PAGE == 0
    ensures 0x8000 / MEM_UNIT <= RingRoom(host)
    ensures RingRoom(0x8000) == 0x8000 / MEM_UNIT
  {
  }

  lemma NoFitMeans(v: BlockView, units: nat, forRing: bool)
    requires 0 < units
    ensures NoFit(v, units, forRing) == forall s :: 0 <= s < 8 * |v.bits| ==> !Fits(v.bits, v.host, s, units, forRing)
  {
  }

  /** What trying block k leaves: the request met there by first fit, or nothing
      changed and no fit. */
  ghost predicate Tried(before: seq<BlockView>, after: seq<BlockView>, live: set<Allocation>, live1: set<Allocation>,
                        k: nat, mem: Option<nat>, s: nat, units: nat, forRing: bool)
    requires 0 < units
  {
    k < |before| &&
    match mem
    case None => after == before && live1 == live && NoFit(before[k], units, forRing)
    case Some(at) =>
      && at == before[k].host + s * MEM_UNIT && live1 == live + {Allocation(at, units)}
      && MetIn(before, after, k, s, units, forRing) && !after[k].Empty()
  }

  lemma TriedHere(blocks: seq<MemBlock>, leaked: set<MemBlock>, views: seq<BlockView>, live: set<Allocation>, k: nat,
                  mem: Option<nat>, s: nat, units: nat, forRing: bool, bits: seq<Byte>)
    requires Conserved(views, live) && MemPool.InUse(blocks, views, leaked) && k < |views| && 0 < units
    requires forall j :: 0 <= j < |blocks| && j != k ==> blocks[j] != blocks[k]
    requires mem.None? ==> bits == views[k].bits && NoFit(views[k], units, forRing)
    requires mem.Some? ==> mem.value == views[k].host + s * MEM_UNIT
    requires mem.Some? ==> FirstFit(views[k].bits, bits, views[k].host, s, units, forRing)
    ensures var live1 := if mem.Some? then live + {Allocation(mem.value, units)} else live;
      && Conserved(WithBits(views, k, bits), live1) && MemPool.InUse(blocks, WithBits(views, k, bits), if mem.Some? then leaked - {blocks[k]} else leaked)
      && Tried(views, WithBits(views, k, bits), live, live1, k, mem, s, units, forRing)
  {
    hide Conserved, NoFit;
    if mem.None? {
      assert WithBits(views, k, bits) == views;
    } else {
      AllocConserves(views, live, k, s, units, bits);
      assert Used(bits, s);
    }
  }

  lemma TriedMeans(before: seq<BlockView>, after: seq<BlockView>, live: set<Allocation>, live1: set<Allocation>,
                   k: nat, mem: Option<nat>, s: nat, units: nat, forRing: bool)
    requires 0 < units && Tried(before, after, live, live1, k, mem, s, units, forRing)
    ensures k < |before| && (mem.None? <==> NoFit(before[k], units, forRing))
    ensures mem.None? ==> after == before && live1 == live
    ensures mem.Some? ==> mem.value == before[k].host + s * MEM_UNIT && live1 == live + {Allocation(mem.value, units)}
    ensures mem.Some? ==> MetIn(before, after, k, s, units, forRing) && k < |after| && !after[k].Empty()
  {
  }

  lemma NoneTried(views: seq<BlockView>, units: nat, forRing: bool)
    requires 0 < units
    ensures NoFitAnywhere(views[..0], units, forRing)
  {
  }

  lemma NextTried(before: seq<BlockView>, after: seq<BlockView>, live: set<Allocation>, live1: set<Allocation>,
                  k: nat, mem: Option<nat>, s: nat, units: nat, forRing: bool)
    requires 0 < units && Tried(before, after, live, live1, k, mem, s, units, forRing)
    requires k < |before| && NoFitAnywhere(before[..k], units, forRing)
    ensures mem.None? ==> after == before && live1 == live && NoFitAnywhere(before[..k + 1], units, forRing)
    ensures mem.Some? ==> mem.value == before[k].host + s * MEM_UNIT && live1 == live + {Allocation(mem.value, units)}
    ensures mem.Some? ==> AllocatedIn(before, after, k, s, units, forRing) && !NoFitAnywhere(before, units, forRing)
  {
  }

  // ---- Aligned pages -------------------------------------------------------------

  /** A power of two, or nothing: exactly what (n & (n - 1)) == 0 tests. */
  predicate PowerOfTwo(n: nat) {
    n <= 1 || (n % 2 == 0 && PowerOfTwo(n / 2))
  }

  /** The bitwise AND, digit by binary digit. */
  function And(a: nat, b: nat): nat {
    if a == 0 then 0 else (if a % 2 == 1 && b % 2 == 1 then 1 else 0) + 2 * And(a / 2, b / 2)
  }

  /** The last digits, and the rest. */
  lemma AndStep(h: nat, r: nat, k: nat, q: nat)
    requires r < 2 && q < 2
    ensures And(2 * h + r, 2 * k + q) == (if r == 1 && q == 1 then 1 else 0) + 2 * And(h, k)
  {
  }

  lemma PowerStep(h: nat)
    ensures 0 < h ==> (PowerOfTwo(2 * h) <==> PowerOfTwo(h))
    ensures PowerOfTwo(2 * h + 1) <==> h == 0
  {
  }

  lemma Halved(n: nat) returns (h: nat, r: nat)
    ensures n == 2 * h + r && r < 2
  {
    h, r := n / 2, n % 2;
  }

  lemma {:induction false} AndSelf(a: nat)
    ensures And(a, a) == a
  {
    if a > 0 {
      var h, r := Halved(a);
      AndSelf(h);
      AndStep(h, r, h, r);
    }
  }

  lemma {:induction false} TestOf(n: nat)
    requires 0 < n
    ensures And(n, n - 1) == 0 <==> PowerOfTwo(n)
  {
    hide And, PowerOfTwo;
    var h, r := Halved(n);
    PowerStep(h);
    if r == 1 {
      AndStep(h, 1, h, 0);
      AndSelf(h);
    } else {
      AndStep(h, 0, h - 1, 1);
      TestOf(h);
    }
  }

  /** The test on a UINTN, where 0 - 1 wraps. */
  lemma PowerTest(n: nat)
    requires n < WORD64
    ensures And(n, (n - 1) % WORD64) == 0 <==> PowerOfTwo(n)
  {
    TestOfZero((n - 1) % WORD64);
    hide And, PowerOfTwo;
    if n > 0 {
      NoBorrow(n);
      TestOf(n);
    }
  }

  lemma TestOfZero(below: nat)
    ensures And(0, below) == 0 && PowerOfTwo(0)
  {
  }

  lemma NoBorrow(n: nat)
    requires 0 < n < WORD64
    ensures (n - 1) % WORD64 == n - 1
  {
  }

  /** The low digits are masked off: AND with the complement, `bits` digits wide, of
      `alignment` - 1. */
  lemma {:induction false} AndMask(x: nat, alignment: nat, bits: nat)
    requires 0 < alignment <= Arith.Pow2(bits) && PowerOfTwo(alignment) && x < Arith.Pow2(bits)
    ensures And(x, Arith.Pow2(bits) - alignment) == x / alignment * alignment
    decreases bits
  {
    if bits == 0 || alignment == 1 {
      AndOnes(x, bits);
    } else {
      assert Arith.Pow2(bits) == 2 * Arith.Pow2(bits - 1);
      var half := EvenPower(alignment);
      hide And, Arith.Pow2, PowerOfTwo;
      var h, r := Halved(x);
      AndStep(h, r, Arith.Pow2(bits - 1) - half, 0);
      AndMask(h, half, bits - 1);
      HalfQuotient(h, r, half);
    }
  }

  lemma EvenPower(n: nat) returns (half: nat)
    requires PowerOfTwo(n) && n > 1
    ensures n == 2 * half && 0 < half && PowerOfTwo(half)
  {
    half := n / 2;
  }

  lemma {:induction false} AndOnes(x: nat, bits: nat)
    requires x < Arith.Pow2(bits)
    ensures And(x, Arith.Pow2(bits) - 1) == x
  {
    if bits > 0 {
      assert Arith.Pow2(bits) == 2 * Arith.Pow2(bits - 1);
      hide And, Arith.Pow2;
      var h, r := Halved(x);
      AndOnes(h, bits - 1);
      AndStep(h, r, Arith.Pow2(bits - 1) - 1, 1);
    }
  }

  lemma HalfQuotient(h: nat, r: nat, half: nat)
    requires 0 < half && r < 2
    ensures (2 * h + r) / (2 * half) * (2 * half) == 2 * (h / half * half)
  {
    Arith.DivNested(r, 2, h, half);
    Arith.DoubleBoth(h / half, half);
  }

  /** What (memory + mask) & ~mask computes on a UINTN, the sum not wrapping. */
  lemma AlignedByMask(memory: nat, alignment: nat)
    requires 0 < alignment && PowerOfTwo(alignment) && memory + alignment - 1 < WORD64
    ensures var mask := alignment - 1;
      And(memory + mask, WORD64 - 1 - mask) == AlignTo(memory, alignment)
  {
    Arith.WordIsPower();
    AndMask(memory + alignment - 1, alignment, 64);
  }

  /** Addresses agree under the ring mask exactly if they share a 64 KiB window. */
  lemma RingMask(a: nat, b: nat)
    requires a < WORD64 && b < WORD64
    ensures And(a, WORD64 - RINGS_BOUNDARY) == And(b, WORD64 - RINGS_BOUNDARY)
            <==> a / RINGS_BOUNDARY == b / RINGS_BOUNDARY
  {
    Arith.WordIsPower();
    BoundaryIsPower();
    hide And, PowerOfTwo, Arith.Pow2;
    AndMask(a, RINGS_BOUNDARY, 64);
    AndMask(b, RINGS_BOUNDARY, 64);
  }

  lemma BoundaryIsPower()
    ensures PowerOfTwo(RINGS_BOUNDARY)
  {
    PageIsPower();
    hide PowerOfTwo;
    PowerStep(0x1000);
    PowerStep(0x2000);
    PowerStep(0x4000);
    PowerStep(0x8000);
  }

  lemma {:induction false} PowersDivide(a: nat, b: nat)
    requires PowerOfTwo(a) && PowerOfTwo(b) && 0 < b <= a
    ensures a % b == 0
    decreases a
  {
    if b > 1 {
      PowersDivide(a / 2, b / 2);
      var h := b / 2;
      var q := a / 2 / h;
      assert a / 2 == q * h;
      Arith.DoubleBoth(q, h);
      Arith.Multiple(q, b);
    }
  }

  function SizeToPages(size: nat): nat {
    (size + PAGE - 1) / PAGE
  }

  lemma PagesRoundUp(size: nat)
    ensures size <= SizeToPages(size) * 4096 < size + 4096
  {
  }

  datatype Extent = Extent(base: nat, pages: nat)

  /** A stretch as a list: none when it has no pages. */
  function Piece(base: nat, pages: nat): seq<Extent> {
    if pages == 0 then [] else [Extent(base, pages)]
  }

  /** `front` pages, the stretch `kept` and `back` pages follow each other from
      `base` on and are together the `taken` pages found there: nothing is lost
      and nothing is in two of them. */
  ghost predicate Partition(base: nat, taken: nat, front: nat, kept: Extent, back: nat) {
    kept.base == base + front * PAGE && front + kept.pages + back == taken
  }

  /** Take more pages than asked for and give back those before and after an
      aligned stretch. `memory` is what the page allocator returns, `mapped`
      whether the mapping succeeds; `freed` lists the stretches given back, and
      `front` and `back` are the pages before and after the stretch `kept`. */
  method AllocateAlignedPages(pages: nat, alignment: nat, memory: Option<nat>, mapped: bool)
    returns (host: Option<nat>, taken: nat, freed: seq<Extent>, ghost front: nat, ghost kept: Extent, ghost back: nat)
    requires memory.Some? ==> memory.value % PAGE == 0
    ensures host.Some? <==> PowerOfTwo(alignment) && pages > 0 && memory.Some? && mapped
    ensures host.Some? ==> host.value == kept.base
    ensures host.Some? && alignment > 0 ==> host.value % alignment == 0
    ensures host.Some? ==> host.value % PAGE == 0
    ensures taken == 0 <==> !PowerOfTwo(alignment) || pages == 0 || memory.None?
    ensures taken == 0 ==> freed == []
    ensures taken > 0 ==> kept.pages == pages && Partition(memory.value, taken, front, kept, back)
    ensures taken > 0 ==> freed == Piece(memory.value, front) + Piece(kept.base + pages * PAGE, back)
                                   + (if host.Some? then [] else [kept])
  {
    freed, taken, front, kept, back := [], 0, 0, Extent(0, 0), 0;
    if !PowerOfTwo(alignment) || pages == 0 || memory.None? {
      return None, taken, freed, front, kept, back;
    }
    var aligned := memory.value;
    if alignment > PAGE {
      taken := pages + SizeToPages(alignment);
      aligned := AlignTo(memory.value, alignment);
      AlignedUp(memory.value, alignment);
      var unaligned := SizeToPages(aligned - memory.value);
      front := unaligned;
      if unaligned > 0 {
        freed := [Extent(memory.value, unaligned)];
      }
      unaligned := taken - pages - unaligned;
      back := unaligned;
      if unaligned > 0 {
        freed := freed + [Extent(aligned + pages * PAGE, unaligned)];
      }
    } else {
      taken := pages;
      SmallAlignment(memory.value, alignment);
    }
    kept := Extent(aligned, pages);
    if !mapped {
      freed := freed + [Extent(aligned, pages)];
      return None, taken, freed, front, kept, back;
    }
    return Some(aligned), taken, freed, front, kept, back;
  }

  /** The least multiple from `memory` on. */
  function AlignTo(memory: nat, alignment: nat): nat
    requires 0 < alignment
  {
    (memory + alignment - 1) / alignment * alignment
  }

  lemma PageIsPower()
    ensures PowerOfTwo(PAGE)
  {
  }

  lemma SmallAlignment(memory: nat, alignment: nat)
    requires memory % PAGE == 0 && alignment <= PAGE && PowerOfTwo(alignment)
    ensures alignment > 0 ==> memory % alignment == 0
  {
    if alignment > 0 {
      PageIsPower();
      PowersDivide(PAGE, alignment);
      Arith.Divides(memory, PAGE, alignment);
    }
  }

  lemma AlignedUp(memory: nat, alignment: nat)
    requires memory % PAGE == 0 && alignment > PAGE && PowerOfTwo(alignment)
    ensures memory <= AlignTo(memory, alignment) < memory + alignment
    ensures AlignTo(memory, alignment) % alignment == 0 && AlignTo(memory, alignment) % PAGE == 0
    ensures memory + SizeToPages(AlignTo(memory, alignment) - memory) * PAGE == AlignTo(memory, alignment)
    ensures SizeToPages(AlignTo(memory, alignment) - memory) <= SizeToPages(alignment)
  {
    PageIsPower();
    PowersDivide(alignment, PAGE);
    var q := (memory + alignment - 1) / alignment;
    var aligned := q * alignment;
    assert AlignTo(memory, alignment) == aligned;
    Arith.RoundedUp(memory, alignment, q);
    Arith.Multiple(q, alignment);
    Arith.Divides(aligned, alignment, PAGE);
    PagesBetween(memory, aligned, alignment);
  }

  lemma PagesBetween(lo: nat, hi: nat, span: nat)
    requires lo % PAGE == 0 && hi % PAGE == 0 && lo <= hi < lo + span
    ensures lo + SizeToPages(hi - lo) * PAGE == hi
    ensures SizeToPages(hi - lo) <= SizeToPages(span)
  {
  }
}
