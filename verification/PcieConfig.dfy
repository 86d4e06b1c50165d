/** Configuration accesses of the G12B PCIe host driver (g12b-pcie-acpi): one
    window for every function downstream, aimed by an address translation region
    and re-aimed only when the function changes. */
module PcieConfig {
  const WORD := 0x1_0000_0000
  const TYPE_CFG0 := 4
  const TYPE_CFG1 := 5
  const PCI_CLASS_REVISION := 8
  const PCI_CLASS_BRIDGE_PCI_NORMAL := 0x060400
  const LATCH_POLLS := 100

  /** Outbound translation region 1. */
  datatype Atu = Atu(base: nat, limit: nat, target: nat, kind: nat, enabled: bool)

  /** An access and what the hardware does meanwhile: whether the link is up, and
      after how many polls the enable bit of a freshly aimed region reads back set. */
  datatype Access = Access(bus: nat, devfn: nat, offset: nat, linkUp: bool, latch: nat)
  {
    predicate Valid() {
      bus < 256 && devfn < 256 && offset < 0x1000
    }

    function Slot(): nat {
      devfn / 8
    }
  }

  datatype Window = Nowhere | Dbi(offset: nat) | Cfg(offset: nat)

  /** What an access ends up at. */
  datatype Reached = Nothing | RootPort(offset: nat) | Function(bus: nat, devfn: nat, kind: nat, offset: nat)

  /** What an access is for: bus 0 has one function, the secondary bus one device,
      and nothing answers downstream without a link. */
  function Meant(a: Access): Reached {
    if a.bus == 0 then if a.devfn != 0 then Nothing else RootPort(a.offset)
    else if !a.linkUp || (a.bus == 1 && a.devfn > 7) then Nothing
    else Function(a.bus, a.devfn, if a.bus == 1 then 4 else 5, a.offset)
  }

  /** What a pointer into a window reaches with the region as it is. */
  function Reaches(w: Window, atu: Atu): Reached {
    match w
    case Nowhere => Nothing
    case Dbi(offset) => RootPort(offset)
    case Cfg(offset) =>
      if !atu.enabled then Nothing
      else Function(atu.target / 0x100_0000, atu.target / 0x1_0000 % 256, atu.kind, offset)
  }

  function Target(bus: nat, devfn: nat): nat {
    bus * 0x100_0000 + devfn / 8 * 0x8_0000 + devfn % 8 * 0x1_0000
  }

  lemma TargetDecodes(bus: nat, devfn: nat)
    requires bus < 256 && devfn < 256
    ensures Target(bus, devfn) / 0x100_0000 == bus && Target(bus, devfn) / 0x1_0000 % 256 == devfn
  {
  }

  class G12bPcie {
    const cfgBusAddr: nat
    const cfgSize: nat
    var atu: Atu
    var lastAtuTarget: nat
    ghost var retargets: nat

    /** The remembered target is the region's, with the type its bus calls for. */
    ghost predicate Valid()
      reads this
    {
      && 0 < cfgSize && cfgBusAddr + cfgSize <= WORD
      && (lastAtuTarget != 0 ==> atu == Aimed(lastAtuTarget, atu.enabled))
    }

    ghost function Aimed(target: nat, enabled: bool): Atu
      requires 0 < cfgSize
    {
      var kind := if target / 0x100_0000 == 1 then TYPE_CFG0 else TYPE_CFG1;
      Atu(cfgBusAddr, cfgBusAddr + cfgSize - 1, target, kind, enabled)
    }

    /** Nothing is aimed yet, whatever firmware left in the region. */
    constructor (cfgBusAddr: nat, cfgSize: nat, firmware: Atu)
      requires 0 < cfgSize && cfgBusAddr + cfgSize <= WORD
      ensures Valid() && lastAtuTarget == 0
    {
      this.cfgBusAddr, this.cfgSize := cfgBusAddr, cfgSize;
      atu, lastAtuTarget, retargets := firmware, 0, 0;
    }

    /** Aims the region, and leaves it disabled if the bit takes more than the polls. */
    method RetargetCfg(target: nat, kind: nat, latch: nat)
      requires 0 < cfgSize && cfgBusAddr + cfgSize <= WORD
      modifies this`atu, this`retargets
      ensures atu == Atu(cfgBusAddr, cfgBusAddr + cfgSize - 1, target, kind, latch < 100)
      ensures retargets == old(retargets) + 1
    {
      atu := Atu(cfgBusAddr, cfgBusAddr + cfgSize - 1, target, kind, false);
      retargets := retargets + 1;
      for poll := 0 to LATCH_POLLS
        modifies this`atu
        invariant poll <= latch && atu == Atu(cfgBusAddr, cfgBusAddr + cfgSize - 1, target, kind, false)
      {
        if poll == latch {
          atu := atu.(enabled := true);
        }
        if atu.enabled {
          return;
        }
      }
    }

    /** The window an access goes through reaches what is meant, or nothing: the
        latter exactly when it goes through a region that is not enabled. */
    method MapBus(a: Access) returns (w: Window)
      requires Valid() && a.Valid()
      modifies this
      ensures Valid() && Reaches(w, atu) == if w.Cfg? && !atu.enabled then Nothing else Meant(a)
      ensures w.Cfg? <==> Meant(a).Function?
      ensures w.Cfg? ==> lastAtuTarget == Target(a.bus, a.devfn)
      ensures w.Cfg? ==>
                (atu.enabled <==>
                   if old(lastAtuTarget) != lastAtuTarget then a.latch < LATCH_POLLS else old(atu.enabled))
      ensures !w.Cfg? ==> atu == old(atu) && lastAtuTarget == old(lastAtuTarget)
      ensures retargets == old(retargets) + if w.Cfg? && old(lastAtuTarget) != Target(a.bus, a.devfn) then 1 else 0
    {
      if a.bus == 0 {
        return if a.devfn != 0 then Nowhere else Dbi(a.offset);
      }
      if !a.linkUp {
        return Nowhere;
      }
      if a.bus == 1 && a.Slot() > 0 {
        return Nowhere;
      }
      var target := Target(a.bus, a.devfn);
      TargetDecodes(a.bus, a.devfn);
      if target != lastAtuTarget {
        RetargetCfg(target, if a.bus == 1 then TYPE_CFG0 else TYPE_CFG1, a.latch);
        lastAtuTarget := target;
      }
      return Cfg(a.offset);
    }

    /** Each of any sequence of accesses reaches what it is for or nothing, never
        another function, and nothing exactly when the last aiming was never enabled;
        the region is never aimed twice running at one function. */
    method Run(accesses: seq<Access>) returns (reached: seq<Reached>)
      requires Valid() && forall a :: a in accesses ==> a.Valid()
      modifies this
      ensures Valid() && |reached| == |accesses|
      ensures forall i :: 0 <= i < |accesses| ==>
                var live := Live(old(lastAtuTarget), old(atu.enabled), accesses[..i + 1]);
                reached[i] == if Meant(accesses[i]).Function? && !live then Nothing else Meant(accesses[i])
      ensures retargets == old(retargets) + Changes(old(lastAtuTarget), accesses)
    {
      hide Meant, Reaches, Target, Live;
      reached := [];
      ghost var last, live := lastAtuTarget, atu.enabled;
      LiveStart(last, live);
      for i := 0 to |accesses|
        invariant Valid() && |reached| == i
        invariant forall k :: 0 <= k < i ==>
                    reached[k] == if Meant(accesses[k]).Function? && !Live(last, live, accesses[..k + 1])
                                  then Nothing else Meant(accesses[k])
        invariant lastAtuTarget == LastTarget(last, accesses[..i]) && (atu.enabled <==> Live(last, live, accesses[..i]))
        invariant retargets + Changes(lastAtuTarget, accesses[i..]) == old(retargets) + Changes(last, accesses)
      {
        var w := MapBus(accesses[i]);
        assert accesses[i..][0] == accesses[i] && accesses[i] in accesses;
        assert accesses[i..][1..] == accesses[i + 1..];
        assert accesses[..i + 1][..i] == accesses[..i];
        LiveStep(last, live, accesses[..i + 1]);
        reached := reached + [Reaches(w, atu)];
      }
    }
  }

  /** The target of the last access that went downstream. */
  function LastTarget(last: nat, accesses: seq<Access>): nat {
    if accesses == [] then last
    else
      var a, n := accesses[|accesses| - 1], |accesses| - 1;
      if Meant(a).Function? then Target(a.bus, a.devfn) else LastTarget(last, accesses[..n])
  }

  /** Whether the region is enabled after these accesses: it is polled only when it
      is aimed, and aimed only when the target changes. */
  predicate Live(last: nat, live: bool, accesses: seq<Access>) {
    if accesses == [] then live
    else
      var a, before := accesses[|accesses| - 1], accesses[..|accesses| - 1];
      if Meant(a).Function? && Target(a.bus, a.devfn) != LastTarget(last, before) then a.latch < LATCH_POLLS
      else Live(last, live, before)
  }

  lemma LiveStart(last: nat, live: bool)
    ensures Live(last, live, []) == live
  {
  }

  lemma LiveStep(last: nat, live: bool, accesses: seq<Access>)
    requires accesses != []
    ensures var a, before := accesses[|accesses| - 1], accesses[..|accesses| - 1];
      Live(last, live, accesses) ==
      if Meant(a).Function? && Target(a.bus, a.devfn) != LastTarget(last, before) then a.latch < LATCH_POLLS
      else Live(last, live, before)
  {
  }

  /** From a fresh driver or an enabled region, with every enable bit latching within
      the polls, no access finds the region disabled. */
  lemma {:induction false} LatchedIsLive(last: nat, live: bool, accesses: seq<Access>)
    requires last == 0 || live
    requires forall a :: a in accesses ==> a.latch < LATCH_POLLS
    ensures LastTarget(last, accesses) == 0 || Live(last, live, accesses)
    ensures accesses != [] && Meant(accesses[|accesses| - 1]).Function? ==> Live(last, live, accesses)
  {
    if accesses != [] {
      LatchedIsLive(last, live, accesses[..|accesses| - 1]);
    }
  }

  /** Once the bit failed to latch, a function stays out of reach for as long as no
      other is accessed: the remembered target keeps it from being aimed again. */
  lemma {:induction false} DeadUntilChange(last: nat, live: bool, first: Access, accesses: seq<Access>)
    requires Meant(first).Function? && Target(first.bus, first.devfn) != last && first.latch >= LATCH_POLLS
    requires forall a :: a in accesses ==> (Meant(a).Function? ==> a.bus == first.bus && a.devfn == first.devfn)
    ensures LastTarget(last, [first] + accesses) == Target(first.bus, first.devfn)
    ensures !Live(last, live, [first] + accesses)
    decreases |accesses|
  {
    var all, n := [first] + accesses, |accesses|;
    if n == 0 {
      assert all == [first];
    } else {
      DeadUntilChange(last, live, first, accesses[..n - 1]);
      assert all[..n] == [first] + accesses[..n - 1];
    }
  }

  /** How often the function reached downstream changes. */
  function Changes(last: nat, accesses: seq<Access>): nat
    decreases |accesses|
  {
    if accesses == [] then 0
    else if !Meant(accesses[0]).Function? then Changes(last, accesses[1..])
    else
      var target := Target(accesses[0].bus, accesses[0].devfn);
      (if target == last then 0 else 1) + Changes(target, accesses[1..])
  }

  // ---- The fabricated class code ---------------------------------------------------

  /** The bytes [offset % 4, offset % 4 + size) of a dword. */
  function Slice(dword: nat, offset: nat, size: nat): nat
    requires size in {1, 2, 4}
  {
    Shifted(dword, offset) % (if size == 1 then 0x100 else if size == 2 then 0x1_0000 else WORD)
  }

  function Shifted(dword: nat, offset: nat): nat {
    match offset % 4
    case 0 => dword
    case 1 => dword / 0x100
    case 2 => dword / 0x1_0000
    case _ => dword / 0x100_0000
  }

  function Raised(x: nat, offset: nat): nat {
    match offset % 4
    case 0 => x
    case 1 => x * 0x100
    case 2 => x * 0x1_0000
    case _ => x * 0x100_0000
  }

  /** The class-code dword of a bridge with the hardware's revision. */
  function BridgeDword(raw: nat): nat {
    PCI_CLASS_BRIDGE_PCI_NORMAL * 0x100 + raw % 0x100
  }

  /** A slice is the bytes at its place in the dword, least first. */
  lemma SliceIsBytes(a: nat, b: nat, c: nat, d: nat, offset: nat, size: nat)
    requires a < 256 && b < 256 && c < 256 && d < 256 && Aligned(offset, size)
    ensures var dword, at := a + 256 * (b + 256 * (c + 256 * d)), offset % 4;
      && at + size <= 4
      && (size == 1 ==> Slice(dword, offset, size) == if at == 0 then a else if at == 1 then b else if at == 2 then c else d)
      && (size == 2 ==> Slice(dword, offset, size) == if at == 0 then a + 256 * b else c + 256 * d)
      && (size == 4 ==> Slice(dword, offset, size) == dword)
  {
    Halves(a, b, c, d);
  }

  lemma Halves(a: nat, b: nat, c: nat, d: nat)
    requires a < 256 && b < 256 && c < 256 && d < 256
    ensures var dword := a + 256 * (b + 256 * (c + 256 * d));
      && dword < WORD && dword % 0x100 == a && dword / 0x100 == b + 256 * (c + 256 * d)
      && dword % 0x1_0000 == a + 256 * b && dword / 0x1_0000 == c + 256 * d && dword / 0x100_0000 == d
    ensures (b + 256 * (c + 256 * d)) % 0x100 == b && (c + 256 * d) % 0x100 == c
    ensures c + 256 * d < 0x1_0000
  {
  }

  /** The revision is the hardware's; above it stand interface 0, subclass 4, class 6. */
  lemma BridgeIsBytes(raw: nat, size: nat)
    requires raw < WORD
    ensures Slice(BridgeDword(raw), 8, 1) == Slice(raw, 8, 1)
    ensures Slice(BridgeDword(raw), 9, 1) == 0 && Slice(BridgeDword(raw), 10, 1) == 4
    ensures Slice(BridgeDword(raw), 11, 1) == 6 && Slice(BridgeDword(raw), 10, 2) == 0x0604
  {
  }

  predicate Aligned(offset: nat, size: nat) {
    size in {1, 2, 4} && offset % size == 0
  }

  /** Moved to its place, given the class and moved back, a narrow read is a slice of
      the whole fabricated dword. */
  lemma FabricatedSlice(raw: nat, offset: nat, size: nat)
    requires Aligned(offset, size) && size <= 2 && raw < WORD
    ensures Fabricated(Raised(Slice(raw, offset, size), offset), offset, size) == Slice(BridgeDword(raw), offset, size)
  {
    var b := raw % 0x100;
    match offset % 4
    case 0 => LowByte(raw, size);
    case 1 => MiddleBytes(raw / 0x100 % 0x100, b);
    case 2 => MiddleBytes(raw / 0x1_0000 % (if size == 1 then 0x100 else 0x1_0000) * 0x100, b);
    case _ => MiddleBytes(raw / 0x100_0000 % 0x100 * 0x1_0000, b);
  }

  lemma LowByte(raw: nat, size: nat)
    ensures raw % 0x100 % 0x100 == raw % 0x100 && raw % 0x1_0000 % 0x100 == raw % 0x100
  {
  }

  /** What stands above the low byte is dropped, and the low byte does not reach up. */
  lemma MiddleBytes(above: nat, low: nat)
    requires low < 0x100
    ensures above * 0x100 % 0x100 == 0
    ensures (PCI_CLASS_BRIDGE_PCI_NORMAL * 0x100 + low) / 0x100 == PCI_CLASS_BRIDGE_PCI_NORMAL
    ensures (PCI_CLASS_BRIDGE_PCI_NORMAL * 0x100 + low) / 0x1_0000 == PCI_CLASS_BRIDGE_PCI_NORMAL / 0x100
    ensures (PCI_CLASS_BRIDGE_PCI_NORMAL * 0x100 + low) / 0x100_0000 == PCI_CLASS_BRIDGE_PCI_NORMAL / 0x1_0000
  {
  }

  /** The class put over a value, and a narrow read moved back. */
  function Fabricated(value: nat, offset: nat, size: nat): nat
    requires size in {1, 2, 4}
  {
    var dword := value % 0x100 + PCI_CLASS_BRIDGE_PCI_NORMAL * 0x100;
    if size <= 2 then Slice(dword, offset, size) else dword
  }

  lemma WholeDword(raw: nat, offset: nat)
    requires offset % 4 == 0 && raw < WORD
    ensures Fabricated(Slice(raw, offset, 4), offset, 4) == Slice(BridgeDword(raw), offset, 4)
  {
  }

  /** A configuration read; `raw` is the dword the hardware holds there. Reads of the
      root port's class code are all slices of one dword. */
  method ReadConf(reached: Reached, offset: nat, size: nat, raw: nat) returns (found: bool, value: nat)
    requires Aligned(offset, size) && raw < WORD
    ensures found <==> reached != Nothing
    ensures found ==>
              value == Slice(if reached.RootPort? && offset / 4 * 4 == 8 then BridgeDword(raw)
                             else raw, offset, size)
  {
    hide Slice, Raised, Fabricated, BridgeDword;
    if reached == Nothing {
      return false, 0xFFFF_FFFF;
    }
    value := Slice(raw, offset, size);
    if reached.RootPort? && offset / 4 * 4 == PCI_CLASS_REVISION {
      if size <= 2 {
        FabricatedSlice(raw, offset, size);
        value := Raised(value, offset);
      } else {
        WholeDword(raw, offset);
      }
      value := Fabricated(value, offset, size);
    }
    return true, value;
  }
}
