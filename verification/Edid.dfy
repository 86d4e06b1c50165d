/** The display driver's reading of a monitor's EDID (MesonDisplayHw): which of
    the supported modes it picks. */
module Edid {
  import Arith
  import opened Sequences
  import opened Wrappers

  const EDID_BLOCK := 128
  const MASK_VIC := 0x80

  type Octet = x: int | 0 <= x < 256

  datatype Mode = Mode(width: nat, height: nat, clockKhz: nat, hFrontPorch: nat, hSync: nat, hBackPorch: nat,
                       vFrontPorch: nat, vSync: nat, vBackPorch: nat, vic: nat, interlaced: bool)
  {
    function Asked(): Timing {
      Timing(clockKhz, width, height, hFrontPorch + hSync + hBackPorch, vFrontPorch + vSync + vBackPorch,
                    interlaced)
    }

    /** The 16:9 twin of a mode with the same timing. */
    predicate Alias() {
      vic in {3, 7, 18, 22}
    }
  }

  datatype Timing = Timing(clockKhz: nat, width: nat, height: nat, hBlank: nat, vBlank: nat, interlaced: bool)

  const MODE_720P := Mode(1280, 720, 74250, 110, 40, 220, 5, 5, 20, 4, false)

  const SUPPORTED: seq<Mode> := [
    Mode(720, 480, 27000, 16, 62, 60, 9, 6, 30, 2, false),
    Mode(720, 480, 27000, 16, 62, 60, 9, 6, 30, 3, false),
    Mode(1280, 720, 74250, 110, 40, 220, 5, 5, 20, 4, false),
    Mode(1920, 1080, 74250, 88, 44, 148, 4, 10, 31, 5, true),
    Mode(720, 480, 13500, 19, 62, 57, 8, 6, 31, 6, true),
    Mode(720, 480, 13500, 19, 62, 57, 8, 6, 31, 7, true),
    Mode(1920, 1080, 148500, 88, 44, 148, 4, 5, 36, 16, false),
    Mode(720, 576, 27000, 12, 64, 68, 5, 5, 39, 17, false),
    Mode(720, 576, 27000, 12, 64, 68, 5, 5, 39, 18, false),
    Mode(1280, 720, 74250, 440, 40, 220, 5, 5, 20, 19, false),
    Mode(1920, 1080, 74250, 528, 44, 148, 4, 10, 31, 20, true),
    Mode(720, 576, 13500, 12, 63, 69, 4, 6, 39, 21, true),
    Mode(720, 576, 13500, 12, 63, 69, 4, 6, 39, 22, true),
    Mode(1920, 1080, 148500, 528, 44, 148, 4, 5, 36, 31, false),
    Mode(1920, 1080, 74250, 638, 44, 148, 4, 5, 36, 32, false),
    Mode(1920, 1080, 74250, 528, 44, 148, 4, 5, 36, 33, false),
    Mode(1920, 1080, 74250, 88, 44, 148, 4, 5, 36, 34, false),
    Mode(3840, 2160, 297000, 1276, 88, 296, 8, 10, 72, 93, false),
    Mode(3840, 2160, 297000, 1056, 88, 296, 8, 10, 72, 94, false),
    Mode(3840, 2160, 297000, 176, 88, 296, 8, 10, 72, 95, false)
  ]

  // ---- Block check -------------------------------------------------------------------

  const HEADER: seq<Octet> := [0x00, 0xFF, 0xFF, 0xFF, 0xFF, 0xFF, 0xFF, 0x00]

  function Sum(bytes: seq<Octet>): nat {
    if bytes == [] then 0 else Sum(bytes[..|bytes| - 1]) + bytes[|bytes| - 1] as int
  }

  /** A block is valid when its bytes sum to a multiple of 256 and, for the base
      block, it starts with the fixed header. */
  method EdidBlockValid(block: seq<Octet>, base: bool) returns (valid: bool)
    requires |block| == EDID_BLOCK
    ensures valid <==> Sum(block) % 256 == 0 && (base ==> block[..8] == HEADER)
  {
    if base && block[..8] != HEADER {
      return false;
    }
    var sum := 0;
    for i := 0 to EDID_BLOCK
      invariant sum == Sum(block[..i]) % 256
    {
      assert block[..i + 1][..i] == block[..i];
      sum := (sum + block[i] as int) % 256;
    }
    assert block[..EDID_BLOCK] == block;
    return sum == 0;
  }

  // ---- Detailed timings ----------------------------------------------------------

  /** What an 18-byte descriptor says; its fields are split over shared bytes. */
  function TimingOf(d: seq<Octet>): Timing
    requires |d| == 18
  {
    Timing((d[0] as int + 256 * d[1] as int) * 10,
           d[2] as int + d[4] as int / 16 * 256, d[5] as int + d[7] as int / 16 * 256,
           d[3] as int + d[4] as int % 16 * 256, d[6] as int + d[7] as int % 16 * 256, d[17] >= 128)
  }

  /** How a descriptor states a timing: the low bytes of active and blank, their high
      nibbles together in one byte, the clock in units of 10 kHz, the interlace flag
      on top of the last byte. */
  function DescriptorFor(t: Timing, rest: seq<Octet>, flags: nat): (d: seq<Octet>)
    requires Describable(t) && |rest| == 9 && flags < 128
    ensures |d| == 18
  {
    var units := t.clockKhz / 10;
    [units % 256, units / 256, t.width % 256, t.hBlank % 256, t.width / 256 * 16 + t.hBlank / 256,
     t.height % 256, t.vBlank % 256, t.height / 256 * 16 + t.vBlank / 256]
    + rest + [(if t.interlaced then 128 else 0) + flags]
  }

  predicate Describable(t: Timing) {
    && t.clockKhz % 10 == 0 && t.clockKhz < 655360
    && t.width < 4096 && t.height < 4096 && t.hBlank < 4096 && t.vBlank < 4096
  }

  /** A stated timing is read back, whatever the other fields say. */
  lemma TimingRoundTrip(t: Timing, rest: seq<Octet>, flags: nat)
    requires Describable(t) && |rest| == 9 && flags < 128
    ensures TimingOf(DescriptorFor(t, rest, flags)) == t
  {
    Nibbles(t.width, t.hBlank);
    Nibbles(t.height, t.vBlank);
    assert t.clockKhz == t.clockKhz / 10 * 10;
  }

  lemma Nibbles(active: nat, blank: nat)
    requires active < 4096 && blank < 4096
    ensures var shared := active / 256 * 16 + blank / 256;
      && shared < 256 && active % 256 + shared / 16 * 256 == active && blank % 256 + shared % 16 * 256 == blank
  {
  }

  /** The four 18-byte descriptors of a base block. */
  function Descriptor(edid: seq<Octet>, k: nat): (d: seq<Octet>)
    requires |edid| >= EDID_BLOCK && k < 4
    ensures |d| == 18
  {
    edid[54 + 18 * k..72 + 18 * k]
  }

  /** Every mode has a pixel clock, so a descriptor without one asks for none. */
  predicate Clocked(modes: seq<Mode>) {
    forall i :: 0 <= i < |modes| ==> modes[i].clockKhz > 0
  }

  predicate Wanted(m: Mode, t: Timing, aliasOnly: bool) {
    m.Asked() == t && (aliasOnly ==> m.Alias())
  }

  /** The first of modes[..n] that has the timing. */
  function FirstMode(modes: seq<Mode>, t: Timing, aliasOnly: bool, n: nat): (r: Option<Mode>)
    requires n <= |modes|
  {
    if n == 0 then None
    else
      var r := FirstMode(modes, t, aliasOnly, n - 1);
      if r == None && Wanted(modes[n - 1], t, aliasOnly) then Some(modes[n - 1]) else r
  }

  /** The first mode that one of the first n descriptors asks for. */
  function FirstDescribed(modes: seq<Mode>, edid: seq<Octet>, aliasOnly: bool, n: nat): (r: Option<Mode>)
    requires |edid| >= EDID_BLOCK && n <= 4
  {
    if n == 0 then None
    else
      var r := FirstDescribed(modes, edid, aliasOnly, n - 1);
      if r != None then r else FirstMode(modes, TimingOf(Descriptor(edid, n - 1)), aliasOnly, |modes|)
  }

  /** The first 16:9 twin any descriptor asks for, else the first mode any does. */
  function DetailedMode(modes: seq<Mode>, edid: seq<Octet>): Option<Mode>
    requires |edid| >= EDID_BLOCK
  {
    var twin := FirstDescribed(modes, edid, true, 4);
    if twin != None then twin else FirstDescribed(modes, edid, false, 4)
  }

  method FindDetailedTimingMode(modes: seq<Mode>, edid: seq<Octet>) returns (r: Option<Mode>)
    requires |edid| >= EDID_BLOCK && Clocked(modes)
    ensures r == DetailedMode(modes, edid)
  {
    hide TimingOf, Descriptor;
    r := None;
    for n := 0 to 4
      invariant FirstDescribed(modes, edid, true, n) == None
      invariant r == FirstDescribed(modes, edid, false, n)
    {
      var d := Descriptor(edid, n);
      if d[0] == 0 && d[1] == 0 {
        BlankDescriptor(modes, d);
        continue;
      }
      ghost var before := r;
      for j := 0 to |modes|
        invariant FirstMode(modes, TimingOf(d), true, j) == None
        invariant r == if before != None then before else FirstMode(modes, TimingOf(d), false, j)
      {
        if TimingOf(d) == modes[j].Asked() {
          if modes[j].Alias() {
            FirstModeStays(modes, TimingOf(d), true, j + 1, |modes|);
            FirstDescribedStays(modes, edid, true, n + 1, 4);
            return Some(modes[j]);
          }
          if r == None {
            r := Some(modes[j]);
          }
        }
      }
    }
  }

  lemma {:induction false} NoTiming(modes: seq<Mode>, t: Timing, aliasOnly: bool, n: nat)
    requires Clocked(modes) && t.clockKhz == 0 && n <= |modes|
    ensures FirstMode(modes, t, aliasOnly, n) == None
  {
    if n > 0 {
      NoTiming(modes, t, aliasOnly, n - 1);
    }
  }

  lemma BlankDescriptor(modes: seq<Mode>, d: seq<Octet>)
    requires Clocked(modes) && |d| == 18 && d[0] == 0 && d[1] == 0
    ensures FirstMode(modes, TimingOf(d), true, |modes|) == None
    ensures FirstMode(modes, TimingOf(d), false, |modes|) == None
  {
    NoTiming(modes, TimingOf(d), true, |modes|);
    NoTiming(modes, TimingOf(d), false, |modes|);
  }

  lemma {:induction false} FirstModeStays(modes: seq<Mode>, t: Timing, aliasOnly: bool, n: nat, more: nat)
    requires n <= more <= |modes| && FirstMode(modes, t, aliasOnly, n) != None
    ensures FirstMode(modes, t, aliasOnly, more) == FirstMode(modes, t, aliasOnly, n)
  {
    if n < more {
      FirstModeStays(modes, t, aliasOnly, n, more - 1);
    }
  }

  lemma {:induction false} FirstDescribedStays(modes: seq<Mode>, edid: seq<Octet>, aliasOnly: bool, n: nat, more: nat)
    requires |edid| >= EDID_BLOCK && n <= more <= 4 && FirstDescribed(modes, edid, aliasOnly, n) != None
    ensures FirstDescribed(modes, edid, aliasOnly, more) == FirstDescribed(modes, edid, aliasOnly, n)
  {
    if n < more {
      FirstDescribedStays(modes, edid, aliasOnly, n, more - 1);
    }
  }

  /** What FirstMode means. */
  lemma {:induction false} FirstModeIsFirst(modes: seq<Mode>, t: Timing, aliasOnly: bool, n: nat)
    requires n <= |modes|
    ensures FirstMode(modes, t, aliasOnly, n) == None <==> forall i :: 0 <= i < n ==> !Wanted(modes[i], t, aliasOnly)
    ensures FirstMode(modes, t, aliasOnly, n) != None ==>
      exists i :: 0 <= i < n && FirstMode(modes, t, aliasOnly, n) == Some(modes[i]) && Wanted(modes[i], t, aliasOnly)
                  && forall j :: 0 <= j < i ==> !Wanted(modes[j], t, aliasOnly)
  {
    if n > 0 {
      FirstModeIsFirst(modes, t, aliasOnly, n - 1);
    }
  }

  // ---- CTA data blocks -------------------------------------------------------------

  datatype Block = Block(tag: nat, payload: seq<Octet>)

  /** The data blocks from `offset` on, up to the first that would cross `end`. */
  function Blocks(ext: seq<Octet>, offset: nat, end: nat): seq<Block>
    requires end <= |ext|
    decreases end - offset
  {
    if offset >= end then []
    else
      var length := ext[offset] as int % 32;
      if offset + 1 + length > end then []
      else [Block(ext[offset] as int / 32, ext[offset + 1..offset + 1 + length])] + Blocks(ext, offset + 1 + length, end)
  }

  /** How data blocks are written: a byte of tag and length before each payload. */
  function Coded(blocks: seq<Block>): seq<Octet>
    requires forall b :: b in blocks ==> b.tag < 8 && |b.payload| < 32
  {
    if blocks == [] then []
    else [HeaderOf(blocks[0])] + blocks[0].payload + Coded(blocks[1..])
  }

  /** Data blocks are read back as they were written, wherever they stand. */
  lemma {:induction false} BlocksRoundTrip(before: seq<Octet>, blocks: seq<Block>, after: seq<Octet>)
    requires forall b :: b in blocks ==> b.tag < 8 && |b.payload| < 32
    ensures Blocks(before + Coded(blocks) + after, |before|, |before + Coded(blocks)|) == blocks
    decreases |blocks|
  {
    hide Blocks;
    if blocks != [] {
      BlocksRoundTrip(before + [HeaderOf(blocks[0])] + blocks[0].payload, blocks[1..], after);
      OneBlockBack(before, blocks[0], Coded(blocks[1..]), after);
    } else {
      BlocksStep(before + after, |before|, |before|);
      assert before + [] + after == before + after;
    }
  }

  function HeaderOf(b: Block): Octet
    requires b.tag < 8 && |b.payload| < 32
  {
    b.tag * 32 + |b.payload|
  }

  lemma OneBlockBack(before: seq<Octet>, b: Block, rest: seq<Octet>, after: seq<Octet>)
    requires b.tag < 8 && |b.payload| < 32
    ensures var next := before + [HeaderOf(b)] + b.payload;
      var all := before + ([HeaderOf(b)] + b.payload + rest) + after;
      && all == next + rest + after && |next + rest| == |before + ([HeaderOf(b)] + b.payload + rest)|
      && Blocks(all, |before|, |next + rest|) == [b] + Blocks(all, |next|, |next + rest|)
  {
    hide Blocks, HeaderOf;
    HeaderBack(b);
    InPlace(before, HeaderOf(b), b.payload, rest, after);
    BlocksStep(before + ([HeaderOf(b)] + b.payload + rest) + after, |before|, |before| + 1 + |b.payload| + |rest|);
  }

  lemma HeaderBack(b: Block)
    requires b.tag < 8 && |b.payload| < 32
    ensures HeaderOf(b) as int % 32 == |b.payload| && HeaderOf(b) as int / 32 == b.tag
  {
    Arith.Quotient(|b.payload|, b.tag, 32);
  }

  /** Where an extension's data blocks end. */
  function DataEnd(ext: seq<Octet>): (r: nat)
    requires |ext| == EDID_BLOCK
    ensures 4 <= r <= 127
  {
    if ext[2] < 4 || ext[2] > 127 then 127 else ext[2]
  }

  /** All CTA data blocks of extensions [from, |edid| / 128), in document order. */
  function DataBlocks(edid: seq<Octet>, from: nat): seq<Block>
    decreases |edid| / EDID_BLOCK - from
  {
    if from >= |edid| / EDID_BLOCK then []
    else
      var ext := edid[EDID_BLOCK * from..EDID_BLOCK * from + EDID_BLOCK];
      (if ext[0] == 2 then Blocks(ext, 4, DataEnd(ext)) else []) + DataBlocks(edid, from + 1)
  }

  /** The video identification codes, in order: the sink's order of preference. */
  function Vics(blocks: seq<Block>): seq<nat> {
    if blocks == [] then []
    else (if blocks[0].tag == 2 then Masked(blocks[0].payload) else []) + Vics(blocks[1..])
  }

  function Masked(payload: seq<Octet>): seq<nat> {
    seq(|payload|, i requires 0 <= i < |payload| => payload[i] as int % MASK_VIC)
  }

  /** The HDMI vendor block: OUI 00-0C-03, least byte first. */
  predicate SaysHdmi(b: Block) {
    b.tag == 3 && |b.payload| >= 3 && b.payload[..3] == [0x03, 0x0C, 0x00]
  }

  /** The mode of a code, if supported. */
  function ModeOf(modes: seq<Mode>, vic: nat): Option<Mode> {
    if modes == [] then None else if modes[0].vic == vic then Some(modes[0]) else ModeOf(modes[1..], vic)
  }

  function FirstSupported(modes: seq<Mode>, vics: seq<nat>): Option<Mode> {
    if vics == [] then None
    else
      var m := ModeOf(modes, vics[0]);
      if m != None then m else FirstSupported(modes, vics[1..])
  }

  method FindModeByVic(modes: seq<Mode>, vic: nat) returns (r: Option<Mode>)
    ensures r == ModeOf(modes, vic)
  {
    for i := 0 to |modes|
      invariant ModeOf(modes, vic) == ModeOf(modes[i..], vic)
    {
      if modes[i].vic == vic {
        return Some(modes[i]);
      }
    }
    return None;
  }

  lemma {:induction false} FirstSupportedIsFirst(modes: seq<Mode>, vics: seq<nat>)
    ensures FirstSupported(modes, vics) == None <==> forall i :: 0 <= i < |vics| ==> ModeOf(modes, vics[i]) == None
    ensures FirstSupported(modes, vics) != None ==>
      exists i :: 0 <= i < |vics| && FirstSupported(modes, vics) == ModeOf(modes, vics[i])
                  && forall j :: 0 <= j < i ==> ModeOf(modes, vics[j]) == None
  {
    if vics != [] {
      FirstSupportedIsFirst(modes, vics[1..]);
      assert forall i :: 0 < i < |vics| ==> vics[i] == vics[1..][i - 1];
      assert forall i :: 0 <= i < |vics[1..]| ==> vics[1..][i] == vics[i + 1];
    }
  }

  lemma {:induction false} FirstSupportedOfSum(modes: seq<Mode>, a: seq<nat>, b: seq<nat>)
    ensures FirstSupported(modes, a + b)
            == if FirstSupported(modes, a) != None then FirstSupported(modes, a) else FirstSupported(modes, b)
  {
    if a == [] {
      assert a + b == b;
    } else {
      FirstSupportedOfSum(modes, a[1..], b);
      assert (a + b)[1..] == a[1..] + b;
    }
  }

  // ---- The choice --------------------------------------------------------------------

  function Or<T>(a: Option<T>, b: Option<T>): Option<T> {
    if a != None then a else b
  }

  ghost predicate AnyHdmi(blocks: seq<Block>) {
    exists b :: b in blocks && SaysHdmi(b)
  }

  /** The first supported code of some data blocks. */
  function Wish(modes: seq<Mode>, blocks: seq<Block>): Option<Mode> {
    FirstSupported(modes, Vics(blocks))
  }

  lemma WishOfSum(modes: seq<Mode>, a: seq<Block>, b: seq<Block>)
    ensures Wish(modes, a + b) == Or(Wish(modes, a), Wish(modes, b))
    ensures AnyHdmi(a + b) <==> AnyHdmi(a) || AnyHdmi(b)
  {
    VicsOfSum(a, b);
    FirstSupportedOfSum(modes, Vics(a), Vics(b));
  }

  lemma WishOfOne(modes: seq<Mode>, b: Block)
    ensures Wish(modes, [b]) == if b.tag == 2 then FirstSupported(modes, Masked(b.payload)) else None
    ensures AnyHdmi([b]) <==> SaysHdmi(b)
    ensures Wish(modes, []) == None && !AnyHdmi([])
  {
    assert b in [b] && [b][1..] == [];
    assert Vics([b]) == if b.tag == 2 then Masked(b.payload) else [];
  }

  /** The first supported code, else a detailed timing, else 720p. */
  function Choice(modes: seq<Mode>, edid: seq<Octet>): Mode {
    if |edid| < EDID_BLOCK then MODE_720P
    else match Or(Wish(modes, DataBlocks(edid, 1)), DetailedMode(modes, edid))
      case Some(m) => m
      case None => MODE_720P
  }

  /** A code that an extension names and the table has decides, the first of them, over
      every detailed timing; a detailed timing decides only without one. */
  lemma ChoiceMeans(modes: seq<Mode>, edid: seq<Octet>)
    requires |edid| >= EDID_BLOCK
    ensures var vics := Vics(DataBlocks(edid, 1));
      && (forall i :: 0 <= i < |vics| && Supported(modes, vics[i]) && (forall j :: 0 <= j < i ==> !Supported(modes, vics[j]))
            ==> Choice(modes, edid).vic == vics[i] && Choice(modes, edid) in modes)
      && ((forall i :: 0 <= i < |vics| ==> !Supported(modes, vics[i])) ==>
            Choice(modes, edid) == if DetailedMode(modes, edid) == None then MODE_720P else DetailedMode(modes, edid).value)
  {
    hide DataBlocks, DetailedMode, FirstSupported, Vics;
    var vics := Vics(DataBlocks(edid, 1));
    FirstSupportedIsFirst(modes, vics);
    forall i | 0 <= i < |vics| ensures Supported(modes, vics[i]) <==> ModeOf(modes, vics[i]) != None {
      ModeOfMeans(modes, vics[i]);
    }
    forall i | 0 <= i < |vics| && Supported(modes, vics[i]) && (forall j :: 0 <= j < i ==> !Supported(modes, vics[j]))
      ensures Choice(modes, edid).vic == vics[i] && Choice(modes, edid) in modes
    {
      ModeOfMeans(modes, vics[i]);
    }
  }

  predicate Supported(modes: seq<Mode>, vic: nat) {
    exists k :: 0 <= k < |modes| && modes[k].vic == vic
  }

  lemma {:induction false} ModeOfMeans(modes: seq<Mode>, vic: nat)
    ensures ModeOf(modes, vic) == None <==> !Supported(modes, vic)
    ensures ModeOf(modes, vic) != None ==> ModeOf(modes, vic).value.vic == vic && ModeOf(modes, vic).value in modes
  {
    if modes != [] {
      ModeOfMeans(modes[1..], vic);
      assert forall k :: 0 < k < |modes| ==> modes[k] == modes[1..][k - 1];
      assert forall k :: 0 <= k < |modes[1..]| ==> modes[1..][k] == modes[k + 1];
    }
  }

  method ScanBlock(modes: seq<Mode>, b: Block, selected0: Option<Mode>) returns (selected: Option<Mode>)
    ensures selected == Or(selected0, FirstSupported(modes, Masked(b.payload)))
  {
    selected := selected0;
    var vics := Masked(b.payload);
    for i := 0 to |vics|
      invariant Or(selected, FirstSupported(modes, vics[i..])) == Or(selected0, FirstSupported(modes, vics))
    {
      var m := FindModeByVic(modes, vics[i]);
      if selected == None && m != None {
        selected := m;
      }
    }
  }

  /** The next data block and those after it, or none. */
  lemma BlocksStep(ext: seq<Octet>, offset: nat, end: nat)
    requires end <= |ext| && offset <= end
    ensures offset < end ==> var length := ext[offset] as int % 32;
      Blocks(ext, offset, end) == if offset + 1 + length > end then []
        else [Block(ext[offset] as int / 32, ext[offset + 1..offset + 1 + length])] + Blocks(ext, offset + 1 + length, end)
    ensures Blocks(ext, end, end) == []
  {
  }

  method ScanExtension(modes: seq<Mode>, ext: seq<Octet>, selected0: Option<Mode>, hdmi0: bool)
    returns (selected: Option<Mode>, hdmi: bool)
    requires |ext| == EDID_BLOCK
    ensures var blocks := Blocks(ext, 4, DataEnd(ext));
      selected == Or(selected0, Wish(modes, blocks)) && (hdmi <==> hdmi0 || AnyHdmi(blocks))
  {
    hide Blocks, Wish, AnyHdmi, FirstSupported, Masked;
    selected, hdmi := selected0, hdmi0;
    var end: nat := ext[2];
    if end < 4 || end > 127 {
      end := 127;
    }
    var offset := 4;
    ghost var blocks := Blocks(ext, 4, end);
    while offset < end
      invariant 4 <= offset <= end
      invariant Or(selected, Wish(modes, Blocks(ext, offset, end))) == Or(selected0, Wish(modes, blocks))
      invariant hdmi || AnyHdmi(Blocks(ext, offset, end)) <==> hdmi0 || AnyHdmi(blocks)
      decreases end - offset
    {
      BlocksStep(ext, offset, end);
      var tag, length := ext[offset] as int / 32, ext[offset] as int % 32;
      if offset + 1 + length > end {
        break;
      }
      var b := Block(tag, ext[offset + 1..offset + 1 + length]);
      assert length >= 3 ==> b.payload[..3] == [ext[offset + 1], ext[offset + 2], ext[offset + 3]];
      WishOfOne(modes, b);
      WishOfSum(modes, [b], Blocks(ext, offset + 1 + length, end));
      if tag == 2 {
        selected := ScanBlock(modes, b, selected);
      } else if tag == 3 && length >= 3 && ext[offset + 1] == 0x03 && ext[offset + 2] == 0x0C && ext[offset + 3] == 0x00 {
        hdmi := true;
      }
      offset := offset + 1 + length;
    }
    WishOfOne(modes, Block(0, []));
    assert offset == end ==> Blocks(ext, offset, end) == [] by {
      BlocksStep(ext, 4 - 1, end);
    }
  }

  lemma {:induction false} VicsOfSum(a: seq<Block>, b: seq<Block>)
    ensures Vics(a + b) == Vics(a) + Vics(b)
  {
    if a == [] {
      assert a + b == b;
    } else {
      VicsOfSum(a[1..], b);
      assert (a + b)[1..] == a[1..] + b;
      hide Masked;
      Regroup(if a[0].tag == 2 then Masked(a[0].payload) else [], Vics(a[1..]), Vics(b), []);
    }
  }

  lemma DataBlocksStep(edid: seq<Octet>, index: nat)
    ensures index >= |edid| / EDID_BLOCK ==> DataBlocks(edid, index) == []
    ensures index < |edid| / EDID_BLOCK ==>
      var ext := edid[EDID_BLOCK * index..EDID_BLOCK * index + EDID_BLOCK];
      DataBlocks(edid, index)
        == (if ext[0] == 2 then Blocks(ext, 4, DataEnd(ext)) else []) + DataBlocks(edid, index + 1)
  {
  }

  method MesonDisplayChooseMode(modes: seq<Mode>, edid: seq<Octet>) returns (mode: Mode, hdmiSink: bool)
    requires Clocked(modes)
    ensures mode == Choice(modes, edid)
    ensures hdmiSink <==> |edid| >= EDID_BLOCK && AnyHdmi(DataBlocks(edid, 1))
  {
    hide Blocks, DataBlocks, DataEnd, Wish, AnyHdmi, DetailedMode;
    hdmiSink := false;
    if |edid| < EDID_BLOCK {
      return MODE_720P, hdmiSink;
    }
    var detailed := FindDetailedTimingMode(modes, edid);
    var selected := None;
    WishOfOne(modes, Block(0, []));
    for index := 1 to |edid| / EDID_BLOCK
      invariant Or(selected, Wish(modes, DataBlocks(edid, index))) == Wish(modes, DataBlocks(edid, 1))
      invariant hdmiSink || AnyHdmi(DataBlocks(edid, index)) <==> AnyHdmi(DataBlocks(edid, 1))
    {
      DataBlocksStep(edid, index);
      var ext := edid[EDID_BLOCK * index..EDID_BLOCK * index + EDID_BLOCK];
      if ext[0] != 2 {
        WishOfSum(modes, [], DataBlocks(edid, index + 1));
        continue;
      }
      WishOfSum(modes, Blocks(ext, 4, DataEnd(ext)), DataBlocks(edid, index + 1));
      selected, hdmiSink := ScanExtension(modes, ext, selected, hdmiSink);
    }
    DataBlocksStep(edid, |edid| / EDID_BLOCK);
    if selected == None {
      selected := detailed;
    }
    return if selected == None then MODE_720P else selected.value, hdmiSink;
  }

  // ---- Order of the detailed timings ---------------------------------------------

  /** What one descriptor asks for, its 16:9 twin preferred. */
  function Described(modes: seq<Mode>, edid: seq<Octet>, k: nat): Option<Mode>
    requires |edid| >= EDID_BLOCK && k < 4
  {
    var t := TimingOf(Descriptor(edid, k));
    Or(FirstMode(modes, t, true, |modes|), FirstMode(modes, t, false, |modes|))
  }

  /** The descriptors in order, each with its twin preferred. */
  function InOrder(modes: seq<Mode>, edid: seq<Octet>, n: nat): Option<Mode>
    requires |edid| >= EDID_BLOCK && n <= 4
  {
    if n == 0 then None else Or(InOrder(modes, edid, n - 1), Described(modes, edid, n - 1))
  }

  predicate HasTwin(modes: seq<Mode>, edid: seq<Octet>, k: nat)
    requires |edid| >= EDID_BLOCK && k < 4
  {
    FirstMode(modes, TimingOf(Descriptor(edid, k)), true, |modes|) != None
  }

  /** Descriptor k asks for a mode, none up to it has a twin, and a later one has. */
  ghost predicate Overtaken(modes: seq<Mode>, edid: seq<Octet>)
    requires |edid| >= EDID_BLOCK
  {
    exists k, n :: 0 <= k < n < 4 && Described(modes, edid, k) != None && HasTwin(modes, edid, n)
                   && forall l :: 0 <= l <= k ==> !HasTwin(modes, edid, l)
  }

  lemma {:induction false} InOrderIsFirst(modes: seq<Mode>, edid: seq<Octet>, n: nat)
    requires |edid| >= EDID_BLOCK && n <= 4
    ensures InOrder(modes, edid, n) == None <==> forall l :: 0 <= l < n ==> Described(modes, edid, l) == None
    ensures InOrder(modes, edid, n) != None ==>
      exists k :: 0 <= k < n && InOrder(modes, edid, n) == Described(modes, edid, k)
                  && forall l :: 0 <= l < k ==> Described(modes, edid, l) == None
  {
    hide Described;
    if n > 0 {
      InOrderIsFirst(modes, edid, n - 1);
    }
  }

  lemma {:induction false} FirstTwin(modes: seq<Mode>, edid: seq<Octet>, n: nat)
    requires |edid| >= EDID_BLOCK && n <= 4
    ensures FirstDescribed(modes, edid, true, n) == None <==> forall l :: 0 <= l < n ==> !HasTwin(modes, edid, l)
    ensures FirstDescribed(modes, edid, true, n) == None ==>
              FirstDescribed(modes, edid, false, n) == InOrder(modes, edid, n)
    ensures FirstDescribed(modes, edid, true, n) != None ==>
      exists p :: 0 <= p < n && HasTwin(modes, edid, p) && FirstDescribed(modes, edid, true, n) == Described(modes, edid, p)
                  && forall l :: 0 <= l < p ==> !HasTwin(modes, edid, l)
  {
    if n > 0 {
      FirstTwin(modes, edid, n - 1);
      assert HasTwin(modes, edid, n - 1) ==> Described(modes, edid, n - 1) != None;
    }
  }

  /** Exactly the descriptors with a twin give a 16:9 mode. */
  lemma TwinIsAlias(modes: seq<Mode>, edid: seq<Octet>, k: nat)
    requires |edid| >= EDID_BLOCK && k < 4 && Described(modes, edid, k) != None
    ensures Described(modes, edid, k).value.Alias() <==> HasTwin(modes, edid, k)
  {
    FirstModeIsFirst(modes, TimingOf(Descriptor(edid, k)), true, |modes|);
    FirstModeIsFirst(modes, TimingOf(Descriptor(edid, k)), false, |modes|);
  }

  /** The driver's choice follows the order of the descriptors exactly when no
      twin-timed descriptor overtakes an earlier one. */
  lemma OrderKept(modes: seq<Mode>, edid: seq<Octet>)
    requires |edid| >= EDID_BLOCK
    ensures DetailedMode(modes, edid) == InOrder(modes, edid, 4) <==> !Overtaken(modes, edid)
  {
    hide Described, HasTwin;
    InOrderIsFirst(modes, edid, 4);
    FirstTwin(modes, edid, 4);
    if FirstDescribed(modes, edid, true, 4) != None {
      var p :| 0 <= p < 4 && HasTwin(modes, edid, p) && FirstDescribed(modes, edid, true, 4) == Described(modes, edid, p)
               && forall l :: 0 <= l < p ==> !HasTwin(modes, edid, l);
      assert Described(modes, edid, p) != None;
      var k :| 0 <= k < 4 && InOrder(modes, edid, 4) == Described(modes, edid, k)
               && forall l :: 0 <= l < k ==> Described(modes, edid, l) == None;
      TwinOrPlain(modes, edid, k, p);
    }
  }

  /** The first match k and the first twin p: the same descriptor, or overtaken. */
  lemma TwinOrPlain(modes: seq<Mode>, edid: seq<Octet>, k: nat, p: nat)
    requires |edid| >= EDID_BLOCK && k < 4 && p < 4 && Described(modes, edid, k) != None
    requires HasTwin(modes, edid, p) && forall l :: 0 <= l < p ==> !HasTwin(modes, edid, l)
    requires Described(modes, edid, p) != None && forall l :: 0 <= l < k ==> Described(modes, edid, l) == None
    ensures Described(modes, edid, k) == Described(modes, edid, p) <==> !Overtaken(modes, edid)
  {
    TwinIsAlias(modes, edid, p);
    TwinIsAlias(modes, edid, k);
    hide Described, HasTwin;
    assert k < p ==> Overtaken(modes, edid);
  }

  const DTD_1080P: seq<Octet> := [0x02, 0x3A, 0x80, 0x18, 0x71, 0x38, 0x2D, 0x40, 0, 0, 0, 0, 0, 0, 0, 0, 0, 0x1E]
  const DTD_480P: seq<Octet> := [0x8C, 0x0A, 0xD0, 0x8A, 0x20, 0xE0, 0x2D, 0x10, 0, 0, 0, 0, 0, 0, 0, 0, 0, 0x1E]

  /** The timings of a monitor that lists 1080p60 before 480p give 480p, where their
      order asks for 1080p60; with no supported code in an extension that is the mode. */
  lemma LaterTwinWins(edid: seq<Octet>)
    requires |edid| >= EDID_BLOCK && Descriptor(edid, 0) == DTD_1080P && Descriptor(edid, 1) == DTD_480P
    ensures Overtaken(SUPPORTED, edid)
    ensures DetailedMode(SUPPORTED, edid) == Some(SUPPORTED[1])
    ensures InOrder(SUPPORTED, edid, 4) == Some(SUPPORTED[6])
    ensures Wish(SUPPORTED, DataBlocks(edid, 1)) == None ==> Choice(SUPPORTED, edid) == SUPPORTED[1]
  {
    hide FirstMode, TimingOf, Overtaken, DetailedMode, InOrder;
    TimingsOfDescriptors();
    TwinsAreNarrow(Timing(148500, 1920, 1080, 280, 45, false));
    BothSupported();
    OvertakenBy(SUPPORTED, edid, Timing(148500, 1920, 1080, 280, 45, false), Timing(27000, 720, 480, 138, 45, false));
  }

  lemma OvertakenBy(modes: seq<Mode>, edid: seq<Octet>, first: Timing, second: Timing)
    requires |edid| >= EDID_BLOCK
    requires TimingOf(Descriptor(edid, 0)) == first && TimingOf(Descriptor(edid, 1)) == second
    requires FirstMode(modes, first, true, |modes|) == None && FirstMode(modes, first, false, |modes|) != None
    requires FirstMode(modes, second, true, |modes|) != None
    ensures Overtaken(modes, edid)
    ensures DetailedMode(modes, edid) == FirstMode(modes, second, true, |modes|)
    ensures InOrder(modes, edid, 4) == FirstMode(modes, first, false, |modes|)
  {
    hide FirstMode, TimingOf, Descriptor;
    assert Described(modes, edid, 0) != None && HasTwin(modes, edid, 1) && !HasTwin(modes, edid, 0);
    assert FirstDescribed(modes, edid, true, 1) == None;
    assert FirstDescribed(modes, edid, true, 2) == FirstMode(modes, second, true, |modes|);
    assert FirstDescribed(modes, edid, true, 3) == FirstDescribed(modes, edid, true, 2);
    assert InOrder(modes, edid, 1) == FirstMode(modes, first, false, |modes|);
    assert InOrder(modes, edid, 2) == InOrder(modes, edid, 1);
    assert InOrder(modes, edid, 3) == InOrder(modes, edid, 2);
  }

  lemma BothSupported()
    ensures FirstMode(SUPPORTED, Timing(148500, 1920, 1080, 280, 45, false), false, |SUPPORTED|) == Some(SUPPORTED[6])
    ensures FirstMode(SUPPORTED, Timing(27000, 720, 480, 138, 45, false), true, |SUPPORTED|) == Some(SUPPORTED[1])
  {
    TimingsOfModes();
    Found(SUPPORTED, SUPPORTED[6].Asked(), false, 6);
    Found(SUPPORTED, SUPPORTED[1].Asked(), true, 1);
  }

  lemma TwinsAreNarrow(t: Timing)
    requires t.width > 720
    ensures FirstMode(SUPPORTED, t, true, |SUPPORTED|) == None
  {
    forall i | 0 <= i < |SUPPORTED| ensures !Wanted(SUPPORTED[i], t, true) {
    }
    FirstModeIsFirst(SUPPORTED, t, true, |SUPPORTED|);
  }

  lemma Found(modes: seq<Mode>, t: Timing, aliasOnly: bool, i: nat)
    requires i < |modes| && Wanted(modes[i], t, aliasOnly)
    requires forall j :: 0 <= j < i ==> !Wanted(modes[j], t, aliasOnly)
    ensures FirstMode(modes, t, aliasOnly, |modes|) == Some(modes[i])
  {
    FirstModeIsFirst(modes, t, aliasOnly, |modes|);
  }

  /** The twins are the modes that repeat the timing of the entry before them, and no
      other two entries share a timing. */
  lemma TwinsRepeat(i: nat, j: nat)
    requires j < i < |SUPPORTED|
    ensures SUPPORTED[i].Asked() == SUPPORTED[j].Asked() <==> SUPPORTED[i].Alias() && j == i - 1
  {
  }

  lemma SupportedAreClocked()
    ensures Clocked(SUPPORTED) && Clocked([MODE_720P])
  {
  }

  lemma TimingsOfModes()
    ensures SUPPORTED[6].Asked() == Timing(148500, 1920, 1080, 280, 45, false)
    ensures SUPPORTED[1].Asked() == Timing(27000, 720, 480, 138, 45, false) && SUPPORTED[1].Alias()
  {
  }

  lemma TimingsOfDescriptors()
    ensures TimingOf(DTD_1080P) == Timing(148500, 1920, 1080, 280, 45, false)
    ensures TimingOf(DTD_480P) == Timing(27000, 720, 480, 138, 45, false)
  {
  }
}
