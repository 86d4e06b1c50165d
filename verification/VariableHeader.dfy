/** The header of the variable store: what MesonSpifcFvbDxe writes when it formats
    the store, and the test by which it decides at boot whether to format it.
    The firmware-volume header is the one of section 3.2.1 of PI 1.7 Volume 3; the
    two GUIDs and the attribute word are defined outside the driver. */
module VariableHeader {
  import opened NorFlash

  const FVH_REVISION: Byte := 0x02
  const FV_HEADER_LENGTH := 72
  const HEADERS_SIZE := 104
  const STORE_FORMATTED: Byte := 0x5A
  const STORE_HEALTHY: Byte := 0xFE

  /** Values from outside the driver. */
  datatype Platform = Platform(nvDataGuid: seq<Byte>, variableGuid: seq<Byte>, attributes: seq<Byte>) {
    predicate Valid() {
      |nvDataGuid| == 16 && |variableGuid| == 16 && |attributes| == 4
    }
  }

  const HEADER_LENGTH_FIELD: seq<Byte> := [0x48, 0]

  /** The k-th little-endian 16-bit word. */
  function WordAt(b: seq<Byte>, k: nat): int
    requires 2 * k + 1 < |b|
  {
    Number(b[2 * k]) + 0x100 * Number(b[2 * k + 1])
  }

  /** The sum of the first `n` words; CalculateSum16 is this modulo 0x10000. */
  function WordSum(b: seq<Byte>, n: nat): int
    requires 2 * n <= |b|
  {
    if n == 0 then 0 else WordSum(b, n - 1) + WordAt(b, n - 1)
  }

  function Sum16(b: seq<Byte>, n: nat): (w: nat)
    requires 2 * n <= |b|
    ensures w < 0x1_0000
  {
    WordSum(b, n) % 0x1_0000
  }

  /** The firmware-volume header with a zero checksum. */
  function FvHeaderBody(p: Platform): (b: seq<Byte>)
    requires p.Valid()
    ensures |b| == FV_HEADER_LENGTH
  {
    var zeroVector := [0, 0, 0, 0, 0, 0, 0, 0, 0, 0, 0, 0, 0, 0, 0, 0];
    var fvLength := [0x00, 0x00, 0x0C, 0x00, 0x00, 0x00, 0x00, 0x00];
    var signature := [0x5F, 0x46, 0x56, 0x48];
    var headerLength := HEADER_LENGTH_FIELD;
    var checksumExtReservedRevision := [0, 0, 0, 0, 0, FVH_REVISION];
    var blockMap := [0xC0, 0, 0, 0, 0x00, 0x10, 0, 0];
    var endBlockMap := [0, 0, 0, 0, 0, 0, 0, 0];
    zeroVector + p.nvDataGuid + fvLength + signature + p.attributes + headerLength
      + checksumExtReservedRevision + blockMap + endBlockMap
  }

  /** The variable-store header and the structure's tail padding. */
  function StoreHeader(p: Platform): (b: seq<Byte>)
    requires p.Valid()
    ensures |b| == HEADERS_SIZE - FV_HEADER_LENGTH
  {
    p.variableGuid + [0xB8, 0xFF, 0x03, 0x00] + [STORE_FORMATTED, STORE_HEALTHY] + [0, 0, 0, 0, 0, 0]
      + [ERASED, ERASED, ERASED, ERASED]
  }

  function WithChecksum(b: seq<Byte>, w: nat): (c: seq<Byte>)
    requires |b| >= 52 && w < 0x1_0000
    ensures |c| == |b|
  {
    b[50 := ByteAt(w % 0x100)][51 := ByteAt(w / 0x100)]
  }

  /** CalculateCheckSum16: the two's complement of the sum. */
  function CheckSum16(b: seq<Byte>, n: nat): (w: nat)
    requires 2 * n <= |b|
    ensures w < 0x1_0000
  {
    (0x1_0000 - Sum16(b, n)) % 0x1_0000
  }

  function BuildVariableHeaders(p: Platform): (h: seq<Byte>)
    requires p.Valid()
    ensures |h| == HEADERS_SIZE
  {
    var body := FvHeaderBody(p);
    WithChecksum(body, CheckSum16(body, FV_HEADER_LENGTH / 2)) + StoreHeader(p)
  }

  predicate VariableHeadersValid(p: Platform, shadow: seq<Byte>)
    requires p.Valid() && |shadow| >= HEADERS_SIZE
  {
    && shadow[55] == FVH_REVISION
    && shadow[40..44] == [0x5F, 0x46, 0x56, 0x48]
    && shadow[32..40] == [0x00, 0x00, 0x0C, 0x00, 0x00, 0x00, 0x00, 0x00]
    && shadow[48..50] == HEADER_LENGTH_FIELD
    && shadow[16..32] == p.nvDataGuid
    && Sum16(shadow, FV_HEADER_LENGTH / 2) == 0
    && shadow[72..88] == p.variableGuid
    && shadow[88..92] == [0xB8, 0xFF, 0x03, 0x00]
    && shadow[92] == STORE_FORMATTED
    && shadow[93] == STORE_HEALTHY
  }

  /** Sums depend only on the bytes summed. */
  lemma {:induction false} SumOfPrefix(a: seq<Byte>, b: seq<Byte>, n: nat)
    requires 2 * n <= |a| && 2 * n <= |b| && forall k :: 0 <= k < 2 * n ==> a[k] == b[k]
    ensures WordSum(a, n) == WordSum(b, n)
  {
    if n > 0 {
      SumOfPrefix(a, b, n - 1);
    }
  }

  /** Replacing a zero checksum word by w adds w to the sum. */
  lemma {:induction false} SumWithChecksum(b: seq<Byte>, w: nat, n: nat)
    requires |b| >= 52 && w < 0x1_0000 && 26 <= n && 2 * n <= |b| && b[50] == 0 && b[51] == 0
    ensures WordSum(WithChecksum(b, w), n) == WordSum(b, n) + w
  {
    var c := WithChecksum(b, w);
    if n == 26 {
      SumOfPrefix(b, c, 25);
      assert Number(b[50]) == Number(b[51]) == 0;
    } else {
      SumWithChecksum(b, w, n - 1);
    }
  }

  /** The header that the formatter builds passes the boot-time test, so formatting
      is never refused and a formatted store is never formatted again. */
  lemma BuiltHeadersAreValid(p: Platform, rest: seq<Byte>)
    requires p.Valid()
    ensures VariableHeadersValid(p, BuildVariableHeaders(p) + rest)
  {
    FvFields(p, rest);
    StoreFields(p, rest);
    BuiltSum(p, rest);
  }

  /** The bytes the test looks at one by one; the others are only summed. */
  predicate Tested(k: nat) {
    16 <= k < 44 || 48 <= k < 50 || k == 55 || 72 <= k < 94
  }

  /** What the test means: the words of the firmware-volume header sum to zero, and the
      tested bytes are those of the header the formatter builds. */
  lemma ValidIsLikeBuilt(p: Platform, shadow: seq<Byte>)
    requires p.Valid() && |shadow| >= HEADERS_SIZE
    ensures VariableHeadersValid(p, shadow) <==>
      && WordSum(shadow, FV_HEADER_LENGTH / 2) % 0x1_0000 == 0
      && forall k :: 0 <= k < HEADERS_SIZE && Tested(k) ==> shadow[k] == BuildVariableHeaders(p)[k]
  {
    hide WordSum, BuildVariableHeaders;
    var built := BuildVariableHeaders(p);
    FvFields(p, []);
    StoreFields(p, []);
    assert built + [] == built;
    if VariableHeadersValid(p, shadow) {
      forall k | 0 <= k < HEADERS_SIZE && Tested(k) ensures shadow[k] == built[k] {
        SameField(shadow, built, 16, 32, k);
        SameField(shadow, built, 32, 40, k);
        SameField(shadow, built, 40, 44, k);
        SameField(shadow, built, 48, 50, k);
        SameField(shadow, built, 72, 88, k);
        SameField(shadow, built, 88, 92, k);
      }
    }
  }

  /** What the formatter writes where the test does not look, the checksum apart: the
      attributes, a block map of 192 blocks of 4 KiB with its end, and zeros. */
  lemma BuiltUntested(p: Platform)
    requires p.Valid()
    ensures var h := BuildVariableHeaders(p);
      && (forall k :: 0 <= k < 16 || 52 <= k < 55 || 64 <= k < 72 || 94 <= k < 100 ==> h[k] == 0)
      && h[44..48] == p.attributes
      && WordAt(h, 28) == 192 && WordAt(h, 29) == 0 && WordAt(h, 30) == 4096 && WordAt(h, 31) == 0
      && forall k :: 100 <= k < HEADERS_SIZE ==> h[k] == ERASED
  {
  }

  lemma {:induction false} SumOfZeros(b: seq<Byte>, n: nat)
    requires 2 * n <= |b| && forall k :: 0 <= k < 2 * n ==> b[k] == 0
    ensures WordSum(b, n) == 0
  {
    if n > 0 {
      SumOfZeros(b, n - 1);
      assert b[2 * (n - 1)] == 0 && b[2 * (n - 1) + 1] == 0;
    }
  }

  lemma SameField(a: seq<Byte>, b: seq<Byte>, lo: nat, hi: nat, k: nat)
    requires lo <= hi <= |a| && hi <= |b|
    ensures a[lo..hi] == b[lo..hi] && lo <= k < hi ==> a[k] == b[k]
  {
    if a[lo..hi] == b[lo..hi] && lo <= k < hi {
      assert a[lo..hi][k - lo] == b[lo..hi][k - lo];
    }
  }

  lemma BuiltSum(p: Platform, rest: seq<Byte>)
    requires p.Valid()
    ensures Sum16(BuildVariableHeaders(p) + rest, FV_HEADER_LENGTH / 2) == 0
  {
    hide WordSum, WithChecksum, StoreHeader;
    var body := FvHeaderBody(p);
    assert body[50] == 0 && body[51] == 0;
    hide FvHeaderBody;
    var w := CheckSum16(body, FV_HEADER_LENGTH / 2);
    SumWithChecksum(body, w, FV_HEADER_LENGTH / 2);
    SumOfPrefix(WithChecksum(body, w), BuildVariableHeaders(p) + rest, FV_HEADER_LENGTH / 2);
  }

  lemma FvFields(p: Platform, rest: seq<Byte>)
    requires p.Valid()
    ensures var all := BuildVariableHeaders(p) + rest;
      && all[55] == FVH_REVISION && all[40..44] == [0x5F, 0x46, 0x56, 0x48]
      && all[32..40] == [0x00, 0x00, 0x0C, 0x00, 0x00, 0x00, 0x00, 0x00]
      && all[48..50] == HEADER_LENGTH_FIELD
      && all[16..32] == p.nvDataGuid
  {
  }

  lemma StoreFields(p: Platform, rest: seq<Byte>)
    requires p.Valid()
    ensures var all := BuildVariableHeaders(p) + rest;
      && all[72..88] == p.variableGuid && all[88..92] == [0xB8, 0xFF, 0x03, 0x00]
      && all[92] == STORE_FORMATTED && all[93] == STORE_HEALTHY
  {
  }
}
