/**
 * The capture tool's format table, the selection of a format by name, and
 * the two shift-and-mask decodings it prints: a fourcc's four characters
 * and a driver version's three components.
 *
 * The fourcc constants are those Linux's `videodev2.h` builds with
 * `v4l2_fourcc(a, b, c, d)`: `a | b << 8 | c << 16 | d << 24`.
 */
module V4l2Formats {
  import opened Common

  // ---- fourcc codes -------------------------------------------------------

  /** `v4l2_fourcc`: character 0 is the low byte. */
  function Fourcc(c0: bv8, c1: bv8, c2: bv8, c3: bv8): bv32
  {
    (c0 as bv32) | ((c1 as bv32) << 8) | ((c2 as bv32) << 16) | ((c3 as bv32) << 24)
  }

  /** The four characters `%c%c%c%c` prints: `(x >> 8k) & 0xFF` for k = 0..3. */
  function FourccChars(x: bv32): (r: seq<bv8>)
    ensures |r| == 4
  {
    [(x & 0xFF) as bv8, ((x >> 8) & 0xFF) as bv8, ((x >> 16) & 0xFF) as bv8, ((x >> 24) & 0xFF) as bv8]
  }

  /** Decoding recovers the characters a code was built from. */
  lemma FourccCharsOfFourcc(c0: bv8, c1: bv8, c2: bv8, c3: bv8)
    ensures FourccChars(Fourcc(c0, c1, c2, c3)) == [c0, c1, c2, c3]
  {
  }

  /** Every 32-bit value is the code of its four decoded characters. */
  lemma FourccOfFourccChars(x: bv32)
    ensures var c := FourccChars(x); Fourcc(c[0], c[1], c[2], c[3]) == x
  {
  }

  const YUYV: bv32 := Fourcc('Y' as bv8, 'U' as bv8, 'Y' as bv8, 'V' as bv8)
  const MJPEG: bv32 := Fourcc('M' as bv8, 'J' as bv8, 'P' as bv8, 'G' as bv8)
  const NV12: bv32 := Fourcc('N' as bv8, 'V' as bv8, '1' as bv8, '2' as bv8)
  const NV21: bv32 := Fourcc('N' as bv8, 'V' as bv8, '2' as bv8, '1' as bv8)
  const YUV420: bv32 := Fourcc('Y' as bv8, 'U' as bv8, '1' as bv8, '2' as bv8)

  /** The five codes are pairwise different. */
  lemma CodesDistinct()
    ensures YUYV != MJPEG && YUYV != NV12 && YUYV != NV21 && YUYV != YUV420
    ensures MJPEG != NV12 && MJPEG != NV21 && MJPEG != YUV420
    ensures NV12 != NV21 && NV12 != YUV420 && NV21 != YUV420
  {
  }

  // ---- driver version -----------------------------------------------------

  datatype Version = Version(major: bv32, minor: bv32, patch: bv32)

  /** `Version: %u.%u.%u` of `cap->version`. */
  function DecodeVersion(v: bv32): (r: Version)
    ensures r.major < 256 && r.minor < 256 && r.patch < 256
  {
    Version((v >> 16) & 0xFF, (v >> 8) & 0xFF, v & 0xFF)
  }

  /** Linux's `KERNEL_VERSION(a, b, c)`, the encoding drivers report. */
  function EncodeVersion(ver: Version): bv32
  {
    (ver.major << 16) + (ver.minor << 8) + ver.patch
  }

  /** Components below 256 survive an encode and a decode. */
  lemma DecodeEncodeVersion(ver: Version)
    requires ver.major < 256 && ver.minor < 256 && ver.patch < 256
    ensures DecodeVersion(EncodeVersion(ver)) == ver
  {
  }

  /** Decoding keeps the low 24 bits and nothing else. */
  lemma EncodeDecodeVersion(v: bv32)
    ensures EncodeVersion(DecodeVersion(v)) == v & 0xFF_FFFF
  {
  }

  // ---- the format table ---------------------------------------------------

  /** One `format_entry`; `name` is `None` in the terminating entry. */
  datatype FormatEntry = FormatEntry(name: Option<string>, fourcc: bv32, multiplanar: int)

  /** `supported_formats`, its `{NULL, 0, 0}` sentinel included. */
  const SupportedFormats: seq<FormatEntry> := [
    FormatEntry(Some("YUYV"), YUYV, 0),
    FormatEntry(Some("MJPG"), MJPEG, 0),
    FormatEntry(Some("NV12"), NV12, 1),
    FormatEntry(Some("NV21"), NV21, 1),
    FormatEntry(Some("YUV420"), YUV420, 1),
    FormatEntry(None, 0, 0)
  ]

  /** `tolower` in the C locale: only `A`-`Z` change. */
  function Lower(c: char): char
  {
    if 'A' <= c <= 'Z' then (c as int + 32) as char else c
  }

  /** `strcasecmp(a, b) == 0` for names without NUL characters, as C strings are. */
  predicate CaseEq(a: string, b: string)
  {
    |a| == |b| && forall k :: 0 <= k < |a| ==> Lower(a[k]) == Lower(b[k])
  }

  /** The index of the first entry from `i` on whose name matches, stopping at a sentinel. */
  function FirstMatch(table: seq<FormatEntry>, name: string, i: nat): (r: Option<nat>)
    decreases |table| - i
    ensures r.Some? ==> (i <= r.value < |table| && table[r.value].name.Some?
                         && CaseEq(name, table[r.value].name.value))
  {
    if i >= |table| || table[i].name.None? then None
    else if CaseEq(name, table[i].name.value) then Some(i)
    else FirstMatch(table, name, i + 1)
  }

  /** A table with a sentinel: the lookup stops there and never looks further. */
  lemma {:induction false} FirstMatchStopsAtSentinel(table: seq<FormatEntry>, rest: seq<FormatEntry>, name: string, i: nat)
    requires exists s :: i <= s < |table| && table[s].name.None?
    ensures FirstMatch(table + rest, name, i) == FirstMatch(table, name, i)
    ensures FirstMatch(table, name, i).Some? ==>
      forall s :: i <= s <= FirstMatch(table, name, i).value ==> table[s].name.Some?
    decreases |table| - i
  {
    var t := table + rest;
    assert t[i] == table[i];
    if table[i].name.Some? && !CaseEq(name, table[i].name.value) {
      var s :| i <= s < |table| && table[s].name.None?;
      assert s != i;
      FirstMatchStopsAtSentinel(table, rest, name, i + 1);
    }
  }

  /** The process-wide `pixel_format` and `is_multiplanar`. */
  class CaptureFormat {
    var pixelFormat: bv32
    var isMultiplanar: int

    /** The initial values: YUYV, single-planar. */
    constructor()
      ensures pixelFormat == YUYV && isMultiplanar == 0
    {
      pixelFormat, isMultiplanar := YUYV, 0;
    }

    /** `set_format_by_name`: the walk over `supported_formats`. */
    method SetFormatByName(name: string) returns (r: int)
      modifies this
      ensures var m := FirstMatch(SupportedFormats, name, 0);
        && (r == 1 <==> m.Some?) && (r == 0 <==> m.None?)
        && (m.Some? ==> (pixelFormat == SupportedFormats[m.value].fourcc
                         && isMultiplanar == SupportedFormats[m.value].multiplanar))
        && (m.None? ==> pixelFormat == old(pixelFormat) && isMultiplanar == old(isMultiplanar))
    {
      var table := SupportedFormats;
      var i := 0;
      while table[i].name.Some?
        invariant 0 <= i <= 5
        invariant FirstMatch(table, name, 0) == FirstMatch(table, name, i)
        decreases 5 - i
      {
        if CaseEq(name, table[i].name.value) {
          pixelFormat := table[i].fourcc;
          isMultiplanar := table[i].multiplanar;
          return 1;
        }
        i := i + 1;
      }
      return 0;
    }
  }

  // ---- what the lookup promises ------------------------------------------

  /** The names in table order. */
  const Names: seq<string> := ["YUYV", "MJPG", "NV12", "NV21", "YUV420"]

  /** A name is accepted exactly when it equals one of the five, ignoring ASCII case. */
  lemma SetFormatAcceptsIff(name: string)
    ensures FirstMatch(SupportedFormats, name, 0).Some? <==>
      exists k :: 0 <= k < |Names| && CaseEq(name, Names[k])
    ensures FirstMatch(SupportedFormats, name, 0).Some? ==>
      var k := FirstMatch(SupportedFormats, name, 0).value;
      k < |Names| && CaseEq(name, Names[k])
  {
    var t := SupportedFormats;
    assert forall k :: 0 <= k < |Names| ==> t[k].name == Some(Names[k]);
    assert FirstMatch(t, name, 5) == None;
    if exists k :: 0 <= k < |Names| && CaseEq(name, Names[k]) {
      var k :| 0 <= k < |Names| && CaseEq(name, Names[k]);
      FirstMatchReaches(t, name, 0, k);
    }
  }

  /** If entry `k` matches and nothing between `i` and `k` is a sentinel, the lookup from `i` finds something. */
  lemma {:induction false} FirstMatchReaches(table: seq<FormatEntry>, name: string, i: nat, k: nat)
    requires i <= k < |table| && table[k].name.Some? && CaseEq(name, table[k].name.value)
    requires forall s :: i <= s < k ==> table[s].name.Some?
    ensures FirstMatch(table, name, i).Some? && FirstMatch(table, name, i).value <= k
    decreases k - i
  {
    if i < k && !CaseEq(name, table[i].name.value) {
      FirstMatchReaches(table, name, i + 1, k);
    }
  }

  /** The multi-planar flag found is 1 exactly for NV12, NV21 and YUV420. */
  lemma MultiplanarExactly(name: string)
    requires FirstMatch(SupportedFormats, name, 0).Some?
    ensures var e := SupportedFormats[FirstMatch(SupportedFormats, name, 0).value];
      (e.multiplanar == 1 <==> e.fourcc in {NV12, NV21, YUV420}) && (e.multiplanar == 0 <==> e.fourcc in {YUYV, MJPEG})
  {
    CodesDistinct();
  }

  /** Lower-case input selects the same entry: "nv12" picks NV12, multi-planar. */
  lemma LowerCaseNv12()
    ensures FirstMatch(SupportedFormats, "nv12", 0) == Some(2)
    ensures SupportedFormats[2].fourcc == NV12 && SupportedFormats[2].multiplanar == 1
  {
    var t, n := SupportedFormats, "nv12";
    assert Lower(n[0]) == 'n' && Lower('Y') == 'y' && Lower('M') == 'm';
    assert !CaseEq(n, "YUYV");
    assert !CaseEq(n, "MJPG");
    assert Lower('N') == 'n' && Lower('V') == 'v' && Lower(n[1]) == 'v';
    assert CaseEq(n, "NV12");
    assert FirstMatch(t, n, 2) == Some(2);
    assert FirstMatch(t, n, 1) == Some(2);
  }

  /** "YUV42" is a proper prefix of a name and matches nothing. */
  lemma PrefixRejected()
    ensures FirstMatch(SupportedFormats, "YUV42", 0).None?
  {
    SetFormatAcceptsIff("YUV42");
  }
}
