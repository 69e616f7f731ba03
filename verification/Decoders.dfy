/**
  Pure decoders from raw device-settings values to the plugin's own types:
  HDR capability bits, the frame-rate table, the two HDCP switches, the EDID
  size bytes and the arithmetic of EDID export (16-bit size, padding to a
  multiple of 3).
*/
module Decoders {
  import opened DeviceSettings

  datatype Option<T> = None | Some(value: T)

  /** `Exchange::IHDRProperties::HDRType`. */
  datatype HdrType = HdrOff | Hdr10 | HdrHlg | HdrDolbyVision | HdrTechnicolor

  /** `Exchange::IConnectionProperties::HDCPProtectionType`. */
  datatype HdcpProtectionType = Hdcp1X | Hdcp2X | HdcpAuto

  // dsHDRSTANDARD_* bits of the device-settings type header.
  const HdrStandardNone: bv32 := 0x00
  const HdrStandardHdr10: bv32 := 0x01
  const HdrStandardHlg: bv32 := 0x02
  const HdrStandardDolbyVision: bv32 := 0x04
  const HdrStandardTechnicolorPrime: bv32 := 0x08
  const HdrStandardInvalid: bv32 := 0x80

  // ---------------------------------------------------------------- HDR bits

  /** One independent bit test: `[t]` when the test holds, `[]` otherwise. */
  function When(test: bool, t: HdrType): seq<HdrType>
  {
    if test then [t] else []
  }

  /**
    The list of HDR formats a capability mask stands for, built by six
    independent tests in a fixed order: OFF for an empty mask, then HDR10,
    HLG, Dolby Vision and Technicolor for their bits, then OFF again for the
    invalid bit.
  */
  function HdrTypes(mask: bv32): (r: seq<HdrType>)
    ensures HdrOff in r <==> mask == HdrStandardNone || mask & HdrStandardInvalid != 0
    ensures Hdr10 in r <==> mask & HdrStandardHdr10 != 0
    ensures HdrHlg in r <==> mask & HdrStandardHlg != 0
    ensures HdrDolbyVision in r <==> mask & HdrStandardDolbyVision != 0
    ensures HdrTechnicolor in r <==> mask & HdrStandardTechnicolorPrime != 0
  {
    When(mask == HdrStandardNone, HdrOff)
    + When(mask & HdrStandardHdr10 != 0, Hdr10)
    + When(mask & HdrStandardHlg != 0, HdrHlg)
    + When(mask & HdrStandardDolbyVision != 0, HdrDolbyVision)
    + When(mask & HdrStandardTechnicolorPrime != 0, HdrTechnicolor)
    + When(mask & HdrStandardInvalid != 0, HdrOff)
  }

  /**
    Position of a format in the fixed test order.  OFF ranks last: it comes
    first only when the mask is empty, and then it is the only element.
  */
  function Rank(t: HdrType): nat
  {
    match t
    case Hdr10 => 1
    case HdrHlg => 2
    case HdrDolbyVision => 3
    case HdrTechnicolor => 4
    case HdrOff => 5
  }

  /** Strictly increasing by rank, hence also free of duplicates. */
  predicate Ascending(s: seq<HdrType>)
  {
    forall i, j :: 0 <= i < j < |s| ==> Rank(s[i]) < Rank(s[j])
  }

  lemma ExtendAscending(s: seq<HdrType>, test: bool, t: HdrType)
    requires Ascending(s)
    requires forall i :: 0 <= i < |s| ==> Rank(s[i]) < Rank(t)
    ensures Ascending(s + When(test, t))
    ensures forall i :: 0 <= i < |s + When(test, t)| ==> Rank((s + When(test, t))[i]) <= Rank(t)
  {
  }

  /** An empty mask decodes to exactly `[HDR_OFF]`. */
  lemma HdrTypesOfNone()
    ensures HdrTypes(HdrStandardNone) == [HdrOff]
  {
    assert HdrStandardNone & HdrStandardInvalid == 0;
  }

  /**
    The decoded list follows the test order strictly, so no format (OFF
    included) appears twice: an empty mask has no invalid bit.
  */
  lemma HdrTypesAscending(mask: bv32)
    ensures Ascending(HdrTypes(mask))
    ensures forall i, j :: 0 <= i < j < |HdrTypes(mask)| ==> HdrTypes(mask)[i] != HdrTypes(mask)[j]
  {
    if mask == HdrStandardNone {
      HdrTypesOfNone();
    } else {
      var s: seq<HdrType> := [];
      assert When(mask == HdrStandardNone, HdrOff) == s;
      ExtendAscending(s, mask & HdrStandardHdr10 != 0, Hdr10);
      s := s + When(mask & HdrStandardHdr10 != 0, Hdr10);
      ExtendAscending(s, mask & HdrStandardHlg != 0, HdrHlg);
      s := s + When(mask & HdrStandardHlg != 0, HdrHlg);
      ExtendAscending(s, mask & HdrStandardDolbyVision != 0, HdrDolbyVision);
      s := s + When(mask & HdrStandardDolbyVision != 0, HdrDolbyVision);
      ExtendAscending(s, mask & HdrStandardTechnicolorPrime != 0, HdrTechnicolor);
      s := s + When(mask & HdrStandardTechnicolorPrime != 0, HdrTechnicolor);
      ExtendAscending(s, mask & HdrStandardInvalid != 0, HdrOff);
      s := s + When(mask & HdrStandardInvalid != 0, HdrOff);
      assert s == HdrTypes(mask);
    }
  }

  /** A nonzero mask with none of the five recognised bits decodes to the empty list. */
  lemma HdrTypesEmpty(mask: bv32)
    ensures HdrTypes(mask) == [] <==>
              mask != HdrStandardNone && mask & HdrStandardHdr10 == 0 && mask & HdrStandardHlg == 0
              && mask & HdrStandardDolbyVision == 0 && mask & HdrStandardTechnicolorPrime == 0
              && mask & HdrStandardInvalid == 0
  {
    var r := HdrTypes(mask);
    if r != [] {
      assert r[0] in r;
    }
  }

  // -------------------------------------------------------------- frame rate

  /**
    `UpdateFrameRate`'s table: the refresh rate in whole hertz, fractional
    rates truncated; `None` for every enumerator the table does not list.
  */
  function FrameRateHz(fr: FrameRate): (r: Option<nat>)
    ensures r.Some? <==> !(fr.Unknown? || fr.Other?)
    ensures r.Some? ==> r.value in {23, 24, 25, 29, 30, 50, 59, 60}
  {
    match fr
    case K24 => Some(24)
    case K25 => Some(25)
    case K30 => Some(30)
    case K60 => Some(60)
    case K23dot98 => Some(23)
    case K29dot97 => Some(29)
    case K50 => Some(50)
    case K59dot94 => Some(59)
    case _ => None
  }

  /** No two listed enumerators give the same rate. */
  lemma FrameRateHzInjective(a: FrameRate, b: FrameRate)
    requires FrameRateHz(a).Some? && FrameRateHz(a) == FrameRateHz(b)
    ensures a == b
  {
  }

  // -------------------------------------------------------------------- HDCP

  /** The getter's switch: device protocol version to tier; `None` for an unlisted version. */
  function HdcpTier(v: HdcpVersion): (r: Option<HdcpProtectionType>)
    ensures r.None? <==> v.OtherVersion?
  {
    match v
    case Version1X => Some(Hdcp1X)
    case Version2X => Some(Hdcp2X)
    case VersionMax => Some(HdcpAuto)
    case OtherVersion(_) => None
  }

  /** The setter's switch: tier to device protocol version. */
  function HdcpVersionOf(t: HdcpProtectionType): (v: HdcpVersion)
    ensures !v.OtherVersion?
  {
    match t
    case Hdcp1X => Version1X
    case Hdcp2X => Version2X
    case HdcpAuto => VersionMax
  }

  /** The two switches are mutually inverse over the three tiers. */
  lemma HdcpRoundTrip(t: HdcpProtectionType, v: HdcpVersion)
    ensures HdcpTier(HdcpVersionOf(t)) == Some(t)
    ensures HdcpTier(v).Some? ==> HdcpVersionOf(HdcpTier(v).value) == v
  {
  }

  // ------------------------------------------------------------ EDID offsets

  /** EDID byte offset of the maximum horizontal image size in centimetres. */
  const EdidMaxHorizontalSize: nat := 21
  /** EDID byte offset of the maximum vertical image size in centimetres. */
  const EdidMaxVerticalSize: nat := 22

  /**
    The byte at `offset` when the EDID is longer than the vertical-size offset,
    otherwise `current` unchanged: a short EDID leaves the caller's value as it
    was instead of zeroing it.
  */
  function SizeByte(edid: seq<uint8>, offset: nat, current: uint8): (r: uint8)
    requires offset <= EdidMaxVerticalSize
    ensures |edid| > EdidMaxVerticalSize ==> r == edid[offset]
    ensures |edid| <= EdidMaxVerticalSize ==> r == current
  {
    if |edid| > EdidMaxVerticalSize then edid[offset] else current
  }

  // ------------------------------------------------------------- EDID export

  /** The largest `uint16_t`. */
  const Uint16Max: nat := 0xFFFF

  /** ASCII "unknown": the EDID payload when none could be read. */
  const UnknownEdid: seq<uint8> := [0x75, 0x6E, 0x6B, 0x6E, 0x6F, 0x77, 0x6E]

  /** `uint16_t size = min(edidVec.size(), 65535)`. */
  function EdidSize(payload: seq<uint8>): (n: nat)
    ensures n <= Uint16Max && n <= |payload|
    ensures |payload| <= Uint16Max ==> n == |payload|
    ensures |payload| >= Uint16Max ==> n == Uint16Max
  {
    if |payload| < Uint16Max then |payload| else Uint16Max
  }

  /** The number of zero bytes the padding loop appends: `3 - size % 3`. */
  function PaddingLength(payload: seq<uint8>): (n: nat)
    ensures 1 <= n <= 3
    ensures (EdidSize(payload) + n) % 3 == 0
    ensures EdidSize(payload) % 3 == 0 <==> n == 3
  {
    3 - EdidSize(payload) % 3
  }

  function Zeros(n: nat): (z: seq<uint8>)
    ensures |z| == n && forall i :: 0 <= i < n ==> z[i] == 0
  {
    if n == 0 then [] else Zeros(n - 1) + [0]
  }

  /** The payload after the padding loop. */
  function PaddedEdid(payload: seq<uint8>): (r: seq<uint8>)
    ensures |r| == |payload| + PaddingLength(payload)
    ensures r[..|payload|] == payload
    ensures forall i :: |payload| <= i < |r| ==> r[i] == 0
  {
    payload + Zeros(PaddingLength(payload))
  }

  /** `size += paddingSize` on a `uint16_t`: the sum wraps modulo 65536. */
  function ExportSize(payload: seq<uint8>): (n: nat)
    ensures n <= |PaddedEdid(payload)|
  {
    (EdidSize(payload) + PaddingLength(payload)) % 0x1_0000
  }

  /**
    Below the 16-bit limit the export covers the whole padded payload, whose
    length is a multiple of 3 and grows by 1 to 3 bytes; a payload that is
    already a multiple of 3 still grows by 3.
  */
  lemma ExportSizeBelowLimit(payload: seq<uint8>)
    requires |payload| < Uint16Max
    ensures ExportSize(payload) == |PaddedEdid(payload)|
    ensures ExportSize(payload) % 3 == 0
    ensures |payload| < ExportSize(payload) <= |payload| + 3
    ensures |payload| % 3 == 0 ==> ExportSize(payload) == |payload| + 3
  {
    assert EdidSize(payload) == |payload|;
    assert |payload| + PaddingLength(payload) <= Uint16Max + 2;
    if |payload| == Uint16Max - 1 {
      assert |payload| % 3 == 2;
    }
    assert |payload| + PaddingLength(payload) < 0x1_0000;
  }

  /**
    At or above the 16-bit limit the size saturates at 65535, a multiple of 3,
    so 3 bytes are appended and the 16-bit sum wraps to 2.
  */
  lemma ExportSizeWraps(payload: seq<uint8>)
    requires |payload| >= Uint16Max
    ensures PaddingLength(payload) == 3
    ensures ExportSize(payload) == 2
  {
  }
}
