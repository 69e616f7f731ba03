/**
  The plugin's getters that are fixed conditionals over one driver snapshot,
  and the specification functions of the getters that loop or write through
  out-parameters (port selection, HDCP, frame-rate refresh, EDID payload).
  A thrown driver exception is a branch here: each getter catches it and
  falls back to its default.
*/
module Queries {
  import opened DeviceSettings
  import opened Decoders

  /** `Core::ERROR_NONE` and `Core::ERROR_GENERAL`. */
  datatype Status = ErrorNone | ErrorGeneral

  /** A getter's return code with the value of its out-parameter. */
  datatype Reply<T> = Reply(status: Status, value: T)

  // ------------------------------------------------------------ HDR getters

  /** The mask the TV query leaves in `capabilities`: NONE unless HDMI0 is connected and answers. */
  function TvHdrMask(dev: Device): bv32
  {
    if DisplayConnected(dev, HDMI0) && dev.outputs[HDMI0].tvHdrMask.Value?
    then dev.outputs[HDMI0].tvHdrMask.value
    else HdrStandardNone
  }

  /** The mask the STB query leaves in `capabilities`: NONE when video device 0 throws. */
  function StbHdrMask(dev: Device): bv32
  {
    if dev.stbHdrMask.Value? then dev.stbHdrMask.value else HdrStandardNone
  }

  /** HDR formats supported by the TV on HDMI0. */
  function TVCapabilities(dev: Device): (r: Reply<seq<HdrType>>)
    ensures r.status == ErrorNone
    ensures DisplayConnected(dev, HDMI0) && dev.outputs[HDMI0].tvHdrMask.Value? ==>
              r.value == HdrTypes(dev.outputs[HDMI0].tvHdrMask.value)
    ensures !(DisplayConnected(dev, HDMI0) && dev.outputs[HDMI0].tvHdrMask.Value?) ==> r.value == [HdrOff]
  {
    HdrTypesOfNone();
    Reply(ErrorNone, HdrTypes(TvHdrMask(dev)))
  }

  /** HDR formats supported by the set-top box (video device 0). */
  function STBCapabilities(dev: Device): (r: Reply<seq<HdrType>>)
    ensures r.status == ErrorNone
    ensures dev.stbHdrMask.Value? ==> r.value == HdrTypes(dev.stbHdrMask.value)
    ensures dev.stbHdrMask.Throws? ==> r.value == [HdrOff]
  {
    HdrTypesOfNone();
    Reply(ErrorNone, HdrTypes(StbHdrMask(dev)))
  }

  /**
    The TV and STB getters decode a mask the same way: the two bit-test
    sequences of the plugin are identical, and the model shares the one
    decoder `HdrTypes`, so equal masks give equal lists, in test order.
  */
  lemma CapabilitiesDecodeAlike(tv: Device, stb: Device)
    requires TvHdrMask(tv) == StbHdrMask(stb)
    ensures TVCapabilities(tv).value == STBCapabilities(stb).value
    ensures Ascending(TVCapabilities(tv).value)
  {
    HdrTypesAscending(TvHdrMask(tv));
  }

  /** The HDR format in use: HDR10 exactly when HDMI0 is connected and reports HDR output, otherwise OFF. */
  function HDRSetting(dev: Device): (r: Reply<HdrType>)
    ensures r.status == ErrorNone
    ensures r.value == HdrOff || r.value == Hdr10
    ensures r.value == Hdr10 <==> DisplayConnected(dev, HDMI0) && dev.outputs[HDMI0].outputHdr == Value(true)
  {
    var isHdr := DisplayConnected(dev, HDMI0) && dev.outputs[HDMI0].outputHdr == Value(true);
    Reply(ErrorNone, if isHdr then Hdr10 else HdrOff)
  }

  // -------------------------------------------------------- size in centimetres

  /** The EDID of HDMI0 when the port is found, reports a display and hands over its bytes. */
  function Hdmi0Edid(dev: Device): (r: Option<seq<uint8>>)
    ensures r.Some? ==> DisplayConnected(dev, HDMI0) && dev.outputs[HDMI0].edid == Value(r.value)
    ensures DisplayConnected(dev, HDMI0) && dev.outputs[HDMI0].edid.Value? ==> r.Some?
  {
    if DisplayConnected(dev, HDMI0) && dev.outputs[HDMI0].edid.Value?
    then Some(dev.outputs[HDMI0].edid.value)
    else None
  }

  /** True when HDMI0's EDID is long enough to hold both size bytes. */
  predicate DisplaySizeKnown(dev: Device)
  {
    Hdmi0Edid(dev).Some? && |Hdmi0Edid(dev).value| > EdidMaxVerticalSize
  }

  /** Horizontal screen size: EDID byte 21 when known, otherwise `width` unchanged. */
  function WidthInCentimeters(dev: Device, width: uint8): (r: Reply<uint8>)
    ensures r.status == ErrorNone
    ensures DisplaySizeKnown(dev) ==> r.value == Hdmi0Edid(dev).value[EdidMaxHorizontalSize]
    ensures !DisplaySizeKnown(dev) ==> r.value == width
  {
    match Hdmi0Edid(dev)
    case Some(edid) => Reply(ErrorNone, SizeByte(edid, EdidMaxHorizontalSize, width))
    case None => Reply(ErrorNone, width)
  }

  /** Vertical screen size: EDID byte 22 when known, otherwise `height` unchanged. */
  function HeightInCentimeters(dev: Device, height: uint8): (r: Reply<uint8>)
    ensures r.status == ErrorNone
    ensures DisplaySizeKnown(dev) ==> r.value == Hdmi0Edid(dev).value[EdidMaxVerticalSize]
    ensures !DisplaySizeKnown(dev) ==> r.value == height
  {
    match Hdmi0Edid(dev)
    case Some(edid) => Reply(ErrorNone, SizeByte(edid, EdidMaxVerticalSize, height))
    case None => Reply(ErrorNone, height)
  }

  /**
    The two sizes are available together or not at all: an EDID of at most 22
    bytes (a 10-byte one, say) leaves both caller values as they were, rather
    than zeroing them.
  */
  lemma SizesAvailableTogether(dev: Device, width: uint8, height: uint8)
    ensures (WidthInCentimeters(dev, width).value != width || HeightInCentimeters(dev, height).value != height)
              ==> DisplaySizeKnown(dev)
    ensures Hdmi0Edid(dev).Some? && |Hdmi0Edid(dev).value| <= EdidMaxVerticalSize ==>
              WidthInCentimeters(dev, width).value == width && HeightInCentimeters(dev, height).value == height
  {
  }

  // ------------------------------------------------------------ port selection

  /**
    What `PortName`'s loop finds from position `i` on: the name of the first
    port that reports connected; `None` when no later port does, or when a
    connection query throws first (the exception ends the loop).
  */
  function ConnectedPortFrom(ports: seq<PortStatus>, i: nat): (r: Option<string>)
    requires i <= |ports|
    ensures r.Some? ==> exists k :: i <= k < |ports| && ports[k].connected == Value(true) && ports[k].name == r.value
    decreases |ports| - i
  {
    if i == |ports| then None
    else match ports[i].connected
      case Throws => None
      case Value(true) => Some(ports[i].name)
      case Value(false) => ConnectedPortFrom(ports, i + 1)
  }

  /** Index of the first port from `i` on that does not report "not connected". */
  predicate StopsAt(ports: seq<PortStatus>, i: nat, k: int)
  {
    i <= k < |ports| && ports[k].connected != Value(false)
    && forall j :: i <= j < k ==> ports[j].connected == Value(false)
  }

  /**
    Port selection: a name is found exactly when the first port, in
    enumeration order, whose connection query does not answer "no" answers
    "yes"; the name found is that port's.
  */
  lemma {:induction false} ConnectedPortFromSpec(ports: seq<PortStatus>, i: nat)
    requires i <= |ports|
    ensures ConnectedPortFrom(ports, i).Some? <==>
              exists k :: StopsAt(ports, i, k) && ports[k].connected == Value(true)
    ensures forall k :: StopsAt(ports, i, k) && ports[k].connected == Value(true) ==>
              ConnectedPortFrom(ports, i) == Some(ports[k].name)
    decreases |ports| - i
  {
    if i < |ports| {
      if ports[i].connected == Value(false) {
        ConnectedPortFromSpec(ports, i + 1);
        forall k | StopsAt(ports, i, k) ensures k > i && StopsAt(ports, i + 1, k) {}
        forall k | StopsAt(ports, i + 1, k) ensures StopsAt(ports, i, k) {}
      } else {
        assert StopsAt(ports, i, i);
        forall k | StopsAt(ports, i, k) ensures k == i {}
      }
    }
  }

  /** The primary connected port: the name `PortName` writes, if any. */
  function PrimaryPortName(dev: Device): Option<string>
  {
    if dev.ports.Throws? then None else ConnectedPortFrom(dev.ports.value, 0)
  }

  /** `PortName`'s effect on its out-parameter: the primary port's name, or `name` untouched. */
  function PortNameAfter(dev: Device, name: string): string
  {
    match PrimaryPortName(dev)
    case Some(n) => n
    case None => name
  }

  // -------------------------------------------------------------------- HDCP

  /**
    The HDCP getter's effect on `value`, given the port name `PortName`
    produced from an empty string: written with the decoded tier only when
    the name is non-empty, the port lookup and the preference query succeed,
    and the version is one the switch lists.
  */
  function HdcpGetAfter(dev: Device, value: HdcpProtectionType): (r: HdcpProtectionType)
    ensures PortNameAfter(dev, "") == "" ==> r == value
  {
    var name := PortNameAfter(dev, "");
    if name != "" && name in dev.outputs && dev.outputs[name].hdcpPreference.Value?
    then match HdcpTier(dev.outputs[name].hdcpPreference.value)
      case Some(t) => t
      case None => value
    else value
  }

  /**
    The HDCP setter's effect on the driver: the primary port's preference
    becomes the tier's version when the name is non-empty, the port lookup
    succeeds and the driver accepts it; otherwise the driver is unchanged.
  */
  function HdcpSetAfter(dev: Device, t: HdcpProtectionType): (r: Device)
    ensures r.ports == dev.ports && r.stbHdrMask == dev.stbHdrMask
    ensures r.outputs.Keys == dev.outputs.Keys
    ensures PortNameAfter(dev, "") == "" ==> r == dev
    ensures forall p :: p in dev.outputs && p != PortNameAfter(dev, "") ==> r.outputs[p] == dev.outputs[p]
    ensures PortNameAfter(dev, "") in dev.outputs ==>
              r.outputs[PortNameAfter(dev, "")].(hdcpPreference := dev.outputs[PortNameAfter(dev, "")].hdcpPreference)
                == dev.outputs[PortNameAfter(dev, "")]
  {
    var name := PortNameAfter(dev, "");
    if name != "" && name in dev.outputs && dev.outputs[name].acceptsHdcp == Value(true)
    then dev.(outputs := dev.outputs[name := dev.outputs[name].(hdcpPreference := Value(HdcpVersionOf(t)))])
    else dev
  }

  /**
    Setting a tier that the driver accepts, then getting, returns that tier,
    whatever the getter's out-parameter held before.
  */
  lemma HdcpSetThenGet(dev: Device, t: HdcpProtectionType, value: HdcpProtectionType)
    requires PortNameAfter(dev, "") != ""
    requires PortNameAfter(dev, "") in dev.outputs
    requires dev.outputs[PortNameAfter(dev, "")].acceptsHdcp == Value(true)
    ensures HdcpGetAfter(HdcpSetAfter(dev, t), value) == t
  {
    var dev' := HdcpSetAfter(dev, t);
    assert PrimaryPortName(dev') == PrimaryPortName(dev);
    HdcpRoundTrip(t, VersionMax);
  }

  /**
    A rejected or failing set leaves the driver, and hence what the getter
    reads, unchanged.
  */
  lemma HdcpSetRejected(dev: Device, t: HdcpProtectionType)
    requires PortNameAfter(dev, "") !in dev.outputs || dev.outputs[PortNameAfter(dev, "")].acceptsHdcp != Value(true)
    ensures HdcpSetAfter(dev, t) == dev
  {
  }

  // -------------------------------------------------------------- frame rate

  /** HDMI0's frame-rate enumerator, `None` when the port lookup or the resolution query throws. */
  function Hdmi0FrameRate(dev: Device): (r: Option<FrameRate>)
    ensures r.Some? <==> HDMI0 in dev.outputs && dev.outputs[HDMI0].frameRate.Value?
  {
    if HDMI0 in dev.outputs && dev.outputs[HDMI0].frameRate.Value?
    then Some(dev.outputs[HDMI0].frameRate.value)
    else None
  }

  /** The refresh rate HDMI0 reports in hertz, `None` when it cannot be read or is not in the table. */
  function Hdmi0Hz(dev: Device): (r: Option<nat>)
    ensures r.Some? ==> Hdmi0FrameRate(dev).Some?
  {
    match Hdmi0FrameRate(dev)
    case Some(fr) => FrameRateHz(fr)
    case None => None
  }

  /** The rate after a refresh: the live rate, or the old `rate` when the refresh fails. */
  function RefreshedRate(dev: Device, rate: int): (r: int)
    ensures Hdmi0Hz(dev).None? ==> r == rate
  {
    match Hdmi0Hz(dev)
    case Some(hz) => hz
    case None => rate
  }

  /** A 59.94 Hz resolution refreshes the cached rate to 59. */
  lemma RefreshAt5994(dev: Device, rate: int)
    requires HDMI0 in dev.outputs && dev.outputs[HDMI0].frameRate == Value(K59dot94)
    ensures RefreshedRate(dev, rate) == 59
  {
  }

  // --------------------------------------------------------------- EDID payload

  /** The bytes `EDID` exports: HDMI0's EDID when it can be read, otherwise ASCII "unknown". */
  function EdidPayload(dev: Device): (r: seq<uint8>)
    ensures Hdmi0Edid(dev).None? ==> r == UnknownEdid
  {
    match Hdmi0Edid(dev)
    case Some(edid) => edid
    case None => UnknownEdid
  }
}
