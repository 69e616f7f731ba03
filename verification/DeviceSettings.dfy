/**
  The device-settings layer as the display-information plugin sees it: a
  snapshot of everything the plugin can ask the driver.  Every query of the
  driver may throw a `device::Exception`; a `Fallible` value says whether the
  query returns a value or throws.  The plugin catches every such exception
  itself, so the snapshot is all the model needs of the driver.
*/
module DeviceSettings {

  /** Unsigned 8-bit integer: an EDID byte, a size in centimetres. */
  newtype uint8 = x: int | 0 <= x < 0x100

  /** The answer of one driver query: a value, or a thrown device exception. */
  datatype Fallible<T> = Value(value: T) | Throws

  /** The frame-rate enumeration of a video resolution (`device::FrameRate`). */
  datatype FrameRate =
    | Unknown
    | K24 | K25 | K30 | K60
    | K23dot98 | K29dot97 | K50 | K59dot94
    | Other(id: int)    // any further enumerator the plugin does not list

  /** The HDCP protocol version the driver reports or accepts (`dsHdcpProtocolVersion_t`). */
  datatype HdcpVersion = Version1X | Version2X | VersionMax | OtherVersion(code: int)

  /** One entry of the enumeration `getVideoOutputPorts()`. */
  datatype PortStatus = PortStatus(name: string, connected: Fallible<bool>)

  /**
    What `getVideoOutputPort(name)` gives access to: the connection state, the
    display's EDID bytes, the frame rate of the current resolution, the sink's
    HDR capability mask, whether the output currently is HDR, the HDCP
    preference, and whether the driver accepts a new HDCP preference.
  */
  datatype OutputPort = OutputPort(
    connected: Fallible<bool>,
    edid: Fallible<seq<uint8>>,
    frameRate: Fallible<FrameRate>,
    tvHdrMask: Fallible<bv32>,
    outputHdr: Fallible<bool>,
    hdcpPreference: Fallible<HdcpVersion>,
    acceptsHdcp: Fallible<bool>)

  /**
    The whole driver: the port enumeration, the ports by name (a name that is
    not a key makes `getVideoOutputPort` throw), and the HDR capability mask of
    video device 0 (the set-top box itself).
  */
  datatype Device = Device(
    ports: Fallible<seq<PortStatus>>,
    outputs: map<string, OutputPort>,
    stbHdrMask: Fallible<bv32>)

  /** The name of the port every HDMI-specific getter asks for. */
  const HDMI0: string := "HDMI0"

  /** True when `getVideoOutputPort(name)` and its `isDisplayConnected()` both succeed and report a display. */
  predicate DisplayConnected(dev: Device, name: string)
  {
    name in dev.outputs && dev.outputs[name].connected == Value(true)
  }
}
