# DisplayInfo device-settings implementation, modelled in Dafny

This project models `DisplayInfoImplementation`, the device-settings back end
of the DisplayInfo plugin. The plugin answers queries about the display on a
set-top box's video outputs: HDR capabilities of the TV and of the box, the
HDR format in use, HDCP protection, screen size, EDID and refresh rate. It
keeps a registry of connection-property observers. When the display manager
announces a resolution change on its event bus, it refreshes its cached frame
rate and notifies every observer.

The device-settings driver is modelled as a snapshot value `Device`
(`DeviceSettings.dfy`). The snapshot holds:

- the port enumeration, as (name, connected) pairs;
- the ports by name;
- for each port: connection state, EDID bytes, frame-rate enumerator, TV HDR
  mask, HDR-output flag, HDCP preference, and whether the driver accepts a new
  HDCP preference;
- the HDR mask of video device 0.

Every query is `Fallible`: it returns a value or throws. A `try`/`catch` in the
plugin is a branch on that. A port name that is not in the map makes
`getVideoOutputPort` throw.

Files:

- `Decoders.dfy`: pure decoding, namely HDR bits, the frame-rate table, the two
  HDCP switches, the EDID size bytes and the arithmetic of EDID export.
- `Queries.dfy`: getters that are fixed conditionals over one snapshot, plus
  the specification functions of the getters that loop.
- `DisplayInfo.dfy`: the class with its observer list (`observers`), its
  cached rate (`frameRate`) and its methods. A ghost trace `calls` records the
  order of the `Updated` calls. The `Observer` class holds a reference count and
  a log of the tags it received.

Three facts about the code that the model makes explicit:

- **HDR_OFF appears at most once.** The empty-mask test (line 477) and the
  Invalid-bit test (line 482) cannot both hold, because 0x80 is not 0.
  `Decoders.HdrTypesAscending` proves that the decoded list never holds a
  format twice.
- **EDID padding is never empty.** A payload whose length is already a
  multiple of 3 still gets 3 zero bytes (line 414).
  `Decoders.ExportSizeBelowLimit` states this.
- **Registration guards differ.** Unregistering an absent observer trips only
  a debug `ASSERT` (line 146) and otherwise leaves the list alone; the model
  does the same. Registering an observer that is already present has no such
  guard (line 129), so `Register` requires the observer to be absent.

The dsHDRSTANDARD bit values (HDR10 0x01, HLG 0x02, Dolby Vision 0x04,
Technicolor Prime 0x08, Invalid 0x80) come from the device-settings type
header, which is not part of this model.

## Model

| member | source | states |
|---|---|---|
| Decoders.HdrTypes | DisplayInfo/DeviceSettings/PlatformImplementation.cpp:477-482 | OFF is in the list iff the mask is 0 or the Invalid bit is set; HDR10, HLG, Dolby Vision and Technicolor are each in it iff their bit is set |
| Decoders.HdrTypesAscending | DisplayInfo/DeviceSettings/PlatformImplementation.cpp:477-482 | the decoded list is strictly in the fixed test order, with OFF last, so no format appears twice |
| Decoders.HdrTypesOfNone | DisplayInfo/DeviceSettings/PlatformImplementation.cpp:477 | mask 0 decodes to exactly [HDR_OFF] |
| Decoders.HdrTypesEmpty | DisplayInfo/DeviceSettings/PlatformImplementation.cpp:477-482 | the list is empty iff the mask is nonzero and has none of the five recognised bits |
| Decoders.FrameRateHz | DisplayInfo/DeviceSettings/PlatformImplementation.cpp:698-716 | the eight listed enumerators map into {23,24,25,29,30,50,59,60}; every other enumerator has no rate |
| Decoders.FrameRateHzInjective | DisplayInfo/DeviceSettings/PlatformImplementation.cpp:698-713 | no two listed enumerators give the same rate |
| Decoders.HdcpTier | DisplayInfo/DeviceSettings/PlatformImplementation.cpp:271-276 | 1X, 2X and MAX have a tier; any other version leaves the value unwritten |
| Decoders.HdcpVersionOf | DisplayInfo/DeviceSettings/PlatformImplementation.cpp:298-303 | every tier maps to one of the three listed versions |
| Decoders.HdcpRoundTrip | DisplayInfo/DeviceSettings/PlatformImplementation.cpp:271-303 | the get and set switches are mutually inverse over the three tiers |
| Decoders.SizeByte | DisplayInfo/DeviceSettings/PlatformImplementation.cpp:337-345 | an EDID longer than 22 bytes yields the byte at the offset; a shorter one leaves the caller's value unchanged |
| Decoders.EdidSize | DisplayInfo/DeviceSettings/PlatformImplementation.cpp:408 | size = min(payload length, 65535) |
| Decoders.PaddingLength | DisplayInfo/DeviceSettings/PlatformImplementation.cpp:413-417 | 1 to 3 bytes are appended, reaching a multiple of 3; exactly 3 when size is already a multiple of 3 |
| Decoders.PaddedEdid | DisplayInfo/DeviceSettings/PlatformImplementation.cpp:413-417 | the padded payload starts with the payload and continues with zero bytes only |
| Decoders.ExportSize | DisplayInfo/DeviceSettings/PlatformImplementation.cpp:418 | the 16-bit padded size never exceeds the padded payload's length |
| Decoders.ExportSizeBelowLimit | DisplayInfo/DeviceSettings/PlatformImplementation.cpp:408-418 | below 65535 bytes the export covers the whole padded payload: a multiple of 3, 1 to 3 bytes longer, 3 longer for an exact multiple |
| Decoders.ExportSizeWraps | DisplayInfo/DeviceSettings/PlatformImplementation.cpp:408-418 | from 65535 bytes on, 3 bytes are appended and the 16-bit size wraps to 2 |
| Queries.TVCapabilities | DisplayInfo/DeviceSettings/PlatformImplementation.cpp:457-487 | the decoded TV mask when HDMI0 is connected and answers, otherwise [HDR_OFF]; always ERROR_NONE |
| Queries.STBCapabilities | DisplayInfo/DeviceSettings/PlatformImplementation.cpp:491-516 | the decoded mask of video device 0, [HDR_OFF] when the query throws; always ERROR_NONE |
| Queries.CapabilitiesDecodeAlike | DisplayInfo/DeviceSettings/PlatformImplementation.cpp:506-511 | the TV and STB paths decode equal masks to equal lists |
| Queries.HDRSetting | DisplayInfo/DeviceSettings/PlatformImplementation.cpp:520-545 | HDR_10 iff HDMI0 is connected and reports HDR output, otherwise HDR_OFF; always ERROR_NONE |
| Queries.Hdmi0Edid | DisplayInfo/DeviceSettings/PlatformImplementation.cpp:330-335 | HDMI0's EDID is available exactly when the port is found, is connected and hands over its bytes |
| Queries.WidthInCentimeters | DisplayInfo/DeviceSettings/PlatformImplementation.cpp:325-353 | byte 21 when HDMI0 is connected with an EDID longer than 22 bytes, otherwise the out-parameter unchanged; always ERROR_NONE |
| Queries.HeightInCentimeters | DisplayInfo/DeviceSettings/PlatformImplementation.cpp:355-383 | byte 22 under the same condition, otherwise unchanged; always ERROR_NONE |
| Queries.SizesAvailableTogether | DisplayInfo/DeviceSettings/PlatformImplementation.cpp:337-375 | width and height are written together or not at all; a short EDID leaves both unchanged rather than zeroed |
| Queries.ConnectedPortFrom | DisplayInfo/DeviceSettings/PlatformImplementation.cpp:436-445 | a name found belongs to a port that reports connected |
| Queries.ConnectedPortFromSpec | DisplayInfo/DeviceSettings/PlatformImplementation.cpp:435-450 | a name is found iff the first port whose query does not answer "not connected" answers "connected", and it is that port's name |
| Queries.HdcpGetAfter | DisplayInfo/DeviceSettings/PlatformImplementation.cpp:262-287 | with no connected port (empty name) the value is left unwritten |
| Queries.HdcpSetAfter | DisplayInfo/DeviceSettings/PlatformImplementation.cpp:293-322 | only the chosen port's HDCP preference can change; with no connected port the driver is untouched |
| Queries.HdcpSetThenGet | DisplayInfo/DeviceSettings/PlatformImplementation.cpp:271-307 | setting a tier the driver accepts and then getting returns that tier |
| Queries.HdcpSetRejected | DisplayInfo/DeviceSettings/PlatformImplementation.cpp:304-316 | a throwing or refused set leaves the driver unchanged |
| Queries.Hdmi0FrameRate | DisplayInfo/DeviceSettings/PlatformImplementation.cpp:694-697 | the enumerator is available iff the HDMI0 lookup and the resolution query do not throw |
| Queries.RefreshedRate | DisplayInfo/DeviceSettings/PlatformImplementation.cpp:714-723 | a failed refresh keeps the previous rate |
| Queries.RefreshAt5994 | DisplayInfo/DeviceSettings/PlatformImplementation.cpp:712-713 | a 59.94 Hz resolution refreshes the rate to 59 |
| Queries.EdidPayload | DisplayInfo/DeviceSettings/PlatformImplementation.cpp:388-401 | the payload is ASCII "unknown" unless HDMI0 is connected and its EDID is read |
| DisplayInfo.EventSource | DisplayInfo/DeviceSettings/PlatformImplementation.cpp:161-170 | POST tag iff the bus event is the post-change event |
| DisplayInfo.Find | DisplayInfo/DeviceSettings/PlatformImplementation.cpp:143 | returns the first position of the observer, or the list's length when it is absent |
| DisplayInfo.Without | DisplayInfo/DeviceSettings/PlatformImplementation.cpp:148-151 | erasing shortens the list by one iff the observer is present and adds nothing |
| DisplayInfo.Others | DisplayInfo/DeviceSettings/PlatformImplementation.cpp:150 | the filtered list omits the observer and keeps every other element |
| DisplayInfo.EraseAtFound | DisplayInfo/DeviceSettings/PlatformImplementation.cpp:143-150 | erasing at the position find returns removes the first occurrence |
| DisplayInfo.WithoutKeepsOthers | DisplayInfo/DeviceSettings/PlatformImplementation.cpp:148-151 | in a duplicate-free list, erasing keeps the other observers in their relative order and keeps the list duplicate-free |
| DisplayInfo.OthersAbsent | DisplayInfo/DeviceSettings/PlatformImplementation.cpp:148 | filtering out an absent observer changes nothing |
| DisplayInfo.RegisterThenUnregister | DisplayInfo/DeviceSettings/PlatformImplementation.cpp:131-150 | register then unregister restores the original list |
| DisplayInfo.DisplayInfoImplementation.constructor | DisplayInfo/DeviceSettings/PlatformImplementation.cpp:60-85 | empty registry; the rate starts at 0 and is refreshed once |
| DisplayInfo.DisplayInfoImplementation.Register | DisplayInfo/DeviceSettings/PlatformImplementation.cpp:123-137 | an absent observer is appended and its count goes up by one; the list stays duplicate-free |
| DisplayInfo.DisplayInfoImplementation.Unregister | DisplayInfo/DeviceSettings/PlatformImplementation.cpp:138-156 | a present observer is removed, the others keep their order, and its count goes down by one; an absent one changes nothing |
| DisplayInfo.DisplayInfoImplementation.UpdateFrameRate | DisplayInfo/DeviceSettings/PlatformImplementation.cpp:689-726 | ERROR_NONE with the table's rate iff HDMI0's enumerator is read and listed; otherwise ERROR_GENERAL with the rate unchanged |
| DisplayInfo.DisplayInfoImplementation.VerticalFreq | DisplayInfo/DeviceSettings/PlatformImplementation.cpp:253-257 | returns the cached rate and takes no driver snapshot |
| DisplayInfo.DisplayInfoImplementation.ResolutionChangeImpl | DisplayInfo/DeviceSettings/PlatformImplementation.cpp:179-195 | the rate is refreshed only for POST; every observer gets exactly one Updated(POST), in list order; the list and the counts are unchanged |
| DisplayInfo.DisplayInfoImplementation.ResolutionChange | DisplayInfo/DeviceSettings/PlatformImplementation.cpp:158-177 | either bus event leads to the same fan-out with the POST tag; only the post-change event refreshes the rate |
| DisplayInfo.DisplayInfoImplementation.PortName | DisplayInfo/DeviceSettings/PlatformImplementation.cpp:430-452 | writes the first connected port's name, otherwise leaves the name untouched; always ERROR_NONE |
| DisplayInfo.DisplayInfoImplementation.GetHDCPProtection | DisplayInfo/DeviceSettings/PlatformImplementation.cpp:259-288 | decodes the primary port's preference, otherwise leaves the value unwritten; always ERROR_NONE |
| DisplayInfo.DisplayInfoImplementation.SetHDCPProtection | DisplayInfo/DeviceSettings/PlatformImplementation.cpp:290-323 | passes the tier's version to the primary port; with no port, no driver change; always ERROR_NONE |
| DisplayInfo.DisplayInfoImplementation.EDID | DisplayInfo/DeviceSettings/PlatformImplementation.cpp:385-428 | length = min(input length, 16-bit padded size); data[0..length) is the padded payload's prefix; nothing at or beyond it changes |

## Left out

- Event-bus registration and unregistration, bus initialisation and `device::Manager::Initialize` are foreign I/O. The constructor's catch-all is left out for the same reason. Only the constructor's effect on the cache is modelled.
- The process-wide `_instance` pointer and its unsynchronised null check are left out. The bus callback is a method on the object.
- An event from another owner, or an unknown event id, leaves `eventtype` uninitialised. That is undefined behaviour, so only the two display-manager resolution events are modelled.
- `_adminLock` is left out. Each locked region is one sequential method, and concurrency is not modelled.
- DRM/KMS graphics-size probing (`UpdateGraphicSize`, `get_primary_plane`) and the `Width`/`Height` getters built on it call foreign `drm*`/`kms*` code.
- `GetMemInfo`, `parseLine`, `UpdateTotalMem`, `TotalGpuRam` and `FreeGpuRam` read `/proc/meminfo` on one platform variant only.
- `Connected` and `IsAudioPassthrough` are thin wrappers around a single driver query.
- Creating the HDR iterator is treated as returning the list itself, so the `nullptr` branch that gives ERROR_GENERAL is not reachable in the model.
- The interface map, service registration and logging are left out.
- DisplayInfo.DisplayInfoImplementation.Register: requires that the observer is absent. The code only asserts this in debug builds, so the model does not cover what a release build does with a duplicate registration.
- DisplayInfo.Observer: `AddRef`, `Release` and `Updated` stand in for the observer's own code. They only count references and log tags. Destroying an observer when its count reaches zero is not modelled.
