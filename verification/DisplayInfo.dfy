/**
  The stateful part of `DisplayInfoImplementation`: the observer registry,
  the cached frame rate and the resolution-change dispatcher, together with
  the getters that loop or write through out-parameters (port selection,
  HDCP get and set, frame-rate refresh, EDID export).  Each region the
  plugin runs under its admin lock is one method here.
*/
module DisplayInfo {
  import opened DeviceSettings
  import opened Decoders
  import opened Queries

  /** `IConnectionProperties::INotification::Source`: the tag passed to `Updated`. */
  datatype Source = PreResolutionChange | PostResolutionChange

  /** The two display-manager bus events the plugin subscribes to. */
  datatype BusEvent = ResPreChange | ResPostChange

  /** The tag `ResolutionChange` derives from a bus event. */
  function EventSource(e: BusEvent): (s: Source)
    ensures s == PostResolutionChange <==> e == ResPostChange
  {
    match e
    case ResPreChange => PreResolutionChange
    case ResPostChange => PostResolutionChange
  }

  /**
    A registered listener (`IConnectionProperties::INotification`): its
    reference count and the tags of the `Updated` calls it has received.
  */
  class Observer {
    var refCount: int
    var received: seq<Source>

    constructor ()
      ensures refCount == 1 && received == []
    {
      refCount := 1;
      received := [];
    }

    method AddRef()
      modifies this`refCount
      ensures refCount == old(refCount) + 1
    {
      refCount := refCount + 1;
    }

    method Release()
      modifies this`refCount
      ensures refCount == old(refCount) - 1
    {
      refCount := refCount - 1;
    }

    method Updated(event: Source)
      modifies this`received
      ensures received == old(received) + [event]
    {
      received := received + [event];
    }
  }

  // ------------------------------------------------------------ observer lists

  /** No element occurs twice. */
  predicate Distinct<T(==)>(s: seq<T>)
  {
    forall i, j :: 0 <= i < j < |s| ==> s[i] != s[j]
  }

  /** `std::find`: the first position of `x` in `s`, or `|s|` when it is absent. */
  method Find<T(==)>(s: seq<T>, x: T) returns (k: nat)
    ensures k <= |s|
    ensures k < |s| ==> s[k] == x
    ensures forall j :: 0 <= j < k ==> s[j] != x
  {
    k := 0;
    while k < |s| && s[k] != x
      invariant k <= |s|
      invariant forall j :: 0 <= j < k ==> s[j] != x
    {
      k := k + 1;
    }
  }

  /** `s` with its first occurrence of `x` erased. */
  function Without<T(==)>(s: seq<T>, x: T): (r: seq<T>)
    ensures |r| == if x in s then |s| - 1 else |s|
    ensures forall y :: y in r ==> y in s
  {
    if s == [] then []
    else if s[0] == x then s[1..]
    else [s[0]] + Without(s[1..], x)
  }

  /** The elements of `s` other than `x`, in their order in `s`. */
  function Others<T(==)>(s: seq<T>, x: T): (r: seq<T>)
    ensures x !in r
    ensures forall y :: y in r ==> y in s
    ensures forall y :: y in s && y != x ==> y in r
  {
    if s == [] then []
    else if s[0] == x then Others(s[1..], x)
    else [s[0]] + Others(s[1..], x)
  }

  /** Erasing at the position `std::find` returns is `Without`. */
  lemma {:induction false} EraseAtFound<T>(s: seq<T>, x: T, k: nat)
    requires k < |s| && s[k] == x
    requires forall j :: 0 <= j < k ==> s[j] != x
    ensures s[..k] + s[k + 1..] == Without(s, x)
  {
    if k > 0 {
      EraseAtFound(s[1..], x, k - 1);
      assert s[..k] + s[k + 1..] == [s[0]] + (s[1..][..k - 1] + s[1..][k..]);
    }
  }

  /**
    In a duplicate-free list, erasing one observer keeps all the others in
    their relative order, and the list stays duplicate-free.
  */
  lemma {:induction false} WithoutKeepsOthers<T>(s: seq<T>, x: T)
    requires Distinct(s)
    ensures Without(s, x) == Others(s, x)
    ensures Distinct(Without(s, x))
  {
    if s != [] {
      assert Distinct(s[1..]);
      WithoutKeepsOthers(s[1..], x);
      if s[0] == x {
        OthersAbsent(s[1..], x);
      } else {
        assert s[0] !in s[1..];
      }
    }
  }

  /** Filtering out an absent element changes nothing. */
  lemma {:induction false} OthersAbsent<T>(s: seq<T>, x: T)
    requires x !in s
    ensures Others(s, x) == s
  {
    if s != [] {
      OthersAbsent(s[1..], x);
    }
  }

  /** Registering an absent observer and unregistering it gives back the original list. */
  lemma {:induction false} RegisterThenUnregister<T>(s: seq<T>, x: T)
    requires x !in s
    ensures Without(s + [x], x) == s
  {
    if s != [] {
      assert (s + [x])[1..] == s[1..] + [x];
      RegisterThenUnregister(s[1..], x);
    }
  }

  // ---------------------------------------------------------------- the plugin

  class DisplayInfoImplementation {
    /** `_observers`, in registration order. */
    var observers: seq<Observer>
    /** `_frameRate`, the cached vertical refresh rate in hertz. */
    var frameRate: int
    /** The observers whose `Updated` the plugin has called, in call order. */
    ghost var calls: seq<Observer>

    /** The registry never holds an observer twice. */
    ghost predicate Valid()
      reads this
    {
      Distinct(observers)
    }

    /** The registry starts empty; the cache starts at 0 and is refreshed once. */
    constructor (dev: Device)
      ensures Valid() && observers == [] && calls == []
      ensures frameRate == RefreshedRate(dev, 0)
    {
      observers := [];
      calls := [];
      frameRate := 0;
      new;
      var status, rate := UpdateFrameRate(dev, frameRate);
      frameRate := rate;
    }

    /**
      Appends an observer that is not yet registered and takes a reference
      to it.
    */
    method Register(n: Observer) returns (status: Status)
      requires Valid() && n !in observers
      modifies this`observers, n`refCount
      ensures Valid()
      ensures observers == old(observers) + [n]
      ensures n.refCount == old(n.refCount) + 1
      ensures status == ErrorNone
    {
      n.AddRef();
      observers := observers + [n];
      status := ErrorNone;
    }

    /**
      Erases a registered observer and releases its reference; an observer
      that is not registered leaves the registry and its count unchanged.
    */
    method Unregister(n: Observer) returns (status: Status)
      requires Valid()
      modifies this`observers, n`refCount
      ensures Valid()
      ensures old(n in observers) ==> observers == Others(old(observers), n) && n.refCount == old(n.refCount) - 1
      ensures old(n !in observers) ==> observers == old(observers) && n.refCount == old(n.refCount)
      ensures n !in observers
      ensures status == ErrorNone
    {
      var index := Find(observers, n);
      if index < |observers| {
        n.Release();
        EraseAtFound(observers, n, index);
        WithoutKeepsOthers(observers, n);
        observers := observers[..index] + observers[index + 1..];
      }
      status := ErrorNone;
    }

    /**
      `UpdateFrameRate(rate)`: reads HDMI0's frame-rate enumerator and
      converts it with the table; a thrown query or an enumerator outside the
      table returns ERROR_GENERAL and leaves `rate` as it was.
    */
    method UpdateFrameRate(dev: Device, rate: int) returns (status: Status, rate': int)
      ensures status == ErrorNone <==> Hdmi0Hz(dev).Some?
      ensures status == ErrorNone ==> rate' == Hdmi0Hz(dev).value
      ensures status == ErrorGeneral ==> rate' == rate
    {
      status, rate' := ErrorNone, rate;
      match Hdmi0FrameRate(dev) {
        case None =>
          status := ErrorGeneral;
        case Some(fr) =>
          if fr == K24 {
            rate' := 24;
          } else if fr == K25 {
            rate' := 25;
          } else if fr == K30 {
            rate' := 30;
          } else if fr == K60 {
            rate' := 60;
          } else if fr == K23dot98 {
            rate' := 23;
          } else if fr == K29dot97 {
            rate' := 29;
          } else if fr == K50 {
            rate' := 50;
          } else if fr == K59dot94 {
            rate' := 59;
          } else {
            status := ErrorGeneral;
          }
      }
    }

    /** The cached rate, read without asking the driver. */
    function VerticalFreq(): (r: Reply<int>)
      reads this
      ensures r.status == ErrorNone && r.value == frameRate
    {
      Reply(ErrorNone, frameRate)
    }

    /**
      The dispatcher: for a post-change event the cache is refreshed first;
      then every registered observer, in registration order, receives exactly
      one `Updated` call, always tagged POST_RESOLUTION_CHANGE.
    */
    method ResolutionChangeImpl(eventtype: Source, dev: Device)
      requires Valid()
      modifies this`frameRate, this`calls, set o | o in observers
      ensures Valid() && observers == old(observers)
      ensures frameRate == if eventtype == PostResolutionChange then RefreshedRate(dev, old(frameRate)) else old(frameRate)
      ensures calls == old(calls) + observers
      ensures forall o :: o in observers ==> o.received == old(o.received) + [PostResolutionChange]
      ensures forall o :: o in observers ==> o.refCount == old(o.refCount)
    {
      if eventtype == PostResolutionChange {
        var status, rate := UpdateFrameRate(dev, frameRate);
        frameRate := rate;
      }
      var i := 0;
      while i < |observers|
        invariant 0 <= i <= |observers|
        invariant frameRate == if eventtype == PostResolutionChange then RefreshedRate(dev, old(frameRate)) else old(frameRate)
        invariant calls == old(calls) + observers[..i]
        invariant forall j :: 0 <= j < i ==> observers[j].received == old(observers[j].received) + [PostResolutionChange]
        invariant forall j :: i <= j < |observers| ==> observers[j].received == old(observers[j].received)
        invariant forall o :: o in observers ==> o.refCount == old(o.refCount)
      {
        observers[i].Updated(PostResolutionChange);
        calls := calls + [observers[i]];
        i := i + 1;
      }
      assert observers[..i] == observers;
    }

    /** The bus callback: derives the tag from the event and dispatches. */
    method ResolutionChange(event: BusEvent, dev: Device)
      requires Valid()
      modifies this`frameRate, this`calls, set o | o in observers
      ensures Valid() && observers == old(observers)
      ensures frameRate == if event == ResPostChange then RefreshedRate(dev, old(frameRate)) else old(frameRate)
      ensures calls == old(calls) + observers
      ensures forall o :: o in observers ==> o.received == old(o.received) + [PostResolutionChange]
      ensures forall o :: o in observers ==> o.refCount == old(o.refCount)
    {
      ResolutionChangeImpl(EventSource(event), dev);
    }

    /**
      `PortName(name)`: walks the enumeration and writes the name of the first
      port reporting connected; `name` stays untouched when none does or a
      driver query throws first.
    */
    method PortName(dev: Device, name: string) returns (name': string, status: Status)
      ensures name' == PortNameAfter(dev, name)
      ensures status == ErrorNone
    {
      name', status := name, ErrorNone;
      if dev.ports.Throws? {
        return;
      }
      var ports := dev.ports.value;
      var i := 0;
      while i < |ports|
        invariant 0 <= i <= |ports|
        invariant ConnectedPortFrom(ports, i) == ConnectedPortFrom(ports, 0)
        invariant name' == name
      {
        match ports[i].connected {
          case Throws =>
            return;
          case Value(c) =>
            if c {
              name' := ports[i].name;
              break;
            }
        }
        i := i + 1;
      }
    }

    /**
      HDCP get: the tier of the primary connected port's preference; `value`
      is left unwritten when there is no such port, the driver throws, or the
      version is not one the switch lists.
    */
    method GetHDCPProtection(dev: Device, value: HdcpProtectionType) returns (value': HdcpProtectionType, status: Status)
      ensures value' == HdcpGetAfter(dev, value)
      ensures status == ErrorNone
    {
      value', status := value, ErrorNone;
      var portname, _ := PortName(dev, "");
      if portname != "" {
        if portname in dev.outputs && dev.outputs[portname].hdcpPreference.Value? {
          match dev.outputs[portname].hdcpPreference.value {
            case Version1X => value' := Hdcp1X;
            case Version2X => value' := Hdcp2X;
            case VersionMax => value' := HdcpAuto;
            case OtherVersion(_) =>
          }
        }
      }
    }

    /**
      HDCP set: passes the tier's protocol version to the primary connected
      port; with no such port the driver is not called at all.
    */
    method SetHDCPProtection(dev: Device, value: HdcpProtectionType) returns (dev': Device, status: Status)
      ensures dev' == HdcpSetAfter(dev, value)
      ensures status == ErrorNone
    {
      dev', status := dev, ErrorNone;
      var portname, _ := PortName(dev, "");
      if portname != "" {
        var hdcpversion := VersionMax;
        match value {
          case Hdcp1X => hdcpversion := Version1X;
          case Hdcp2X => hdcpversion := Version2X;
          case HdcpAuto => hdcpversion := VersionMax;
        }
        if portname in dev.outputs && dev.outputs[portname].acceptsHdcp == Value(true) {
          var port := dev.outputs[portname].(hdcpPreference := Value(hdcpversion));
          dev' := dev.(outputs := dev.outputs[portname := port]);
        }
      }
    }

    /**
      EDID export into a caller buffer of `length` bytes: the payload is padded
      with `3 - size % 3` zero bytes, `size` being its length saturated to 16
      bits, and then copied while both the buffer and the 16-bit padded size
      allow; the count copied is written back to `length`.
    */
    method EDID(dev: Device, length: int, data: array<uint8>) returns (length': int, status: Status)
      requires 0 <= length <= Uint16Max && length <= data.Length
      modifies data
      ensures status == ErrorNone
      ensures length' == if length < ExportSize(EdidPayload(dev)) then length else ExportSize(EdidPayload(dev))
      ensures data[..length'] == PaddedEdid(EdidPayload(dev))[..length']
      ensures data[length'..] == old(data[length'..])
    {
      var edidVec := UnknownEdid;
      if HDMI0 in dev.outputs {
        var port := dev.outputs[HDMI0];
        if port.connected == Value(true) && port.edid.Value? {
          edidVec := port.edid.value;
        }
      }
      ghost var payload := edidVec;
      assert payload == EdidPayload(dev);
      var size := if |edidVec| < Uint16Max then |edidVec| else Uint16Max;
      var paddingSize := 0;
      while paddingSize < 3 - size % 3
        invariant 0 <= paddingSize <= 3 - size % 3
        invariant edidVec == payload + Zeros(paddingSize)
      {
        edidVec := edidVec + [0];
        paddingSize := paddingSize + 1;
      }
      size := (size + paddingSize) % 0x1_0000;
      assert edidVec == PaddedEdid(payload) && size == ExportSize(payload);
      var i := 0;
      while i < length && i < size
        invariant 0 <= i <= length && i <= size
        invariant data[..i] == edidVec[..i]
        invariant data[i..] == old(data[i..])
      {
        data[i] := edidVec[i];
        i := i + 1;
      }
      length' := i;
      status := ErrorNone;
    }
  }
}
