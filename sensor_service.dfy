/**
 * The SensorDemo GATT server of sensor_service.cpp: the start-up sequence
 * `begin`, the characteristic encoders (accelerometer axes as little-endian
 * 16-bit values, seconds and minutes as big-endian 32-bit counters), the
 * connection and advertising flags, and the HCI event callback that decodes
 * Disconnection Complete (Bluetooth Core Specification v5.x, Vol 4, Part E,
 * section 7.7.5), LE Connection Complete (section 7.7.65.1) and the two
 * BlueNRG vendor events the service reacts to.
 *
 * The `aci_*` and `hci_le_*` commands are foreign: each is recorded in a log
 * of AciCall values, and its status, when the code looks at it, is a
 * parameter.
 */
module SensorService {
  import opened Bytes
  import opened HciPacket

  datatype Option<T> = None | Some(value: T)

  // ---------------------------------------------------------------------------
  // Constants. ble_status.h and the BlueNRG ACI headers are not part of this
  // model: the model relies only on BLE_STATUS_SUCCESS being 0 and the two
  // error statuses being non-zero.

  const BLE_STATUS_SUCCESS: int := 0x00
  const BLE_STATUS_ERROR: int := 0x47
  const BLE_STATUS_NULL_PARAM: int := 0x52

  const BDADDR_SIZE: nat := 6
  /** Complete Local Name, Bluetooth Core Specification Supplement, Part A, section 1.2. */
  const AD_TYPE_COMPLETE_LOCAL_NAME: Byte := 0x09
  /** The most name characters begin keeps; dev_name holds the AD type byte and these. */
  const DEV_NAME_MAX: nat := 7
  /** begin takes a hardware version above this for an X-NUCLEO-IDB05A1 board. */
  const HW_VERSION_IDB04A1_MAX: int := 0x30
  /** The last public-address byte begin writes on an IDB05A1 board. */
  const IDB05A1_ADDR_TAG: Byte := 0x02
  const CONFIG_DATA_PUBADDR_OFFSET: int := 0x00
  const FIXED_PIN: int := 123456

  // Event codes (Vol 4, Part E, sections 7.7.5, 7.7.65.1; 0xFF is the vendor-specific code).
  const EVT_DISCONN_COMPLETE: Byte := 0x05
  const EVT_LE_CONN_COMPLETE: Byte := 0x01
  const EVT_VENDOR: Byte := 0xFF
  // BlueNRG vendor event codes, a little-endian 16-bit field first in the vendor parameters.
  const EVT_BLUE_GATT_ATTRIBUTE_MODIFIED: int := 0x0C01
  const EVT_BLUE_GATT_READ_PERMIT_REQ: int := 0x0C14

  // Offsets into the packet (indicator, code, length, parameters at 3).
  /** LE Meta subevent code. */
  const LE_SUBEVENT_OFFSET: nat := EVT_PARAMS_OFFSET
  /** LE Connection Complete: Status, then Connection_Handle. */
  const LE_CONN_HANDLE_OFFSET: nat := EVT_PARAMS_OFFSET + EVT_LE_META_SIZE + 1
  /** LE Connection Complete: after Role and Peer_Address_Type comes Peer_Address. */
  const LE_CONN_PEER_OFFSET: nat := LE_CONN_HANDLE_OFFSET + 4
  /** Vendor event code. */
  const VENDOR_ECODE_OFFSET: nat := EVT_PARAMS_OFFSET
  /** Both GATT vendor events start with the connection handle, then the attribute handle. */
  const GATT_ATTR_HANDLE_OFFSET: nat := VENDOR_ECODE_OFFSET + 4

  /** The expansion board, bnrg_expansion_board. */
  datatype Board = IDB04A1 | IDB05A1

  /** AxesRaw_t. */
  datatype Axes = Axes(x: int, y: int, z: int)

  /** The attribute handles the Add_*_Service builders obtained from the controller. */
  datatype Handles = Handles(accServ: int, accChar: int, envSensServ: int, tempChar: int,
                             pressChar: int, humidityChar: int, timeServ: int,
                             secondsChar: int, minuteChar: int, ledButtonChar: int)

  /** A command issued to the controller, in the log the model keeps of them. */
  datatype AciCall =
    | Reset                                   // BlueNRG_RST
    | WriteConfigData(offset: int, value: seq<Byte>)
    | GattInit
    | GapInit(board: Board)                   // the IDB05A1 or the IDB04A1 variant
    | UpdateDeviceName(name: seq<Byte>)       // the GAP device-name characteristic
    | SetAuthRequirement(pin: int)
    | SetTxPowerLevel(highPower: int, level: int)
    | UpdateCharValue(servHandle: int, charHandle: int, offset: int, value: seq<Byte>)
    | UpdateNative(servHandle: int, charHandle: int)   // a value sent in host byte order
    | SetScanRespData(data: seq<Byte>)
    | SetDiscoverable(localName: seq<Byte>)
    | AllowRead(connHandle: int)

  // ---------------------------------------------------------------------------
  // Device name.

  function Zeros(n: nat): (z: seq<Byte>)
    ensures |z| == n && forall i :: 0 <= i < n ==> z[i] == 0
  {
    seq(n, _ => 0)
  }

  /**
   * strlen: the number of bytes before the first zero byte, or all of them
   * when `s` holds none (the terminator lies beyond `s`).
   */
  function StrLen(s: seq<Byte>): (n: nat)
    ensures n <= |s|
    ensures forall i :: 0 <= i < n ==> s[i] != 0
    ensures n < |s| ==> s[n] == 0
  {
    if s == [] || s[0] == 0 then 0 else 1 + StrLen(s[1..])
  }

  /** dev_nameLen for the C string `name`: its strlen, clamped to seven. */
  function NameLen(name: seq<Byte>): (n: nat)
    ensures n <= DEV_NAME_MAX && n <= StrLen(name)
    ensures n == StrLen(name) || (n == DEV_NAME_MAX && StrLen(name) >= DEV_NAME_MAX)
  {
    Min(StrLen(name), DEV_NAME_MAX)
  }

  /**
   * dev_name after begin(name): cleared, the Complete Local Name AD type in
   * byte 0, then what strncpy copies: the first NameLen(name) characters of
   * the name, none of which is the terminator.
   */
  function NameField(name: seq<Byte>): (d: seq<Byte>)
    ensures |d| == 1 + DEV_NAME_MAX
  {
    [AD_TYPE_COMPLETE_LOCAL_NAME] + name[..NameLen(name)] + Zeros(DEV_NAME_MAX - NameLen(name))
  }

  /**
   * The name is recoverable from the field: the advertised AD structure is
   * the AD type followed by the clamped name, holding no zero byte; a name of
   * at most seven characters is kept whole, and the unused bytes are zero.
   */
  lemma {:induction false} NameFieldRoundTrip(name: seq<Byte>)
    ensures NameField(name)[..1 + NameLen(name)] == [AD_TYPE_COMPLETE_LOCAL_NAME] + name[..NameLen(name)]
    ensures forall i :: 1 <= i < 1 + NameLen(name) ==> NameField(name)[i] != 0
    ensures StrLen(name) <= DEV_NAME_MAX ==> NameField(name)[1..1 + NameLen(name)] == name[..StrLen(name)]
    ensures forall i :: 1 + NameLen(name) <= i < 1 + DEV_NAME_MAX ==> NameField(name)[i] == 0
  {
    var n := NameLen(name);
    var d := NameField(name);
    var head := [AD_TYPE_COMPLETE_LOCAL_NAME] + name[..n];
    assert d == head + Zeros(DEV_NAME_MAX - n);
    assert d[..1 + n] == head;
    assert d[1..1 + n] == head[1..];
    forall i | 1 <= i < 1 + n
      ensures d[i] != 0
    {
      assert d[i] == name[i - 1];
    }
    forall i | 1 + n <= i < 1 + DEV_NAME_MAX
      ensures d[i] == 0
    {
      assert d[i] == Zeros(DEV_NAME_MAX - n)[i - (1 + n)];
    }
  }

  // ---------------------------------------------------------------------------
  // Characteristic encodings.

  /** The Acc_Update buffer: X, Y and Z, each through STORE_LE_16. */
  function AccBytes(a: Axes): (b: seq<Byte>)
    ensures |b| == 6
  {
    StoreLE16(a.x) + StoreLE16(a.y) + StoreLE16(a.z)
  }

  /**
   * Each axis can be read back from its two bytes: the low 16 bits of any
   * value, and an int16_t value exactly.
   */
  lemma {:induction false} AccBytesRoundTrip(a: Axes)
    ensures LoadLE16(AccBytes(a), 0) == a.x % U16
    ensures LoadLE16(AccBytes(a), 2) == a.y % U16
    ensures LoadLE16(AccBytes(a), 4) == a.z % U16
    ensures -0x8000 <= a.x < 0x8000 && -0x8000 <= a.y < 0x8000 && -0x8000 <= a.z < 0x8000 ==>
      Axes(ToInt16(LoadLE16(AccBytes(a), 0)), ToInt16(LoadLE16(AccBytes(a), 2)),
           ToInt16(LoadLE16(AccBytes(a), 4))) == a
  {
    var b := AccBytes(a);
    assert LoadLE16(b, 0) == LoadLE16(StoreLE16(a.x), 0);
    assert LoadLE16(b, 2) == LoadLE16(StoreLE16(a.y), 0);
    assert LoadLE16(b, 4) == LoadLE16(StoreLE16(a.z), 0);
    LE16RoundTrip(a.x);
    LE16RoundTrip(a.y);
    LE16RoundTrip(a.z);
    if -0x8000 <= a.x < 0x8000 && -0x8000 <= a.y < 0x8000 && -0x8000 <= a.z < 0x8000 {
      LE16SignedRoundTrip(a.x);
      LE16SignedRoundTrip(a.y);
      LE16SignedRoundTrip(a.z);
    }
  }

  /** Seconds_Update's value: whole seconds of the microsecond clock. */
  function SecondsOf(nowUsec: Word): (s: Word)
    ensures s * 1_000_000 <= nowUsec < (s + 1) * 1_000_000
  {
    nowUsec / 1_000_000
  }

  /**
   * Minutes_Notify's value: the clock in milliseconds, divided by 60 * 1000.
   * It is the whole minutes of the microsecond clock.
   */
  function MinuteOf(nowUsec: Word): (m: Word)
    ensures m * 60_000_000 <= nowUsec < (m + 1) * 60_000_000
  {
    MinuteOfClock(nowUsec);
    (nowUsec / 1000) / 60_000
  }

  lemma {:induction false} MinuteOfClock(nowUsec: Word)
    ensures (nowUsec / 1000) / 60_000 * 60_000_000 <= nowUsec < ((nowUsec / 1000) / 60_000 + 1) * 60_000_000
  {
    var ms := nowUsec / 1000;
    var m := ms / 60_000;
    assert ms * 1000 <= nowUsec < (ms + 1) * 1000;
    assert m * 60_000 <= ms < (m + 1) * 60_000;
    assert m * 60_000_000 == (m * 60_000) * 1000;
    assert (m * 60_000) * 1000 <= ms * 1000;
    assert ms + 1 <= (m + 1) * 60_000;
    assert (ms + 1) * 1000 <= ((m + 1) * 60_000) * 1000;
  }

  /** The time[] arrays of Seconds_Update and Minutes_Notify read back to the counter. */
  lemma TimeBytesRoundTrip(v: Word)
    ensures |StoreBE32(v)| == 4 && LoadBE32(StoreBE32(v), 0) == v
  {
    BE32RoundTrip(v);
  }

  // ---------------------------------------------------------------------------
  // begin's command sequence.

  /**
   * The index of the first failing status, or |rs| when all succeed: the
   * commands before it succeeded.
   */
  function FirstFailure(rs: seq<int>): (k: nat)
    ensures k <= |rs|
    ensures forall i :: 0 <= i < k ==> rs[i] == BLE_STATUS_SUCCESS
    ensures k < |rs| ==> rs[k] != BLE_STATUS_SUCCESS
  {
    if rs == [] then 0
    else if rs[0] != BLE_STATUS_SUCCESS then 0
    else 1 + FirstFailure(rs[1..])
  }

  /** What a chain of `if (ret) return ret;` returns: the first failing status, else success. */
  function FirstStatus(rs: seq<int>): (r: int)
    ensures r == BLE_STATUS_SUCCESS <==> forall i :: 0 <= i < |rs| ==> rs[i] == BLE_STATUS_SUCCESS
    ensures r != BLE_STATUS_SUCCESS ==>
      exists k :: 0 <= k < |rs| && r == rs[k] && forall i :: 0 <= i < k ==> rs[i] == BLE_STATUS_SUCCESS
  {
    var k := FirstFailure(rs);
    if k < |rs| then rs[k] else BLE_STATUS_SUCCESS
  }

  /**
   * The number of commands issued when `rs` are their statuses: up to and
   * including the first failure, every command when none fails.
   */
  function Issued(rs: seq<int>): (n: nat)
    ensures n <= |rs|
    ensures forall i :: 0 <= i < n - 1 ==> rs[i] == BLE_STATUS_SUCCESS
    ensures n < |rs| ==> n > 0 && rs[n - 1] != BLE_STATUS_SUCCESS
    ensures n == |rs| && n > 0 && rs[n - 1] == BLE_STATUS_SUCCESS ==> forall i :: 0 <= i < |rs| ==> rs[i] == BLE_STATUS_SUCCESS
  {
    var k := FirstFailure(rs);
    if k < |rs| then k + 1 else k
  }

  /** The commands begin issues after the reset, in order. */
  function BeginCommands(bdaddr: seq<Byte>, board: Board, shownName: seq<Byte>): (cs: seq<AciCall>)
    ensures |cs| == 6
  {
    [WriteConfigData(CONFIG_DATA_PUBADDR_OFFSET, bdaddr), GattInit, GapInit(board),
     UpdateDeviceName(shownName), SetAuthRequirement(FIXED_PIN), SetTxPowerLevel(1, 4)]
  }

  // ---------------------------------------------------------------------------
  // The events Sensor_HCI_Event_CB reacts to.

  datatype SensorEvent =
    | Disconnection
    | Connection(peer: seq<Byte>, handle: int)
    | AttributeModified(attrHandle: int)
    | ReadPermit(attrHandle: int)
    | Other

  /**
   * The bytes Sensor_HCI_Event_CB reads, none of whose lengths it checks:
   * the indicator, the event code, and for the events it dispatches on the
   * fields it passes on.
   */
  predicate Readable(p: Packet)
  {
    |p| > 0 &&
    (p[HCI_PCK_TYPE_OFFSET] == HCI_EVENT_PKT ==>
      |p| > EVT_CODE_OFFSET &&
      (p[EVT_CODE_OFFSET] == EVT_LE_META_EVENT ==>
        |p| > LE_SUBEVENT_OFFSET &&
        (p[LE_SUBEVENT_OFFSET] == EVT_LE_CONN_COMPLETE ==> |p| >= LE_CONN_PEER_OFFSET + BDADDR_SIZE)) &&
      (p[EVT_CODE_OFFSET] == EVT_VENDOR ==>
        |p| >= VENDOR_ECODE_OFFSET + 2 &&
        (LoadLE16(p, VENDOR_ECODE_OFFSET) == EVT_BLUE_GATT_ATTRIBUTE_MODIFIED ||
         LoadLE16(p, VENDOR_ECODE_OFFSET) == EVT_BLUE_GATT_READ_PERMIT_REQ ==>
           |p| >= GATT_ATTR_HANDLE_OFFSET + 2)))
  }

  /** The dispatch of Sensor_HCI_Event_CB: which callback a packet reaches, with what. */
  function Decode(p: Packet): (e: SensorEvent)
    requires Readable(p)
    ensures p[HCI_PCK_TYPE_OFFSET] != HCI_EVENT_PKT ==> e == Other
    ensures e.Connection? ==> |e.peer| == BDADDR_SIZE && 0 <= e.handle < U16
    ensures e.AttributeModified? ==> 0 <= e.attrHandle < U16
    ensures e.ReadPermit? ==> 0 <= e.attrHandle < U16
    // which callback an event reaches; every other packet, an LE Meta event of
    // another subevent and a vendor event of another code included, reaches none
    ensures e == Disconnection <==>
      p[HCI_PCK_TYPE_OFFSET] == HCI_EVENT_PKT && p[EVT_CODE_OFFSET] == EVT_DISCONN_COMPLETE
    ensures e.Connection? <==>
      p[HCI_PCK_TYPE_OFFSET] == HCI_EVENT_PKT && p[EVT_CODE_OFFSET] == EVT_LE_META_EVENT &&
      p[LE_SUBEVENT_OFFSET] == EVT_LE_CONN_COMPLETE
    ensures e.AttributeModified? <==>
      p[HCI_PCK_TYPE_OFFSET] == HCI_EVENT_PKT && p[EVT_CODE_OFFSET] == EVT_VENDOR &&
      LoadLE16(p, VENDOR_ECODE_OFFSET) == EVT_BLUE_GATT_ATTRIBUTE_MODIFIED
    ensures e.ReadPermit? <==>
      p[HCI_PCK_TYPE_OFFSET] == HCI_EVENT_PKT && p[EVT_CODE_OFFSET] == EVT_VENDOR &&
      LoadLE16(p, VENDOR_ECODE_OFFSET) == EVT_BLUE_GATT_READ_PERMIT_REQ
  {
    if p[HCI_PCK_TYPE_OFFSET] != HCI_EVENT_PKT then Other
    else
      var code := p[EVT_CODE_OFFSET];
      if code == EVT_DISCONN_COMPLETE then Disconnection
      else if code == EVT_LE_META_EVENT then
        if p[LE_SUBEVENT_OFFSET] == EVT_LE_CONN_COMPLETE then
          Connection(p[LE_CONN_PEER_OFFSET..LE_CONN_PEER_OFFSET + BDADDR_SIZE], LoadLE16(p, LE_CONN_HANDLE_OFFSET))
        else Other
      else if code == EVT_VENDOR then
        var ecode := LoadLE16(p, VENDOR_ECODE_OFFSET);
        if ecode == EVT_BLUE_GATT_ATTRIBUTE_MODIFIED then AttributeModified(LoadLE16(p, GATT_ATTR_HANDLE_OFFSET))
        else if ecode == EVT_BLUE_GATT_READ_PERMIT_REQ then ReadPermit(LoadLE16(p, GATT_ATTR_HANDLE_OFFSET))
        else Other
      else Other
  }

  /** Disconnection Complete (section 7.7.5): Status, Connection_Handle, Reason. */
  function DisconnectionCompleteEvent(status: Byte, handle: int, reason: Byte): (p: Packet)
    requires 0 <= handle < U16
  {
    EventPacket(EVT_DISCONN_COMPLETE, [status] + StoreLE16(handle) + [reason])
  }

  /**
   * LE Connection Complete (section 7.7.65.1): Status, Connection_Handle,
   * Role, Peer_Address_Type, Peer_Address, then the seven bytes of
   * connection interval, latency, supervision timeout and clock accuracy.
   */
  function LeConnectionCompleteEvent(status: Byte, handle: int, role: Byte, peerType: Byte,
                                     peer: seq<Byte>, timing: seq<Byte>): (p: Packet)
    requires 0 <= handle < U16 && |peer| == BDADDR_SIZE && |timing| == 7
  {
    LeMetaEvent(EVT_LE_CONN_COMPLETE, [status] + StoreLE16(handle) + [role, peerType] + peer + timing)
  }

  /** A BlueNRG GATT vendor event: event code, connection handle, attribute handle, then the rest. */
  function GattVendorEvent(ecode: int, connHandle: int, attrHandle: int, rest: seq<Byte>): (p: Packet)
    requires 0 <= ecode < U16 && 0 <= connHandle < U16 && 0 <= attrHandle < U16 && |rest| < 250
  {
    EventPacket(EVT_VENDOR, StoreLE16(ecode) + StoreLE16(connHandle) + StoreLE16(attrHandle) + rest)
  }

  lemma DisconnectionDecodes(status: Byte, handle: int, reason: Byte)
    requires 0 <= handle < U16
    ensures Readable(DisconnectionCompleteEvent(status, handle, reason))
    ensures Decode(DisconnectionCompleteEvent(status, handle, reason)) == Disconnection
  {
  }

  /** The connection callback receives the peer address and the handle the controller sent. */
  lemma {:induction false} ConnectionDecodes(status: Byte, handle: int, role: Byte, peerType: Byte,
                                             peer: seq<Byte>, timing: seq<Byte>)
    requires 0 <= handle < U16 && |peer| == BDADDR_SIZE && |timing| == 7
    ensures Readable(LeConnectionCompleteEvent(status, handle, role, peerType, peer, timing))
    ensures Decode(LeConnectionCompleteEvent(status, handle, role, peerType, peer, timing)) == Connection(peer, handle)
  {
    var p := LeConnectionCompleteEvent(status, handle, role, peerType, peer, timing);
    var params := [status] + StoreLE16(handle) + [role, peerType] + peer + timing;
    assert p == [HCI_EVENT_PKT, EVT_LE_META_EVENT, 1 + |params|, EVT_LE_CONN_COMPLETE] + params;
    assert p[LE_CONN_HANDLE_OFFSET] == StoreLE16(handle)[0];
    assert p[LE_CONN_HANDLE_OFFSET + 1] == StoreLE16(handle)[1];
    assert p[LE_CONN_PEER_OFFSET..LE_CONN_PEER_OFFSET + BDADDR_SIZE] == peer;
    LE16RoundTrip(handle);
    assert handle % U16 == handle;
  }

  /**
   * The two GATT vendor events reach their callbacks with the attribute
   * handle the controller sent; every other vendor code reaches none.
   */
  lemma {:induction false} GattVendorDecodes(ecode: int, connHandle: int, attrHandle: int, rest: seq<Byte>)
    requires 0 <= ecode < U16 && 0 <= connHandle < U16 && 0 <= attrHandle < U16 && |rest| < 250
    ensures Readable(GattVendorEvent(ecode, connHandle, attrHandle, rest))
    ensures ecode == EVT_BLUE_GATT_ATTRIBUTE_MODIFIED ==>
      Decode(GattVendorEvent(ecode, connHandle, attrHandle, rest)) == AttributeModified(attrHandle)
    ensures ecode == EVT_BLUE_GATT_READ_PERMIT_REQ ==>
      Decode(GattVendorEvent(ecode, connHandle, attrHandle, rest)) == ReadPermit(attrHandle)
    ensures ecode != EVT_BLUE_GATT_ATTRIBUTE_MODIFIED && ecode != EVT_BLUE_GATT_READ_PERMIT_REQ ==>
      Decode(GattVendorEvent(ecode, connHandle, attrHandle, rest)) == Other
  {
    var p := GattVendorEvent(ecode, connHandle, attrHandle, rest);
    var params := StoreLE16(ecode) + StoreLE16(connHandle) + StoreLE16(attrHandle) + rest;
    assert p == [HCI_EVENT_PKT, EVT_VENDOR, |params|] + params;
    assert p[VENDOR_ECODE_OFFSET] == StoreLE16(ecode)[0] && p[VENDOR_ECODE_OFFSET + 1] == StoreLE16(ecode)[1];
    assert p[GATT_ATTR_HANDLE_OFFSET] == StoreLE16(attrHandle)[0];
    assert p[GATT_ATTR_HANDLE_OFFSET + 1] == StoreLE16(attrHandle)[1];
    LE16RoundTrip(ecode);
    LE16RoundTrip(attrHandle);
    assert ecode % U16 == ecode && attrHandle % U16 == attrHandle;
  }

  /** An LE Meta event of any subevent but LE Connection Complete reaches no callback. */
  lemma OtherLeSubeventsIgnored(subevent: Byte, data: seq<Byte>)
    requires |data| + EVT_LE_META_SIZE < 256 && subevent != EVT_LE_CONN_COMPLETE
    ensures Readable(LeMetaEvent(subevent, data)) && Decode(LeMetaEvent(subevent, data)) == Other
  {
  }

  /** Event codes the callback does not dispatch on reach no callback. */
  lemma OtherEventsIgnored(p: Packet)
    requires Readable(p) && p[HCI_PCK_TYPE_OFFSET] == HCI_EVENT_PKT
    requires p[EVT_CODE_OFFSET] != EVT_DISCONN_COMPLETE && p[EVT_CODE_OFFSET] != EVT_LE_META_EVENT
    requires p[EVT_CODE_OFFSET] != EVT_VENDOR
    ensures Decode(p) == Other
  {
  }

  /** `c` updates the value of characteristic `ch`. */
  predicate UpdatesChar(c: AciCall, ch: int)
  {
    (c.UpdateCharValue? || c.UpdateNative?) && c.charHandle == ch
  }

  /**
   * The characteristic refresh Read_Request_CB makes for an attribute
   * handle: the value attribute follows its characteristic declaration,
   * hence the + 1. The comparison is in int, so a characteristic handle
   * of 0xFFFF matches no uint16_t handle. The accelerometer refresh sends
   * the remembered axes.
   */
  function Refresh(handles: Handles, axes: Axes, handle: int): (cs: seq<AciCall>)
    ensures |cs| <= 2
    ensures cs == [] <==> handle != handles.accChar + 1 && handle != handles.tempChar + 1 &&
                          handle != handles.pressChar + 1 && handle != handles.humidityChar + 1
    // the last update is of the characteristic being read
    ensures handle == handles.accChar + 1 ==> UpdatesChar(cs[|cs| - 1], handles.accChar)
    ensures handle == handles.tempChar + 1 ==> UpdatesChar(cs[|cs| - 1], handles.tempChar)
    ensures handle == handles.pressChar + 1 ==> UpdatesChar(cs[|cs| - 1], handles.pressChar)
    ensures handle == handles.humidityChar + 1 ==> UpdatesChar(cs[|cs| - 1], handles.humidityChar)
    // the accelerometer value sent is the remembered axes, also ahead of a temperature read
    ensures handle == handles.accChar + 1 ==> cs == [UpdateCharValue(handles.accServ, handles.accChar, 0, AccBytes(axes))]
    ensures handle == handles.tempChar + 1 ==> cs[0] == UpdateCharValue(handles.accServ, handles.accChar, 0, AccBytes(axes))
    // a read of another characteristic sends exactly its own update, and the temperature one after the axes
    ensures handle == handles.tempChar + 1 && handle != handles.accChar + 1 ==>
      cs == [UpdateCharValue(handles.accServ, handles.accChar, 0, AccBytes(axes)),
             UpdateNative(handles.envSensServ, handles.tempChar)]
    ensures handle == handles.pressChar + 1 && handle != handles.accChar + 1 && handle != handles.tempChar + 1 ==>
      cs == [UpdateNative(handles.envSensServ, handles.pressChar)]
    ensures handle == handles.humidityChar + 1 && handle != handles.accChar + 1 && handle != handles.tempChar + 1 &&
            handle != handles.pressChar + 1 ==>
      cs == [UpdateNative(handles.envSensServ, handles.humidityChar)]
  {
    var acc := UpdateCharValue(handles.accServ, handles.accChar, 0, AccBytes(axes));
    if handle == handles.accChar + 1 then [acc]
    else if handle == handles.tempChar + 1 then [acc, UpdateNative(handles.envSensServ, handles.tempChar)]
    else if handle == handles.pressChar + 1 then [UpdateNative(handles.envSensServ, handles.pressChar)]
    else if handle == handles.humidityChar + 1 then [UpdateNative(handles.envSensServ, handles.humidityChar)]
    else []
  }

  // ---------------------------------------------------------------------------
  // The service object.

  /** The fields of SensorServiceClass that its callbacks update, as one value. */
  datatype ServiceState = ServiceState(connected: bool, setConnectable: bool, notificationEnabled: bool,
                                       ledState: bool, connectionHandle: int, previousMinuteValue: int,
                                       axes: Axes, devName: seq<Byte>, devNameLen: int, board: Board,
                                       hciCallbackAttached: bool)

  class SensorServiceClass {
    const handles: Handles
    var connected: bool
    var setConnectable: bool
    var notificationEnabled: bool
    var ledState: bool
    var connectionHandle: int
    var previousMinuteValue: Word
    var axes: Axes
    var devName: seq<Byte>
    var devNameLen: nat
    /** The global bnrg_expansion_board, which begin sets. */
    var board: Board
    /** Whether begin has attached Sensor_HCI_Event_CB as the HCI event callback. */
    var hciCallbackAttached: bool
    /** Every command issued to the controller, oldest first. */
    var calls: seq<AciCall>

    ghost predicate Valid()
      reads this
    {
      |devName| == 1 + DEV_NAME_MAX && devNameLen <= DEV_NAME_MAX && 0 <= connectionHandle < U16
    }

    ghost function State(): ServiceState
      reads this
    {
      ServiceState(connected, setConnectable, notificationEnabled, ledState, connectionHandle,
                   previousMinuteValue, axes, devName, devNameLen, board, hciCallbackAttached)
    }

    /**
     * The zero-initialised global object, with the attribute handles the
     * service builders obtained and the board bnrg_expansion_board holds.
     */
    constructor (handles: Handles, board: Board)
      ensures Valid() && this.handles == handles && this.board == board
      ensures !connected && !setConnectable && !notificationEnabled && !ledState
      ensures connectionHandle == 0 && previousMinuteValue == 0 && calls == []
    {
      this.handles := handles;
      connected, setConnectable, notificationEnabled, ledState := false, false, false, false;
      connectionHandle, previousMinuteValue := 0, 0;
      axes := Axes(0, 0, 0);
      devName, devNameLen := Zeros(1 + DEV_NAME_MAX), 0;
      this.board := board;
      hciCallbackAttached := false;
      calls := [];
    }

    method Issue(c: AciCall)
      modifies this`calls
      ensures calls == old(calls) + [c]
    {
      calls := calls + [c];
    }

    /**
     * begin(name, addr). `name` is the C string without its terminator
     * (None for NULL), `addr` the caller's address array (null for NULL);
     * `versionStatus` and `hwVersion` are what getBlueNRGVersion returned;
     * `results` are the statuses the six commands after the reset would
     * return, in order.
     */
    method Begin(name: Option<seq<Byte>>, addr: array?<Byte>, versionStatus: int, hwVersion: Byte,
                 results: seq<int>) returns (ret: int)
      requires Valid() && |results| == 6
      requires addr != null ==> addr.Length == BDADDR_SIZE
      modifies this, addr
      ensures Valid() && devNameLen == (if addr != null && name.Some? then NameLen(name.value) else DEV_NAME_MAX)
      ensures addr == null ==> ret == BLE_STATUS_NULL_PARAM && calls == old(calls)
      ensures addr == null ==> State() == old(State()).(devNameLen := DEV_NAME_MAX)
      ensures addr != null ==> hciCallbackAttached
      ensures addr != null ==> devName == if name.Some? then NameField(name.value) else old(devName)
      ensures addr != null && versionStatus != BLE_STATUS_SUCCESS ==>
        ret == versionStatus && calls == old(calls) && board == old(board) && addr[..] == old(addr[..])
      ensures addr != null && versionStatus == BLE_STATUS_SUCCESS ==>
        board == (if hwVersion > HW_VERSION_IDB04A1_MAX then IDB05A1 else old(board)) &&
        addr[..] == (if hwVersion > HW_VERSION_IDB04A1_MAX then old(addr[..])[5 := IDB05A1_ADDR_TAG] else old(addr[..])) &&
        ret == FirstStatus(results) &&
        calls == old(calls) + [Reset] + BeginCommands(addr[..], board, devName[1..1 + devNameLen])[..Issued(results)]
      ensures connected == old(connected) && setConnectable == old(setConnectable)
      ensures notificationEnabled == old(notificationEnabled) && ledState == old(ledState)
      ensures connectionHandle == old(connectionHandle) && previousMinuteValue == old(previousMinuteValue)
      ensures axes == old(axes)
    {
      devNameLen := DEV_NAME_MAX;
      if addr == null {
        return BLE_STATUS_NULL_PARAM;
      }
      if name.Some? {
        devName := NameField(name.value);
        devNameLen := NameLen(name.value);
      }
      hciCallbackAttached := true;
      if versionStatus != BLE_STATUS_SUCCESS {
        return versionStatus;
      }
      Issue(Reset);
      DetectBoard(addr, hwVersion);
      var bdaddr := addr[..];
      ret := Configure(bdaddr, results);
    }

    /**
     * begin's board detection: a hardware version above 0x30 is an
     * X-NUCLEO-IDB05A1, whose public address gets a distinct last byte.
     */
    method DetectBoard(addr: array<Byte>, hwVersion: Byte)
      requires addr.Length == BDADDR_SIZE
      modifies this`board, addr
      ensures board == if hwVersion > HW_VERSION_IDB04A1_MAX then IDB05A1 else old(board)
      ensures addr[..] == if hwVersion > HW_VERSION_IDB04A1_MAX then old(addr[..])[5 := IDB05A1_ADDR_TAG] else old(addr[..])
    {
      if hwVersion > HW_VERSION_IDB04A1_MAX {
        board := IDB05A1;
        addr[5] := IDB05A1_ADDR_TAG;
      }
    }

    /**
     * The part of begin after the reset: six commands, each issued only if
     * every earlier one returned success; the first failing status is
     * returned, and the status of the last one is returned as it is.
     */
    method Configure(bdaddr: seq<Byte>, results: seq<int>) returns (ret: int)
      requires Valid() && |results| == 6
      modifies this`calls
      ensures ret == FirstStatus(results)
      ensures calls == old(calls) + BeginCommands(bdaddr, board, devName[1..1 + devNameLen])[..Issued(results)]
    {
      ghost var cmds := BeginCommands(bdaddr, board, devName[1..1 + devNameLen]);
      ghost var k := FirstFailure(results);
      assert k > 0 ==> FirstFailure(results[1..]) == k - 1;
      Issue(WriteConfigData(CONFIG_DATA_PUBADDR_OFFSET, bdaddr));
      ret := results[0];
      if ret != BLE_STATUS_SUCCESS {
        assert calls == old(calls) + cmds[..1];
        return;
      }
      Issue(GattInit);
      ret := results[1];
      if ret != BLE_STATUS_SUCCESS {
        assert calls == old(calls) + cmds[..2];
        return;
      }
      Issue(GapInit(board));
      ret := results[2];
      if ret != BLE_STATUS_SUCCESS {
        assert calls == old(calls) + cmds[..3];
        return;
      }
      Issue(UpdateDeviceName(devName[1..1 + devNameLen]));
      ret := results[3];
      if ret != BLE_STATUS_SUCCESS {
        assert calls == old(calls) + cmds[..4];
        return;
      }
      Issue(SetAuthRequirement(FIXED_PIN));
      ret := results[4];
      if ret != BLE_STATUS_SUCCESS {
        assert calls == old(calls) + cmds[..5];
        return;
      }
      Issue(SetTxPowerLevel(1, 4));
      ret := results[5];
      assert calls == old(calls) + cmds[..6];
    }

    /**
     * Acc_Update(data): remember the axes and send them as six bytes;
     * `status` is what aci_gatt_update_char_value returned.
     */
    method AccUpdate(data: Axes, status: int) returns (ret: int)
      modifies this
      ensures axes == data
      ensures calls == old(calls) + [UpdateCharValue(handles.accServ, handles.accChar, 0, AccBytes(data))]
      ensures ret == if status == BLE_STATUS_SUCCESS then BLE_STATUS_SUCCESS else BLE_STATUS_ERROR
      ensures State() == old(State()).(axes := data)
    {
      axes := data;
      Issue(UpdateCharValue(handles.accServ, handles.accChar, 0, AccBytes(data)));
      ret := if status == BLE_STATUS_SUCCESS then BLE_STATUS_SUCCESS else BLE_STATUS_ERROR;
    }

    /** Seconds_Update at clock reading `nowUsec`: the whole seconds, big-endian. */
    method SecondsUpdate(nowUsec: Word, status: int) returns (ret: int)
      modifies this`calls
      ensures calls == old(calls) + [UpdateCharValue(handles.timeServ, handles.secondsChar, 0, StoreBE32(SecondsOf(nowUsec)))]
      ensures ret == if status == BLE_STATUS_SUCCESS then BLE_STATUS_SUCCESS else BLE_STATUS_ERROR
    {
      var val := SecondsOf(nowUsec);
      Issue(UpdateCharValue(handles.timeServ, handles.secondsChar, 0, StoreBE32(val)));
      ret := if status == BLE_STATUS_SUCCESS then BLE_STATUS_SUCCESS else BLE_STATUS_ERROR;
    }

    /**
     * Minutes_Notify at clock reading `nowUsec`: only a new minute is
     * recorded and sent; an unchanged minute sends nothing and succeeds.
     */
    method MinutesNotify(nowUsec: Word, status: int) returns (ret: int)
      modifies this`calls, this`previousMinuteValue
      ensures previousMinuteValue == MinuteOf(nowUsec)
      ensures MinuteOf(nowUsec) == old(previousMinuteValue) ==> calls == old(calls) && ret == BLE_STATUS_SUCCESS
      ensures MinuteOf(nowUsec) != old(previousMinuteValue) ==>
        calls == old(calls) + [UpdateCharValue(handles.timeServ, handles.minuteChar, 0, StoreBE32(MinuteOf(nowUsec)))] &&
        ret == if status == BLE_STATUS_SUCCESS then BLE_STATUS_SUCCESS else BLE_STATUS_ERROR
    {
      var minuteValue := MinuteOf(nowUsec);
      ret := BLE_STATUS_SUCCESS;
      if minuteValue != previousMinuteValue {
        previousMinuteValue := minuteValue;
        Issue(UpdateCharValue(handles.timeServ, handles.minuteChar, 0, StoreBE32(minuteValue)));
        if status != BLE_STATUS_SUCCESS {
          ret := BLE_STATUS_ERROR;
        }
      }
    }

    /** Update_Time_Characteristics: Seconds_Update, then Minutes_Notify, each reading the clock. */
    method UpdateTimeCharacteristics(secondsClock: Word, minutesClock: Word, secondsStatus: int, minutesStatus: int)
      modifies this`calls, this`previousMinuteValue
      ensures previousMinuteValue == MinuteOf(minutesClock)
      ensures calls == old(calls) +
        [UpdateCharValue(handles.timeServ, handles.secondsChar, 0, StoreBE32(SecondsOf(secondsClock)))] +
        (if MinuteOf(minutesClock) != old(previousMinuteValue)
         then [UpdateCharValue(handles.timeServ, handles.minuteChar, 0, StoreBE32(MinuteOf(minutesClock)))]
         else [])
    {
      var _ := SecondsUpdate(secondsClock, secondsStatus);
      var _ := MinutesNotify(minutesClock, minutesStatus);
    }

    /**
     * setConnectable: when the flag is set, clear the scan response and
     * advertise the AD type and name bytes of dev_name; the flag is cleared
     * whatever the command returned.
     */
    method SetConnectable()
      requires Valid()
      modifies this
      ensures Valid() && !setConnectable
      ensures calls == old(calls) +
        (if old(setConnectable) then [SetScanRespData([]), SetDiscoverable(devName[..1 + devNameLen])] else [])
      ensures State() == old(State()).(setConnectable := false)
    {
      if setConnectable {
        Issue(SetScanRespData([]));
        Issue(SetDiscoverable(devName[..1 + devNameLen]));
        setConnectable := false;
      }
    }

    /** isConnected. */
    method IsConnected() returns (c: bool)
      ensures c == connected
    {
      c := connected;
    }

    /** GAP_ConnectionComplete_CB: connected, with the handle the controller assigned. */
    method ConnectionComplete(peer: seq<Byte>, handle: int)
      requires Valid() && 0 <= handle < U16
      modifies this
      ensures Valid() && calls == old(calls)
      ensures State() == old(State()).(connected := true, connectionHandle := handle)
    {
      connected := true;
      connectionHandle := handle;
    }

    /** GAP_DisconnectionComplete_CB: disconnected, notifications off, connectable again. */
    method DisconnectionComplete()
      requires Valid()
      modifies this
      ensures Valid() && calls == old(calls)
      ensures State() == old(State()).(connected := false, setConnectable := true, notificationEnabled := false)
    {
      connected := false;
      setConnectable := true;
      notificationEnabled := false;
    }

    /**
     * Read_Request_CB: refresh the characteristic read, then allow the read
     * if there is a connection handle. The update statuses are ignored.
     */
    method ReadRequest(handle: int)
      requires Valid()
      modifies this
      ensures Valid() && State() == old(State())
      ensures calls == old(calls) + Refresh(handles, axes, handle) +
        (if connectionHandle != 0 then [AllowRead(connectionHandle)] else [])
    {
      RefreshCharacteristic(handle);
      if connectionHandle != 0 {
        Issue(AllowRead(connectionHandle));
      }
    }

    /** The first part of Read_Request_CB: the update of the characteristic being read. */
    method RefreshCharacteristic(handle: int)
      modifies this
      ensures State() == old(State())
      ensures calls == old(calls) + Refresh(handles, axes, handle)
    {
      if handle == handles.accChar + 1 {
        var _ := AccUpdate(axes, BLE_STATUS_SUCCESS);
      } else if handle == handles.tempChar + 1 {
        var _ := AccUpdate(axes, BLE_STATUS_SUCCESS);
        Issue(UpdateNative(handles.envSensServ, handles.tempChar));
      } else if handle == handles.pressChar + 1 {
        Issue(UpdateNative(handles.envSensServ, handles.pressChar));
      } else if handle == handles.humidityChar + 1 {
        Issue(UpdateNative(handles.envSensServ, handles.humidityChar));
      }
    }

    /** Attribute_Modified_CB: a write to the LED button value toggles the LED. */
    method AttributeModified(handle: int)
      requires Valid()
      modifies this`ledState
      ensures Valid()
      ensures ledState == (old(ledState) != (handle == handles.ledButtonChar + 1))
    {
      if handle == handles.ledButtonChar + 1 {
        ledState := !ledState;
      }
    }

    /** Sensor_HCI_Event_CB: decode the packet and run the callback it calls for. */
    method HciEventCb(p: Packet)
      requires Valid() && Readable(p)
      modifies this
      ensures Valid()
      ensures Decode(p) == Other ==> State() == old(State()) && calls == old(calls)
      ensures Decode(p) == Disconnection ==>
        State() == old(State()).(connected := false, setConnectable := true, notificationEnabled := false) &&
        calls == old(calls)
      ensures Decode(p).Connection? ==>
        State() == old(State()).(connected := true, connectionHandle := Decode(p).handle) && calls == old(calls)
      ensures Decode(p).AttributeModified? ==>
        State() == old(State()).(ledState := old(ledState) != (Decode(p).attrHandle == handles.ledButtonChar + 1)) &&
        calls == old(calls)
      ensures Decode(p).ReadPermit? ==>
        State() == old(State()) &&
        calls == old(calls) + Refresh(handles, axes, Decode(p).attrHandle) +
          (if connectionHandle != 0 then [AllowRead(connectionHandle)] else [])
    {
      match Decode(p) {
        case Disconnection => DisconnectionComplete();
        case Connection(peer, handle) => ConnectionComplete(peer, handle);
        case AttributeModified(handle) => AttributeModified(handle);
        case ReadPermit(handle) => ReadRequest(handle);
        case Other =>
      }
    }
  }
}
