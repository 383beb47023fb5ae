/**
 * The wire layout of HCI packets as the transport layer of
 * SimpleBlueNRG_HCI/hci.c sees them, after the Bluetooth Core Specification
 * v5.x: the UART packet indicators (Vol 4, Part A, section 2), the command and
 * event packet headers (Vol 4, Part E, sections 5.4.1 and 5.4.4) and the
 * parameters of the Command Complete, Command Status, Hardware Error and LE
 * Meta events (Vol 4, Part E, sections 7.7.14, 7.7.15, 7.7.16 and 7.7.65).
 *
 * A packet is the first data_len bytes of a receive buffer: byte 0 is the
 * packet indicator, byte 1 the event code, byte 2 the parameter total length
 * and the parameters start at byte 3.
 */
module HciPacket {
  import opened Bytes

  type Packet = seq<Byte>

  // Packet indicators (Vol 4, Part A, section 2).
  const HCI_COMMAND_PKT: Byte := 0x01
  const HCI_EVENT_PKT: Byte := 0x04

  // Header sizes (Vol 4, Part E, sections 5.4.1 and 5.4.4).
  const HCI_EVENT_HDR_SIZE: nat := 2
  const HCI_COMMAND_HDR_SIZE: nat := 3

  /** Capacity of one receive buffer: a read never returns more bytes. */
  const HCI_READ_PACKET_SIZE: nat := 128

  // Offsets used by HCI_verify and hci_send_req.
  const HCI_PCK_TYPE_OFFSET: nat := 0
  const EVT_CODE_OFFSET: nat := 1
  const EVENT_PARAMETER_TOT_LEN_OFFSET: nat := 2
  const EVT_PARAMS_OFFSET: nat := 1 + HCI_EVENT_HDR_SIZE

  // Event codes (Vol 4, Part E, sections 7.7.14, 7.7.15, 7.7.16, 7.7.65).
  const EVT_CMD_COMPLETE: Byte := 0x0E
  const EVT_CMD_STATUS: Byte := 0x0F
  const EVT_HARDWARE_ERROR: Byte := 0x10
  const EVT_LE_META_EVENT: Byte := 0x3E

  // Command Complete parameters: Num_HCI_Command_Packets, Command_Opcode (2), return parameters.
  const EVT_CMD_COMPLETE_SIZE: nat := 3
  const CC_OPCODE_OFFSET: nat := 1
  // Command Status parameters: Status, Num_HCI_Command_Packets, Command_Opcode (2).
  const EVT_CMD_STATUS_SIZE: nat := 4
  const CS_STATUS_OFFSET: nat := 0
  const CS_OPCODE_OFFSET: nat := 2
  // LE Meta parameters: Subevent_Code, then the subevent parameters.
  const EVT_LE_META_SIZE: nat := 1

  /**
   * HCI_verify: 1 when the packet indicator is not the event indicator
   * (checked first), 2 when the parameter total length byte does not equal
   * data_len - (1 + HCI_EVENT_HDR_SIZE), 0 when the packet is well formed.
   * The reader only calls it with data_len > 0. For data_len < 3 the C code
   * compares a byte with a negative int, which is never equal, so the result
   * is 2 whatever stale byte the buffer holds at offset 2.
   */
  function Verify(p: Packet): (r: int)
    requires |p| > 0
    ensures r == 0 || r == 1 || r == 2
    ensures r == 1 <==> p[HCI_PCK_TYPE_OFFSET] != HCI_EVENT_PKT
  {
    if p[HCI_PCK_TYPE_OFFSET] != HCI_EVENT_PKT then 1
    else if |p| < 1 + HCI_EVENT_HDR_SIZE
         || p[EVENT_PARAMETER_TOT_LEN_OFFSET] != |p| - (1 + HCI_EVENT_HDR_SIZE) then 2
    else 0
  }

  /** A read the reader queues: non-empty and accepted by HCI_verify. */
  predicate Accepted(p: Packet)
  {
    |p| > 0 && Verify(p) == 0
  }

  /** The event packet a controller sends (Vol 4, Part E, section 5.4.4). */
  function EventPacket(code: Byte, params: seq<Byte>): (p: Packet)
    requires |params| < 256
    ensures |p| == EVT_PARAMS_OFFSET + |params|
  {
    [HCI_EVENT_PKT, code, |params|] + params
  }

  /** Every framed event passes HCI_verify. */
  lemma EventPacketAccepted(code: Byte, params: seq<Byte>)
    requires |params| < 256
    ensures Accepted(EventPacket(code, params))
  {
  }

  /** HCI_verify accepts nothing but framed events: an accepted read is the framing of its own parameters. */
  lemma {:induction false} AcceptedIsEventPacket(p: Packet)
    requires Accepted(p)
    ensures |p| >= EVT_PARAMS_OFFSET && |p[EVT_PARAMS_OFFSET..]| < 256
    ensures p == EventPacket(p[EVT_CODE_OFFSET], p[EVT_PARAMS_OFFSET..])
  {
    assert p == p[..EVT_PARAMS_OFFSET] + p[EVT_PARAMS_OFFSET..];
    assert p[..EVT_PARAMS_OFFSET] == [p[0], p[1], p[2]];
  }

  /**
   * What hci_send_req reads of a dequeued packet without checking its
   * length: the event code, and the fixed part of the Command Status,
   * Command Complete or LE Meta parameters.
   */
  predicate Parsable(p: Packet)
  {
    |p| > 0 &&
    (p[HCI_PCK_TYPE_OFFSET] == HCI_EVENT_PKT ==>
      |p| >= EVT_PARAMS_OFFSET &&
      (p[EVT_CODE_OFFSET] == EVT_CMD_STATUS ==> |p| >= EVT_PARAMS_OFFSET + EVT_CMD_STATUS_SIZE) &&
      (p[EVT_CODE_OFFSET] == EVT_CMD_COMPLETE ==> |p| >= EVT_PARAMS_OFFSET + EVT_CMD_COMPLETE_SIZE) &&
      (p[EVT_CODE_OFFSET] == EVT_LE_META_EVENT ==> |p| >= EVT_PARAMS_OFFSET + EVT_LE_META_SIZE))
  }

  /**
   * cmd_opcode_pack(ogf, ocf) = (uint16_t)((ocf & 0x03ff) | (ogf << 10)),
   * and htobs on a little-endian host: the 6-bit OGF above the 10-bit OCF
   * (Vol 4, Part E, section 5.4.1). The two bit fields do not overlap, so the
   * OR is a sum; the cast keeps the low 16 bits.
   */
  function OpcodePack(ogf: int, ocf: int): (op: int)
    requires 0 <= ogf < U16 && 0 <= ocf < U16
    ensures 0 <= op < U16
  {
    (ogf * 1024 + ocf % 1024) % U16
  }

  function OpcodeOgf(op: int): int { op / 1024 }

  function OpcodeOcf(op: int): int { op % 1024 }

  /** The packed opcode gives back the OGF and OCF, each cut to its field width. */
  lemma {:induction false} OpcodeRoundTrip(ogf: int, ocf: int)
    requires 0 <= ogf < U16 && 0 <= ocf < U16
    ensures OpcodeOgf(OpcodePack(ogf, ocf)) == ogf % 64
    ensures OpcodeOcf(OpcodePack(ogf, ocf)) == ocf % 1024
  {
    var hi, lo := ogf % 64, ocf % 1024;
    var x := ogf * 1024 + lo;
    assert ogf == 64 * (ogf / 64) + hi;
    assert x == U16 * (ogf / 64) + (hi * 1024 + lo);
    ModUnique(x, U16, ogf / 64, hi * 1024 + lo);
    ModUnique(hi * 1024 + lo, 1024, hi, lo);
  }

  /**
   * hci_send_cmd's header: the command indicator, then the packed
   * hci_command_hdr (opcode little-endian, then plen).
   */
  function CommandHeader(ogf: int, ocf: int, plen: Byte): (h: Packet)
    requires 0 <= ogf < U16 && 0 <= ocf < U16
    ensures |h| == 1 + HCI_COMMAND_HDR_SIZE
  {
    [HCI_COMMAND_PKT] + StoreLE16(OpcodePack(ogf, ocf)) + [plen]
  }

  /** The bytes hci_send_cmd writes: the header, then the first plen parameter bytes. */
  function CommandPacket(ogf: int, ocf: int, plen: Byte, param: seq<Byte>): (w: Packet)
    requires 0 <= ogf < U16 && 0 <= ocf < U16 && plen <= |param|
  {
    CommandHeader(ogf, ocf, plen) + param[..plen]
  }

  /** A command packet decodes back to its indicator, opcode, length and parameters. */
  lemma {:induction false} CommandPacketLayout(ogf: int, ocf: int, plen: Byte, param: seq<Byte>)
    requires 0 <= ogf < U16 && 0 <= ocf < U16 && plen <= |param|
    ensures var w := CommandPacket(ogf, ocf, plen, param);
      |w| == 1 + HCI_COMMAND_HDR_SIZE + plen &&
      w[0] == HCI_COMMAND_PKT &&
      LoadLE16(w, 1) == OpcodePack(ogf, ocf) &&
      w[3] == plen &&
      w[1 + HCI_COMMAND_HDR_SIZE..] == param[..plen]
  {
    var op := OpcodePack(ogf, ocf);
    LE16RoundTrip(op);
    var w := CommandPacket(ogf, ocf, plen, param);
    assert w[1..3] == StoreLE16(op);
    assert op % U16 == op;
  }

  /** What a dequeued packet answers: the copied response, a failure, or nothing (keep waiting). */
  datatype Response = Matched(rlen: int, rparam: seq<Byte>) | Failed | Skip

  /** The opcode echoed in a Command Status or Command Complete event. */
  function EchoedOpcode(p: Packet): (op: int)
    requires Parsable(p) && p[HCI_PCK_TYPE_OFFSET] == HCI_EVENT_PKT
    requires p[EVT_CODE_OFFSET] == EVT_CMD_STATUS || p[EVT_CODE_OFFSET] == EVT_CMD_COMPLETE
    ensures 0 <= op < U16
  {
    if p[EVT_CODE_OFFSET] == EVT_CMD_STATUS then LoadLE16(p, EVT_PARAMS_OFFSET + CS_OPCODE_OFFSET)
    else LoadLE16(p, EVT_PARAMS_OFFSET + CC_OPCODE_OFFSET)
  }

  /**
   * The bytes hci_send_req offers to the caller for a matched answer: all
   * Command Status parameters, the Command Complete return parameters
   * after EVT_CMD_COMPLETE_SIZE, the LE Meta parameters after the subevent
   * code.
   */
  function ResponsePayload(p: Packet): (s: seq<Byte>)
    requires Parsable(p) && p[HCI_PCK_TYPE_OFFSET] == HCI_EVENT_PKT
  {
    var code := p[EVT_CODE_OFFSET];
    if code == EVT_CMD_STATUS then p[EVT_PARAMS_OFFSET..]
    else if code == EVT_CMD_COMPLETE then p[EVT_PARAMS_OFFSET + EVT_CMD_COMPLETE_SIZE..]
    else if code == EVT_LE_META_EVENT then p[EVT_PARAMS_OFFSET + EVT_LE_META_SIZE..]
    else []
  }

  /**
   * The switch of hci_send_req on one dequeued packet, for the sent opcode,
   * the awaited event r->event and the caller's capacity r->rlen.
   */
  function Classify(p: Packet, opcode: int, event: int, rlen: int): (r: Response)
    requires Parsable(p) && rlen >= 0
    // a packet that is not an event, or an event of another kind, is never an answer
    ensures p[HCI_PCK_TYPE_OFFSET] != HCI_EVENT_PKT ==> r == Skip
    ensures p[HCI_PCK_TYPE_OFFSET] == HCI_EVENT_PKT &&
            p[EVT_CODE_OFFSET] !in {EVT_CMD_STATUS, EVT_CMD_COMPLETE, EVT_LE_META_EVENT, EVT_HARDWARE_ERROR}
            ==> r == Skip
    // a hardware error fails the request whatever it awaits
    ensures p[HCI_PCK_TYPE_OFFSET] == HCI_EVENT_PKT && p[EVT_CODE_OFFSET] == EVT_HARDWARE_ERROR ==> r == Failed
    // an acknowledgement of another command fails the request
    ensures p[HCI_PCK_TYPE_OFFSET] == HCI_EVENT_PKT &&
            (p[EVT_CODE_OFFSET] == EVT_CMD_STATUS || p[EVT_CODE_OFFSET] == EVT_CMD_COMPLETE) &&
            EchoedOpcode(p) != opcode
            ==> r == Failed
    // a Command Status for this command that is not awaited: a failure status fails, success keeps waiting
    ensures p[HCI_PCK_TYPE_OFFSET] == HCI_EVENT_PKT && p[EVT_CODE_OFFSET] == EVT_CMD_STATUS &&
            EchoedOpcode(p) == opcode && event != EVT_CMD_STATUS
            ==> r == (if p[EVT_PARAMS_OFFSET + CS_STATUS_OFFSET] != 0 then Failed else Skip)
    // an LE Meta event for another subevent is not the answer
    ensures p[HCI_PCK_TYPE_OFFSET] == HCI_EVENT_PKT && p[EVT_CODE_OFFSET] == EVT_LE_META_EVENT &&
            p[EVT_PARAMS_OFFSET] != event
            ==> r == Skip
    // a reply to this request is the answer: a Command Complete for it, a Command Status
    // for it when Command Status is awaited, an LE Meta event of the awaited subevent
    ensures p[HCI_PCK_TYPE_OFFSET] == HCI_EVENT_PKT && p[EVT_CODE_OFFSET] == EVT_CMD_COMPLETE &&
            EchoedOpcode(p) == opcode
            ==> r.Matched?
    ensures p[HCI_PCK_TYPE_OFFSET] == HCI_EVENT_PKT && p[EVT_CODE_OFFSET] == EVT_CMD_STATUS &&
            EchoedOpcode(p) == opcode && event == EVT_CMD_STATUS
            ==> r.Matched?
    ensures p[HCI_PCK_TYPE_OFFSET] == HCI_EVENT_PKT && p[EVT_CODE_OFFSET] == EVT_LE_META_EVENT &&
            p[EVT_PARAMS_OFFSET] == event
            ==> r.Matched?
    // the answer is the available payload truncated to the caller's capacity
    ensures r.Matched? ==>
      p[HCI_PCK_TYPE_OFFSET] == HCI_EVENT_PKT &&
      r.rlen == Min(|ResponsePayload(p)|, rlen) &&
      r.rparam == ResponsePayload(p)[..r.rlen]
    // every matched answer is a positive reply to this request
    ensures r.Matched? ==>
      (p[EVT_CODE_OFFSET] == EVT_CMD_STATUS && EchoedOpcode(p) == opcode && event == EVT_CMD_STATUS) ||
      (p[EVT_CODE_OFFSET] == EVT_CMD_COMPLETE && EchoedOpcode(p) == opcode) ||
      (p[EVT_CODE_OFFSET] == EVT_LE_META_EVENT && p[EVT_PARAMS_OFFSET] == event)
  {
    if p[HCI_PCK_TYPE_OFFSET] != HCI_EVENT_PKT then Skip
    else
      var len := |p| - EVT_PARAMS_OFFSET;
      var code := p[EVT_CODE_OFFSET];
      if code == EVT_CMD_STATUS then
        if LoadLE16(p, EVT_PARAMS_OFFSET + CS_OPCODE_OFFSET) != opcode then Failed
        else if event != EVT_CMD_STATUS then
          (if p[EVT_PARAMS_OFFSET + CS_STATUS_OFFSET] != 0 then Failed else Skip)
        else
          var n := Min(len, rlen);
          Matched(n, p[EVT_PARAMS_OFFSET..EVT_PARAMS_OFFSET + n])
      else if code == EVT_CMD_COMPLETE then
        if LoadLE16(p, EVT_PARAMS_OFFSET + CC_OPCODE_OFFSET) != opcode then Failed
        else
          var start := EVT_PARAMS_OFFSET + EVT_CMD_COMPLETE_SIZE;
          var n := Min(len - EVT_CMD_COMPLETE_SIZE, rlen);
          Matched(n, p[start..start + n])
      else if code == EVT_LE_META_EVENT then
        if p[EVT_PARAMS_OFFSET] != event then Skip
        else
          var start := EVT_PARAMS_OFFSET + EVT_LE_META_SIZE;
          var n := Min(len - EVT_LE_META_SIZE, rlen);
          Matched(n, p[start..start + n])
      else if code == EVT_HARDWARE_ERROR then Failed
      else Skip
  }

  // ---------------------------------------------------------------------------
  // The events a controller sends in answer to a command.

  /** Command Complete (section 7.7.14), one command credit. */
  function CommandCompleteEvent(opcode: int, ret: seq<Byte>): (p: Packet)
    requires 0 <= opcode < U16 && |ret| + EVT_CMD_COMPLETE_SIZE < 256
  {
    EventPacket(EVT_CMD_COMPLETE, [1] + StoreLE16(opcode) + ret)
  }

  /** Command Status (section 7.7.15), one command credit. */
  function CommandStatusEvent(status: Byte, opcode: int): (p: Packet)
    requires 0 <= opcode < U16
  {
    EventPacket(EVT_CMD_STATUS, [status, 1] + StoreLE16(opcode))
  }

  /** LE Meta event (section 7.7.65). */
  function LeMetaEvent(subevent: Byte, data: seq<Byte>): (p: Packet)
    requires |data| + EVT_LE_META_SIZE < 256
  {
    EventPacket(EVT_LE_META_EVENT, [subevent] + data)
  }

  /** Hardware Error event (section 7.7.16). */
  function HardwareErrorEvent(hwCode: Byte): (p: Packet)
  {
    EventPacket(EVT_HARDWARE_ERROR, [hwCode])
  }

  /**
   * A Command Complete for the sent command is accepted by the reader and
   * hands the caller its return parameters, truncated to the capacity.
   */
  lemma {:induction false} CommandCompleteAnswers(opcode: int, ret: seq<Byte>, event: int, rlen: int)
    requires 0 <= opcode < U16 && |ret| + EVT_CMD_COMPLETE_SIZE < 256 && rlen >= 0
    ensures Accepted(CommandCompleteEvent(opcode, ret)) && Parsable(CommandCompleteEvent(opcode, ret))
    ensures Classify(CommandCompleteEvent(opcode, ret), opcode, event, rlen)
            == Matched(Min(|ret|, rlen), ret[..Min(|ret|, rlen)])
  {
    var p := CommandCompleteEvent(opcode, ret);
    LE16RoundTrip(opcode);
    assert p[4..6] == StoreLE16(opcode);
    assert LoadLE16(p, 4) == opcode;
    assert p[6..] == ret;
  }

  /**
   * A Command Status for the sent command: when the caller awaits Command
   * Status it gets the four status parameters (truncated); otherwise a
   * failure status fails the request and a success status is not the answer.
   */
  lemma {:induction false} CommandStatusAnswers(status: Byte, opcode: int, event: int, rlen: int)
    requires 0 <= opcode < U16 && rlen >= 0
    ensures Accepted(CommandStatusEvent(status, opcode)) && Parsable(CommandStatusEvent(status, opcode))
    ensures var r := Classify(CommandStatusEvent(status, opcode), opcode, event, rlen);
      if event == EVT_CMD_STATUS then
        r == Matched(Min(4, rlen), ([status, 1] + StoreLE16(opcode))[..Min(4, rlen)])
      else if status != 0 then r == Failed
      else r == Skip
  {
    var p := CommandStatusEvent(status, opcode);
    LE16RoundTrip(opcode);
    assert p[5..7] == StoreLE16(opcode);
    assert LoadLE16(p, 5) == opcode;
    assert p[3..] == [status, 1] + StoreLE16(opcode);
  }

  /** An acknowledgement echoing another opcode fails the request. */
  lemma {:induction false} ForeignAcknowledgementFails(other: int, ret: seq<Byte>, opcode: int, event: int, rlen: int)
    requires 0 <= other < U16 && |ret| + EVT_CMD_COMPLETE_SIZE < 256 && rlen >= 0 && other != opcode
    ensures Parsable(CommandCompleteEvent(other, ret))
    ensures Classify(CommandCompleteEvent(other, ret), opcode, event, rlen) == Failed
  {
    var p := CommandCompleteEvent(other, ret);
    LE16RoundTrip(other);
    assert p[4..6] == StoreLE16(other);
  }

  /** An LE Meta event answers exactly the request awaiting its subevent, with its data truncated. */
  lemma {:induction false} LeMetaAnswers(subevent: Byte, data: seq<Byte>, opcode: int, event: int, rlen: int)
    requires |data| + EVT_LE_META_SIZE < 256 && rlen >= 0
    ensures Accepted(LeMetaEvent(subevent, data)) && Parsable(LeMetaEvent(subevent, data))
    ensures Classify(LeMetaEvent(subevent, data), opcode, event, rlen)
            == if subevent == event then Matched(Min(|data|, rlen), data[..Min(|data|, rlen)]) else Skip
  {
    var p := LeMetaEvent(subevent, data);
    assert p[4..] == data;
  }

  /** A Hardware Error event fails every pending request, whatever it awaits. */
  lemma HardwareErrorFails(hwCode: Byte, opcode: int, event: int, rlen: int)
    requires rlen >= 0
    ensures Accepted(HardwareErrorEvent(hwCode)) && Parsable(HardwareErrorEvent(hwCode))
    ensures Classify(HardwareErrorEvent(hwCode), opcode, event, rlen) == Failed
  {
  }
}
