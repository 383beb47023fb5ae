# SimpleBlueNRG HCI transport and the SensorDemo GATT service, in Dafny

This project models two parts of the SPBTLE-RF driver for RIOT.

The first part is the HCI transport layer of `SimpleBlueNRG_HCI/hci.c`:

- a fixed arena of `HCI_READ_PACKET_NUM_MAX` = 5 receive buffers;
- the free pool `hciReadPktPool` and the FIFO receive queue
  `hciReadPktRxQueue` threaded through the arena;
- the packet check `HCI_verify`;
- the reader thread's drain loop;
- the event pump `HCI_Process`, plus `free_event_list` and `move_list`;
- the synchronous request/response engine `hci_send_req`, with its
  temporary queue of packets set aside while it looks for the answer.

The second part is the SensorDemo service of `sensor_service.cpp`:

- the start-up sequence `begin`;
- the characteristic encoders: accelerometer axes as little-endian 16-bit
  values, seconds and minutes as big-endian 32-bit counters;
- the connection and advertising flags and their callbacks;
- the HCI event dispatcher `Sensor_HCI_Event_CB`.

Files:

- `bytes.dfy` (module `Bytes`): octets, the 16- and 32-bit encodings and
  their round trips.
- `hci_packet.dfy` (module `HciPacket`): the packet layout of the Bluetooth
  Core Specification v5.x, `HCI_verify`, the command header and the switch
  of `hci_send_req`. The layout covers the UART indicators (Vol 4, Part A,
  section 2), the command and event headers (Vol 4, Part E, sections 5.4.1
  and 5.4.4) and the events of sections 7.7.14, 7.7.15, 7.7.16 and 7.7.65.
- `hci.dfy` (module `Hci`): the class `HciTransport`. Its fields are the
  buffer arena (an `array`), the pool, the receive queue and the temporary
  queue (sequences of buffer indices), a ghost interrupt mask, and the
  reader's wake-up flag. The central invariant is conservation: every
  buffer is in exactly one of the pool, the receive queue, the temporary
  queue, or held by `hci_send_req`.
- `sensor_service.dfy` (module `SensorService`): the class
  `SensorServiceClass`. Every `aci_*`/`hci_le_*` command it issues is
  recorded in a log of `AciCall` values. The status of such a command,
  where the code looks at it, is a parameter.

Where the model parts from a plain reading of the code:

- The drain loop of `HCI_Reader_Thread` does not stop on a read of zero
  bytes. It puts the buffer back at the pool head and reads again while
  the controller reports data (hci.c:171-181).
- `hci_send_req` raises only a zero timeout to 1 (hci.c:271-272). A
  negative `DEFAULT_TIMEOUT` is kept as it is; the model then treats the
  timer as expired at once.
- `HCI_Init` re-initialises both lists on every call, even after a reader
  thread exists; the thread is only created while `thread_pid == -1`.
- On a timer expiry (which also leaves through `failed`, hci.c:283-285)
  `hci_send_req` runs `move_list` with the interrupt unmasked; on the
  `failed` exits reached from the switch and on the `done` exit it is
  masked (hci.c:378-392).
- `Read_Request_CB` and `Attribute_Modified_CB` compare a `uint16_t`
  handle with `charHandle + 1` computed in `int`. A characteristic handle
  of 0xFFFF therefore matches no handle.
- `HCI_verify` on a read shorter than 3 bytes that starts with
  `HCI_EVENT_PKT` compares a byte with a negative `int`. The comparison is
  never equal, so the result is 2 (a read of another type gives 1, since
  the type is tested first).

## Model

| member | source | states |
|---|---|---|
| Bytes.LE16RoundTrip | spbtlerf/sensor_service.cpp:104-106 | loading the two bytes STORE_LE_16 writes gives back the low 16 bits of the value, for every sign |
| Bytes.LE16SignedRoundTrip | spbtlerf/sensor_service.cpp:104-106 | an int16_t value read back from its two STORE_LE_16 bytes as int16_t is the value itself |
| Bytes.BE32RoundTrip | spbtlerf/sensor_service.cpp:760-761 | every uint32_t value is recovered exactly from the four big-endian time[] bytes |
| HciPacket.Verify | spbtlerf/SimpleBlueNRG_HCI/hci.c:99-110 | the result is 0, 1 or 2, and it is 1 exactly when the indicator byte is not HCI_EVENT_PKT (the type is checked first) |
| HciPacket.EventPacketAccepted | spbtlerf/SimpleBlueNRG_HCI/hci.c:99-110 | every event framed as in section 5.4.4 (indicator, code, parameter length, parameters) passes HCI_verify |
| HciPacket.AcceptedIsEventPacket | spbtlerf/SimpleBlueNRG_HCI/hci.c:99-110 | conversely, a non-empty read HCI_verify accepts is exactly the framing of its own parameters |
| HciPacket.OpcodeRoundTrip | spbtlerf/SimpleBlueNRG_HCI/hci.c:211 | the packed opcode yields back the OGF and the OCF, each cut to its 6- and 10-bit field |
| HciPacket.CommandPacketLayout | spbtlerf/SimpleBlueNRG_HCI/hci.c:207-219 | the bytes hci_send_cmd writes are the command indicator, the opcode little-endian, plen, then exactly the first plen parameter bytes |
| HciPacket.Classify | spbtlerf/SimpleBlueNRG_HCI/hci.c:297-352 | a non-event or an unhandled event code is skipped; a hardware error fails; an acknowledgement echoing another opcode fails; an unawaited Command Status fails on a non-zero status and is skipped otherwise; an LE Meta event of another subevent is skipped; conversely a Command Complete for the sent opcode, a Command Status for it while Command Status is awaited, and an LE Meta event of the awaited subevent are always matched; every match is a positive reply to this request and carries the available payload truncated to the caller's rlen |
| HciPacket.CommandCompleteAnswers | spbtlerf/SimpleBlueNRG_HCI/hci.c:323-334 | a Command Complete for the sent opcode passes HCI_verify and hands back its return parameters, truncated to rlen, whatever event is awaited |
| HciPacket.CommandStatusAnswers | spbtlerf/SimpleBlueNRG_HCI/hci.c:306-321 | a Command Status for the sent opcode answers with its four parameters (truncated) when Command Status is awaited; otherwise it fails the request on a non-zero status and is not the answer on success |
| HciPacket.ForeignAcknowledgementFails | spbtlerf/SimpleBlueNRG_HCI/hci.c:323-327 | a Command Complete echoing a different opcode fails the request |
| HciPacket.LeMetaAnswers | spbtlerf/SimpleBlueNRG_HCI/hci.c:336-345 | an LE Meta event answers exactly when its subevent is the awaited one, with the data after the subevent code truncated to rlen; otherwise it is not the answer |
| HciPacket.HardwareErrorFails | spbtlerf/SimpleBlueNRG_HCI/hci.c:347-348 | a Hardware Error event fails every request, whatever it awaits |
| Hci.ArenaConserved | spbtlerf/SimpleBlueNRG_HCI/hci.c:77-81 | the pool HCI_Init builds, every buffer in index order, holds each buffer exactly once |
| Hci.ConservedRecycle | spbtlerf/SimpleBlueNRG_HCI/hci.c:121-125 | moving the receive-queue head to the pool tail neither creates nor loses a buffer |
| Hci.ConservedEnqueue | spbtlerf/SimpleBlueNRG_HCI/hci.c:168-174 | moving the pool head to the receive-queue tail conserves the buffers |
| Hci.ConservedTake | spbtlerf/SimpleBlueNRG_HCI/hci.c:292-293 | the receive-queue head taken by hci_send_req is conserved while held |
| Hci.ConservedSetAside | spbtlerf/SimpleBlueNRG_HCI/hci.c:368 | a held buffer set aside at the temporary-queue tail is conserved |
| Hci.ConservedDiscard | spbtlerf/SimpleBlueNRG_HCI/hci.c:359-361 | a held buffer discarded at the pool tail is conserved |
| Hci.ConservedRelease | spbtlerf/SimpleBlueNRG_HCI/hci.c:378-388 | a held buffer returned to the pool head on the failed or done exit is conserved |
| Hci.ConservedSplice | spbtlerf/SimpleBlueNRG_HCI/hci.c:382 | splicing the temporary queue onto the receive-queue head conserves the buffers |
| Hci.ConservedParts | spbtlerf/SimpleBlueNRG_HCI/hci.c:50-53 | conservation means the lists are disjoint and hold HCI_READ_PACKET_NUM_MAX buffers between them |
| Hci.ReadAll | spbtlerf/SimpleBlueNRG_HCI/hci.c:170 | a read delivers a prefix of the controller's packet of at most HCI_READ_PACKET_SIZE bytes, and the whole packet when it fits |
| Hci.AcceptedReadsNext | spbtlerf/SimpleBlueNRG_HCI/hci.c:171-181 | one more read adds that read to the queued packets exactly when it is non-empty and HCI_verify accepts it |
| Hci.AcceptedReadsAccepted | spbtlerf/SimpleBlueNRG_HCI/hci.c:171-174 | every queued packet passed HCI_verify and fits a buffer |
| Hci.AcceptedReadsParsable | spbtlerf/SimpleBlueNRG_HCI/hci.c:171-174 | when every accepted read carries its event's fixed parameters, so does every queued packet |
| Hci.MalformedNeverQueued | spbtlerf/SimpleBlueNRG_HCI/hci.c:171-181 | a stream of empty or rejected reads queues nothing |
| Hci.EventsQueuedVerbatim | spbtlerf/SimpleBlueNRG_HCI/hci.c:170-174 | framed events that fit a buffer are all queued, byte for byte and in arrival order |
| Hci.EvictCount | spbtlerf/SimpleBlueNRG_HCI/hci.c:238 | after the evictions the pool holds at least HCI_READ_PACKET_NUM_MAX/2 buffers, and it evicts no more than needed to reach that |
| Hci.EffectiveTimeout | spbtlerf/SimpleBlueNRG_HCI/hci.c:270-272 | only a zero timeout is changed, and no non-negative timeout ends below 1 |
| Hci.MoveList | spbtlerf/SimpleBlueNRG_HCI/hci.c:221-229 | dest ends as the old src followed by the old dest (src's order kept) and src ends empty |
| Hci.HciTransport.constructor | spbtlerf/SimpleBlueNRG_HCI/hci.c:50-67 | the static state before HCI_Init: empty lists, interrupt unmasked, no reader thread (thread_pid == -1) |
| Hci.HciTransport.Init | spbtlerf/SimpleBlueNRG_HCI/hci.c:69-88 | afterwards the pool holds the five buffers in index order, the receive queue is empty, buffers are conserved, and a reader thread is created only if thread_pid was -1 |
| Hci.HciTransport.QueueEmpty | spbtlerf/SimpleBlueNRG_HCI/hci.c:134-137 | true exactly when the receive queue is empty |
| Hci.HciTransport.Isr | spbtlerf/SimpleBlueNRG_HCI/hci.c:142-148 | the only effect is that the reader thread is signalled |
| Hci.HciTransport.ReadOne | spbtlerf/SimpleBlueNRG_HCI/hci.c:165-181 | the pool head is filled from the next read; it goes to the receive-queue tail, holding that read, exactly when the read is non-empty and verified, and back to the pool head otherwise; packets already queued are unchanged |
| Hci.HciTransport.Fill | spbtlerf/SimpleBlueNRG_HCI/hci.c:170-172 | a non-empty read is stored in the taken buffer, and no queued or set-aside packet changes |
| Hci.HciTransport.DrainStep | spbtlerf/SimpleBlueNRG_HCI/hci.c:164-183 | one pass of the drain loop keeps its invariant: the accepted reads so far fill the first pool buffers and follow the queued packets in order; a pass that empties the pool consumed a read that was queued |
| Hci.HciTransport.Drain | spbtlerf/SimpleBlueNRG_HCI/hci.c:164-188 | the loop stops when the controller has no data or the pool is empty, and when it stops on an empty pool the last read it consumed was queued (it reads no further than needed); the buffers used come from the pool head in order and are appended to the receive queue; the queue holds its old packets followed by exactly the accepted reads; buffers are conserved and the temporary queue is untouched |
| Hci.HciTransport.ReaderStep | spbtlerf/SimpleBlueNRG_HCI/hci.c:157-190 | a signalled reader consumes the signal and drains, stopping on an empty pool only after a queued read; an unsignalled one changes nothing |
| Hci.HciTransport.Recycle | spbtlerf/SimpleBlueNRG_HCI/hci.c:121-125 | the receive-queue head moves to the pool tail, conserving the buffers |
| Hci.HciTransport.Deliver | spbtlerf/SimpleBlueNRG_HCI/hci.c:119-127 | the oldest queued packet is the one handed to HCI_Event_CB, and its buffer goes to the pool tail with the interrupt unmasked afterwards |
| Hci.HciTransport.Process | spbtlerf/SimpleBlueNRG_HCI/hci.c:112-132 | every queued packet is delivered exactly once, oldest first; the buffers are appended to the pool in queue order; the queue ends empty, the reader is signalled and the interrupt is unmasked |
| Hci.HciTransport.SendCmd | spbtlerf/SimpleBlueNRG_HCI/hci.c:207-219 | exactly one write of the command packet is issued |
| Hci.HciTransport.FreeEventList | spbtlerf/SimpleBlueNRG_HCI/hci.c:232-247 | on exit the pool holds at least half of the buffers; the evicted buffers are the oldest queued ones, appended to the pool tail in order; the packets left queued are unchanged; the queue never runs dry while the pool is short; the reader is signalled iff something moved |
| Hci.HciTransport.Wait | spbtlerf/SimpleBlueNRG_HCI/hci.c:282-289 | while hci_send_req polls an empty queue the reader only appends buffers to the receive queue, and the queue's packets become its old packets followed by exactly the controller reads accepted meanwhile, which leave the controller's stream; the set-aside packets are unchanged, skipped ones stay skipped, and the queue stays readable |
| Hci.HciTransport.Dequeue | spbtlerf/SimpleBlueNRG_HCI/hci.c:292-293 | the receive-queue head is taken with the interrupt masked, and it is held without loss |
| Hci.HciTransport.Park | spbtlerf/SimpleBlueNRG_HCI/hci.c:355-374 | a packet that does not decide the request goes to the pool tail when pool and queue are both empty, and to the temporary-queue tail otherwise; the reader is signalled and the interrupt unmasked |
| Hci.HciTransport.Release | spbtlerf/SimpleBlueNRG_HCI/hci.c:379-388 | the held buffer goes to the pool head and nothing else changes |
| Hci.HciTransport.RestoreTemp | spbtlerf/SimpleBlueNRG_HCI/hci.c:382-391 | the set-aside packets are put back at the receive-queue head in the order they were dequeued, the temporary queue is emptied and the interrupt unmasked |
| Hci.HciTransport.Examine | spbtlerf/SimpleBlueNRG_HCI/hci.c:291-374 | one dequeued packet is classified as the switch does; a deciding packet stays held, any other is parked; the examined buffers and the rest of the queue still make up, in order, the queue plus what has arrived; the packet dequeued joins the examined packets, which followed by the queued packets are still the starting packets followed by the accepted reads, and the set-aside packets are the examined ones the mask selects |
| Hci.HciTransport.Search | spbtlerf/SimpleBlueNRG_HCI/hci.c:276-376 | the loop ends holding the last packet examined, which decides the request, or with the timer expired; every packet examined before it was skipped by the switch; the packets set aside are those the mask selects from the examined ones, in dequeue order, and the examined packets followed by the queued ones are the starting packets followed by the reads accepted meanwhile; with a positive budget a non-empty queue is examined |
| Hci.HciTransport.Poll | spbtlerf/SimpleBlueNRG_HCI/hci.c:280-289 | one poll of an empty queue keeps the search's invariant on the buffers and on the packets, with the newly queued buffers added to what has arrived |
| Hci.HciTransport.Await | spbtlerf/SimpleBlueNRG_HCI/hci.c:274-392 | after the search a held deciding buffer goes to the pool head and the packets set aside are back, unchanged and in order, at the queue head; the examined packets followed by those queued behind the restored ones are the starting packets followed by the reads accepted meanwhile; every examined packet but a deciding last one was skipped, and the outcome is the deciding packet's classification |
| Hci.PollBudget | spbtlerf/SimpleBlueNRG_HCI/hci.c:270-272 | a non-negative timeout gives the search at least one empty poll before the timer expires |
| Hci.HciTransport.SendReq | spbtlerf/SimpleBlueNRG_HCI/hci.c:249-393 | free_event_list runs first and exactly one command is written; async returns 0 at once with the queue untouched; otherwise the result is 0 exactly when the deciding packet matched, and rlen/rparam are then its truncated payload; -1 leaves them alone; the packets examined, in order, followed by those queued behind the restored ones, are the packets left after free_event_list followed by the controller reads accepted meanwhile; the packets set aside are back at the queue head, unchanged and in order; every examined packet but a deciding last one was skipped by the switch, a discarded one included; buffers are conserved and the interrupt is unmasked on every exit |
| SensorService.StrLen | spbtlerf/sensor_service.cpp:138 | the length counts exactly the bytes before the first zero byte |
| SensorService.NameLen | spbtlerf/sensor_service.cpp:138 | dev_nameLen is the strlen clamped to 7, and the full strlen when shorter |
| SensorService.NameFieldRoundTrip | spbtlerf/sensor_service.cpp:136-141 | dev_name starts with the Complete Local Name AD type, followed by the clamped name, which holds no zero byte (the whole string when it fits), and is zero after it |
| SensorService.AccBytesRoundTrip | spbtlerf/sensor_service.cpp:310-312 | each of X, Y and Z is read back from its two little-endian bytes at offsets 0, 2 and 4, exactly for int16_t axes |
| SensorService.SecondsOf | spbtlerf/sensor_service.cpp:758 | the value sent is the number of whole seconds of the microsecond clock |
| SensorService.MinuteOf | spbtlerf/sensor_service.cpp:790-795 | dividing the milliseconds by 60000 gives the whole minutes of the microsecond clock |
| SensorService.TimeBytesRoundTrip | spbtlerf/sensor_service.cpp:800 | the four time[] bytes read back to the minute (or second) counter |
| SensorService.FirstFailure | spbtlerf/sensor_service.cpp:172-228 | every command before the returned index succeeded and the one at it failed |
| SensorService.FirstStatus | spbtlerf/sensor_service.cpp:172-228 | success exactly when all commands succeed; otherwise the status of the first failing command |
| SensorService.Issued | spbtlerf/sensor_service.cpp:172-228 | every command before the last issued one succeeded, and fewer than all are issued only when the last issued one failed; all are issued when none fails |
| SensorService.Decode | spbtlerf/sensor_service.cpp:626-688 | a non-event packet reaches no callback; a Disconnection Complete event, an LE Meta event of subevent LE Connection Complete, and the attribute-modified and read-permit vendor events, and only these, reach their callbacks, so an LE Meta event of another subevent, another vendor code or another event code reaches none; handles are 16-bit and the peer address has six bytes |
| SensorService.DisconnectionDecodes | spbtlerf/sensor_service.cpp:637-642 | a Disconnection Complete event reaches the disconnection callback |
| SensorService.ConnectionDecodes | spbtlerf/sensor_service.cpp:645-657 | an LE Connection Complete event reaches the connection callback with the peer address and connection handle the controller sent |
| SensorService.OtherLeSubeventsIgnored | spbtlerf/sensor_service.cpp:645-656 | an LE Meta event of any subevent but LE Connection Complete reaches no callback |
| SensorService.GattVendorDecodes | spbtlerf/sensor_service.cpp:660-685 | the attribute-modified and read-permit vendor events reach their callbacks with the attribute handle sent; other vendor codes reach none |
| SensorService.OtherEventsIgnored | spbtlerf/sensor_service.cpp:635-688 | an event code other than the three dispatched reaches no callback |
| SensorService.Refresh | spbtlerf/sensor_service.cpp:597-612 | none exactly when the handle is the value handle of none of the four sensor characteristics; an accelerometer read sends exactly the remembered axes; a temperature read sends the axes then the temperature; a pressure or a humidity read that no earlier branch takes sends exactly its one update; the last update is always of the characteristic read |
| SensorService.SensorServiceClass.constructor | spbtlerf/sensor_service.cpp:66 | the global object starts with every flag false and the connection handle and last minute zero |
| SensorService.SensorServiceClass.Begin | spbtlerf/sensor_service.cpp:122-229 | a NULL address returns BLE_STATUS_NULL_PARAM before any command, with dev_nameLen set to 7; dev_name is the clamped name; a failed version read returns its status; otherwise the reset is issued, the board is detected, the six commands are issued up to the first failure and the first failing status is returned |
| SensorService.SensorServiceClass.DetectBoard | spbtlerf/sensor_service.cpp:161-169 | a hardware version above 0x30 selects IDB05A1 and sets addr[5] to 0x02; otherwise nothing changes |
| SensorService.SensorServiceClass.Configure | spbtlerf/sensor_service.cpp:172-228 | the six commands are issued in order up to and including the first failure, and its status is returned (a failed tx-power step included) |
| SensorService.SensorServiceClass.AccUpdate | spbtlerf/sensor_service.cpp:301-321 | the axes are remembered and sent as six bytes; the result is success or BLE_STATUS_ERROR |
| SensorService.SensorServiceClass.SecondsUpdate | spbtlerf/sensor_service.cpp:752-776 | the whole seconds are sent as four big-endian bytes |
| SensorService.SensorServiceClass.MinutesNotify | spbtlerf/sensor_service.cpp:783-815 | an unchanged minute sends nothing and succeeds; a new minute is recorded and sent big-endian |
| SensorService.SensorServiceClass.UpdateTimeCharacteristics | spbtlerf/sensor_service.cpp:822-826 | the seconds are sent, then the minute only when it changed |
| SensorService.SensorServiceClass.SetConnectable | spbtlerf/sensor_service.cpp:530-546 | only a pending set_connectable clears the scan response and advertises the name; the flag ends cleared whatever the result |
| SensorService.SensorServiceClass.IsConnected | spbtlerf/sensor_service.cpp:548-551 | the result is the connected flag |
| SensorService.SensorServiceClass.ConnectionComplete | spbtlerf/sensor_service.cpp:559-574 | connected is set and the handle recorded; nothing else changes |
| SensorService.SensorServiceClass.DisconnectionComplete | spbtlerf/sensor_service.cpp:581-588 | connected and notification_enabled are cleared and set_connectable set; nothing else changes |
| SensorService.SensorServiceClass.RefreshCharacteristic | spbtlerf/sensor_service.cpp:597-612 | the characteristic read is refreshed, with no change to the service state |
| SensorService.SensorServiceClass.ReadRequest | spbtlerf/sensor_service.cpp:595-617 | after the refresh, the read is allowed exactly when the connection handle is non-zero |
| SensorService.SensorServiceClass.AttributeModified | spbtlerf/sensor_service.cpp:880-889 | ledState toggles exactly when the handle is the LED button value handle, so two such writes restore it |
| SensorService.SensorServiceClass.HciEventCb | spbtlerf/sensor_service.cpp:626-688 | each decoded event runs its callback with the decoded fields, and any other packet changes nothing |

## Left out

- Threads and signalling: `thread_create`, `cond_wait`/`cond_signal` and the reader mutex. The reader is a method that runs when `hci_send_req` polls an empty queue. `HCI_Isr` sets a wake-up flag.
- Real interrupt masking: `Disable_SPI_IRQ`/`Enable_SPI_IRQ` are a ghost flag, unmasked between calls. With no concurrent reader, the interleavings it prevents are not modelled.
- SPI I/O: `BlueNRG_DataPresent` and `BlueNRG_SPI_Read_All` are the head of a sequence of controller packets. `hci_write`/`Hal_Write_Serial` append to a log of written packets. HCI logging is left out.
- The timer: `Timer_Set`/`Timer_Expired` and `hci_timeout_callback` become a budget of empty polls, EffectiveTimeout(timeout) times a parameter `pollsPerUnit`. Time passes only while the receive queue is empty.
- `DEFAULT_TIMEOUT` is a parameter, since its header is not part of this model.
- The intrusive `ble_list` nodes are sequences of buffer indices. Pointer aliasing within a list is not modelled.
- The headers `hci.h`, `hci_const.h`, `ble_status.h`, `bluenrg_aci_const.h` and `sensor_service.h` are not part of this model:
  - `HCI_READ_PACKET_SIZE` (`hci.h`) is taken as 128 and the `dev_name` array (`sensor_service.h`) as 8 bytes;
  - event codes and sizes follow the Bluetooth Core Specification;
  - the BLE status values other than success are placeholders, and only their being non-zero matters;
  - the initial field values of the global service object are taken as zero;
  - the attribute-handle offset is taken as the same in the IDB04A1 and IDB05A1 attribute-modified layouts.
- `cmd_opcode_pack`/`htobs` are taken per section 5.4.1 on a little-endian host.
- Short packets: `hci_send_req` and `Sensor_HCI_Event_CB` read sub-headers without a length check. The model requires the packets to be long enough (`Parsable`, `Readable`) instead of inventing the behaviour of an overrun.
- Hci.HciTransport.Process: `HCI_Event_CB` is a parameter of the driver; the packets it would receive are returned in call order. The model assumes the callback issues no HCI command. In the source it can: `Sensor_HCI_Event_CB` runs `Read_Request_CB`, whose `aci_*` commands re-enter `hci_send_req` while the delivered buffer is in neither list (hci.c:121-125). There `free_event_list` may move queued packets to the pool, and `HCI_Process` would never deliver them, so "every queued packet is delivered exactly once" does not hold for the source under re-entry.
- Hci.RequestOk: requires `rlen >= 0`. The source's `rlen` is an `int`, and with a negative `rlen` the `MIN` in `hci_send_req` would hand `Osal_MemCpy` a negative length; that case is not modelled.
- `getBlueNRGVersion`, `BlueNRG_RST` and `xtimer_now_usec` are parameters or recorded calls.
- The `Add_*_Service` builders, `Free_Fall_Notify`, the UUID macros and `PRINTF` are left out.
- `Temp_Update`, `Press_Update` and `Humidity_Update` send an integer's bytes in host order. Only the call (`UpdateNative`) is recorded, not its bytes.
