# WeNet Ethernet/Wi-Fi bridge — Dafny model

WeNet is ESP32 firmware that relays raw Ethernet frames between a wired
port and the Wi-Fi radio used in raw mode. Frames from the wire are
queued by the Ethernet driver's input path (`ethernet_input_path`) into a
bounded queue of 50 records; a send task (`wifi_task_send_raw`) takes them
one at a time, moves the frame's 12 address bytes to the tail, writes a
new destination/source pair for the current role (station or access
point) in front and hands the result, 12 bytes longer, to the radio.
Frames received from the radio go the opposite way in the raw-receive
callback (`wifi_callback_receive_raw`): the last 12 bytes go back to the
front and the frame, 12 bytes shorter, goes to the wire. Mode changes
register and unregister that callback on the radio interfaces and start
send tasks. Ethernet link events set `eth_connected` and flush the queue;
Wi-Fi association events set `wifi_connected` and record the peer
address.

The model has six modules:

- `Esp` — the SDK vocabulary (bytes, 6-byte addresses, Wi-Fi modes,
  interfaces and events, the raw-receive hooks, a radio transmit record)
  and a ghost `Heap` whose `live` set holds every allocation not yet
  freed. `Free` demands a live object, so every path is proved free of
  double frees, and the leaks of the C code show up in the contracts.
- `Frame` — the address rewrite pair as functions on byte sequences
  (`ToWireless`, `ToWired`), both round trips, what one and what many
  worker iterations transmit (`Forward`, `ForwardAll`), and the
  `memcpy` steps on arrays that the worker and the callback perform.
- `CString` — the `memset` + `strcpy` of the credential buffers and the
  `strlen` that reads them back.
- `WenetEthernet` — the statics of `main/ethernet/wenet_ethernet.c` as a
  class: the queue, the link flag, the driver's transmit log; the input
  path and the link event handler.
- `WenetWifi` — `main/wifi/wenet_wifi.c` as a class holding its statics
  (mode, raw-mode flag, `wifi_connected`, the two address buffers, the
  credential buffers) and ghost driver state (hook per interface, tasks
  created, roles started, radio transmits); the mode state machine also
  as a pure function over a `Control` value, with lemmas over runs of
  operations.
- `Wifi` — the other radio module, `main/wifi/wifi.c`, which defines the
  same C functions differently (only access-point mode starts anything;
  the access-point hook follows stations joining and leaving; the
  callback does nothing). The two radio files cannot be linked together,
  so they are two independent modules here.

Inputs from the driver that the C code reads from the SDK become
parameters: the addresses `esp_read_mac` returns (`stationMac`,
`softApMac`), the peer address of an association (for a station
association the access point's BSSID that `esp_wifi_sta_get_ap_info`
returns, for a station joining the access point the MAC in the event
data), the received buffers and their lengths.

## Model

| member | source | states |
|---|---|---|
| Frame.ToWireless | main/wifi/wenet_wifi.c:243-258 | The radio buffer is the frame plus 12 bytes: the new pair in bytes 0-11, the frame's payload after it, the frame's original 12 address bytes at the tail. |
| Frame.ToWired | main/wifi/wenet_wifi.c:219-228 | The wired frame is the radio buffer minus 12 bytes: its last 12 bytes in front, then the bytes between its first 12 and its last 12. |
| Frame.RoundTrip | main/wifi/wenet_wifi.c:243-259 | Rewriting a wired frame for the radio and back gives the original frame, whatever address pair was inserted. |
| Frame.RoundTripFromRadio | main/wifi/wenet_wifi.c:219-228 | Rewriting a radio buffer for the wire and back with the pair it carried gives the original buffer. |
| Frame.Forward | main/wifi/wenet_wifi.c:241-265 | While associated: station mode sends one buffer on the station interface led by (access point, own station); access-point mode one on the access-point interface led by (station, own access point); every other mode sends nothing; each buffer is 12 bytes longer and rewrites back to the frame. |
| Frame.StationExample | main/wifi/wenet_wifi.c:249-252 | A 60-byte frame in station mode gives one 72-byte transmit whose first 12 bytes are the access point's address then the station's. |
| Frame.ForwardAll | main/wifi/wenet_wifi.c:236-272 | Draining a sequence of frames sends nothing when not associated or in a mode other than station/access point, otherwise one transmit per frame in queue order on the role's interface, each headed by the role's address pair (access point then own station in station mode, associated station then own access point in access-point mode) and rewriting back to its frame. |
| Frame.Memcpy | main/wifi/wenet_wifi.c:223 | Copies n bytes between non-overlapping regions and leaves the rest of the destination as it was. |
| Frame.CopyIntoLarger | main/wifi/wenet_wifi.c:243-244 | A new buffer 12 bytes longer than the frame whose first bytes are the frame. |
| Frame.SaveAddrsAtTail | main/wifi/wenet_wifi.c:246 | The buffer becomes the frame followed by its own first 12 bytes. |
| Frame.WriteAddrs | main/wifi/wenet_wifi.c:250-251 | Bytes 0-5 become the destination address, bytes 6-11 the source address, the rest is unchanged; on a frame followed by its own address bytes the result is the radio rewrite of the frame. |
| Frame.MoveTailToFront | main/wifi/wenet_wifi.c:223 | After moving the last 12 bytes to the front, the first `len - 12` bytes are the wired rewrite of the received buffer; the bytes from `len - 12` on keep their values. |
| CString.StrLen | main/wifi/wenet_wifi.c:155 | The length is the index of the first NUL (or the whole buffer), with no NUL before it. |
| CString.ReadBack | main/wifi/wenet_wifi.c:88-94 | After zero-fill and copy, `strlen` of the buffer is the new string's length and the buffer's prefix is the new string: no byte of a longer earlier value survives. |
| CString.ZeroThenCopy | main/wifi/wenet_wifi.c:90-93 | The buffer holds the string followed by NULs to its end. |
| Esp.Heap.Malloc | main/ethernet/wenet_ethernet.c:83 | An allocation adds a fresh object, not live before, to the live set and nothing else. |
| Esp.Heap.Free | main/wifi/wenet_wifi.c:245 | Freeing demands a live object and removes exactly it from the live set: a double free cannot be called. |
| WenetEthernet.Offer | main/ethernet/wenet_ethernet.c:86 | The queued records are kept in front; the record is accepted at the tail exactly when fewer than 50 are queued, and otherwise the queue is unchanged; a queue within capacity stays within it. |
| WenetEthernet.OfferAllKeepsOldest | main/ethernet/wenet_ethernet.c:86-95 | A burst of offers keeps what was queued, accepts the earliest offers in arrival order while there is room and rejects all later ones; the queue never exceeds 50. |
| WenetEthernet.EthernetModule.constructor | main/ethernet/wenet_ethernet.c:20-59 | The statics after `ethernet_init`: the queue `xQueueCreate` makes (line 59) empty, the link down (line 21), nothing transmitted. |
| WenetEthernet.EthernetModule.InputPath | main/ethernet/wenet_ethernet.c:81-97 | A new record wraps the buffer; with room it is appended and the result is ESP_OK; on a full queue the queue is unchanged, the buffer is freed, the result is ESP_FAIL and the record stays allocated and unreachable. |
| WenetEthernet.EthernetModule.Receive | main/wifi/wenet_wifi.c:239 | The oldest record is removed and handed over, and the queue no longer holds it or its buffer. |
| WenetEthernet.EthernetModule.ResetQueue | main/ethernet/wenet_ethernet.c:114 | The queue is empty; everything it held stays allocated. |
| WenetEthernet.EthernetModule.EventHandler | main/ethernet/wenet_ethernet.c:107-131 | Link up empties the queue and sets the flag, link down clears the flag and empties the queue, other events change nothing; dropped records are not freed. |
| WenetEthernet.EthernetModule.Track | main/wifi/wenet_wifi.c:243 | A `malloc`: the object becomes live. |
| WenetEthernet.EthernetModule.Release | main/wifi/wenet_wifi.c:245 | A `free` of a live object the queue does not hold: it is no longer live and the queue stays valid. |
| WenetEthernet.EthernetModule.Transmit | main/wifi/wenet_wifi.c:224 | `esp_eth_transmit` appends the frame to the wired transmit log. |
| WenetWifi.ChangeModeEffects | main/wifi/wenet_wifi.c:46-86 | A mode change records the mode; in raw mode it removes the old role's hook (unless re-registered) and hooks the relay callback on the new role's interface; the hook of an interface neither the old nor the new mode uses is unchanged; without raw mode no hook changes; each raw start adds a task and none is removed. |
| WenetWifi.HooksMatchAlongRun | main/wifi/wenet_wifi.c:46-99 | Along any run of mode changes that never flips raw mode while a role is active, a hook is registered exactly on the current role's interface and only in raw mode. |
| WenetWifi.TasksCountStarts | main/wifi/wenet_wifi.c:124-129 | After a run of mode changes in raw mode the task count has grown by the number of changes into station or access point mode, even when a task is already running. |
| WenetWifi.StaleHookAfterRawModeOff | main/wifi/wenet_wifi.c:52-57 | Raw mode switched off in station mode, then a change to access point: the station hook is still registered. |
| WenetWifi.SecondTaskOnReentry | main/wifi/wenet_wifi.c:124-129 | Changing into station mode twice in raw mode leaves two send tasks. |
| WenetWifi.WifiModule.constructor | main/wifi/wenet_wifi.c:15-23 | Mode NULL, raw mode off, not associated, no hooks, no tasks, nothing started or sent. |
| WenetWifi.WifiModule.Uninit | main/wifi/wenet_wifi.c:46-67 | In raw mode the current role's hook is removed; nothing else changes. |
| WenetWifi.WifiModule.StartStation | main/wifi/wenet_wifi.c:101-131 | The station role is started and its address stored; in raw mode the relay callback is hooked on the station interface and one more task exists. |
| WenetWifi.WifiModule.StartAp | main/wifi/wenet_wifi.c:133-167 | As StartStation for the access-point role and address. |
| WenetWifi.WifiModule.ChangeMode | main/wifi/wenet_wifi.c:69-86 | The new state is the mode-change function of the old one; only the started role's address changes; the association flag and transmit log are untouched. |
| WenetWifi.WifiModule.SetRawMode | main/wifi/wenet_wifi.c:96-99 | Only the raw-mode flag changes. |
| WenetWifi.WifiModule.ChangeSsidPass | main/wifi/wenet_wifi.c:88-94 | Each credential buffer holds its new string followed by NULs. |
| WenetWifi.WifiModule.EventHandler | main/wifi/wenet_wifi.c:169-217 | Station association stores the access point's address and sets the flag; a station joining the access point stores its address and sets the flag; either disassociation clears it; other events change nothing; hooks and mode never change. |
| WenetWifi.WifiModule.CallbackReceiveRaw | main/wifi/wenet_wifi.c:219-228 | With the wired link up the wire receives the rewritten frame, the buffer's first `len - 12` bytes become that frame and its bytes from `len - 12` on keep their values; with the link down the buffer is untouched; the driver buffer is freed in every case; the result is ESP_OK. |
| WenetWifi.WifiModule.TaskStart | main/wifi/wenet_wifi.c:232-235 | The queue is emptied without freeing what it held. |
| WenetWifi.WifiModule.SendRawStep | main/wifi/wenet_wifi.c:236-272 | With nothing queued nothing changes; otherwise the oldest record is taken and what `Forward` gives is sent; record and buffer are freed when not associated or in station/access-point mode; in other modes the new buffer and the record leak. |
| WenetWifi.WifiModule.SendRawLoop | main/wifi/wenet_wifi.c:236-274 | Running until the queue is empty sends `ForwardAll` of the queued frames, in order; every queued allocation is freed exactly once when not associated or in station/access-point mode; associated in another mode, every queued buffer is freed, every record stays live, and the live set grows by exactly one new buffer per queued record, no two of them the same. |
| WenetWifi.WifiModule.ForwardRecord | main/wifi/wenet_wifi.c:243-265 | The associated branch: the radio log gains `Forward` of the frame; the old buffer is freed; new buffer and record are freed in station/access-point mode, leaked otherwise. |
| WenetWifi.WifiModule.SendForRole | main/wifi/wenet_wifi.c:249-261 | In station or access-point mode the radio log gains `Forward` of the frame and the new buffer and the record are freed. |
| WenetWifi.WifiModule.StoreMac | main/wifi/wenet_wifi.c:183 | The address buffer holds the 6 given bytes. |
| Wifi.ChangeModeEffects | main/wifi/wifi.c:39-70 | A mode change records the mode and never touches the hook; only access-point mode starts a role. |
| Wifi.OnlyLeaveUnhooks | main/wifi/wifi.c:114-145 | Once registered, the access-point hook survives every run without a station-leave event, whatever modes and raw-mode settings it contains. |
| Wifi.HookOnlyFollowsStations | main/wifi/wifi.c:54-83 | Without join or leave events no run of mode changes or raw-mode switches changes the hook. |
| Wifi.StaleHookAfterRawModeOff | main/wifi/wifi.c:128-141 | A station joins in raw mode, raw mode is switched off, the station leaves: the hook stays registered. |
| Wifi.WifiModule.constructor | main/wifi/wifi.c:15-18 | Mode NULL, raw mode off, no hook, nothing started. |
| Wifi.WifiModule.Uninit | main/wifi/wifi.c:39-52 | Nothing changes. |
| Wifi.WifiModule.StartAp | main/wifi/wifi.c:85-112 | Only the access-point role is started: no hook and no task. |
| Wifi.WifiModule.ChangeMode | main/wifi/wifi.c:54-70 | The new state is the mode-change function of the old one. |
| Wifi.WifiModule.SetRawMode | main/wifi/wifi.c:80-83 | Only the raw-mode flag changes. |
| Wifi.WifiModule.ChangeSsidPass | main/wifi/wifi.c:72-78 | Each credential buffer holds its new string followed by NULs. |
| Wifi.WifiModule.EventHandler | main/wifi/wifi.c:114-145 | In raw mode a joining station hooks the callback on the access-point interface and a leaving one removes it; without raw mode and for every other event nothing changes. |
| Wifi.WifiModule.ReceiveRawCallback | main/wifi/wifi.c:147-149 | Nothing changes: nothing is relayed and the driver buffer stays allocated. |

## Left out

- Driver and peripheral bring-up (`esp_wifi_init`, `esp_wifi_set_mode`, `esp_wifi_set_config`, `esp_wifi_start`, the LAN8720 PHY set-up, GPIO, promiscuous mode, flow control): SDK calls whose effect is reduced to the ghost `started` log.
- `esp_wifi_connect` after a station start and after a station disconnection: a radio reconnect attempt with no effect on the modelled state.
- `esp_event_handler_register` on every start: registering the Wi-Fi event handler again is not modelled; the event handler is modelled once.
- `ESP_ERROR_CHECK` aborts and logging (`ESP_LOGI`/`ESP_LOGE`): the SDK calls are taken to succeed.
- The branches of `wifi_task_send_raw` on a NULL `eth_receive_queue`: the queue is created by `ethernet_init`, which the boot sequence runs before any radio mode is set, so the model always has a queue.
- Concurrency: the input path, the event handlers, the callback and the send tasks run on different FreeRTOS tasks; the model runs them one at a time. Several send tasks, the order "flush then set flag" against a concurrent sender, and the 100 ms wait of `xQueueSend` on a full queue are not modelled (a full queue rejects at once).
- WenetWifi.WifiModule.SendRawStep: the blocking `xQueueReceive(..., portMAX_DELAY)` on an empty queue is modelled as a step that changes nothing.
- WenetWifi.WifiModule.SendRawStep: requires the head frame to be at least 12 bytes long while associated; for a shorter frame the `memcpy` at line 246 copies from bytes the buffer never received and overlaps its own source.
- WenetWifi.WifiModule.SendRawLoop: requires every queued frame to be at least 12 bytes long while associated, for the same reason.
- WenetEthernet.EthernetModule.InputPath: `malloc` is taken to succeed; the C code dereferences its result unchecked (wenet_ethernet.c:84-85).
- WenetWifi.WifiModule.ForwardRecord: `malloc` is taken to succeed; the C code dereferences its result unchecked (wenet_wifi.c:244).
- WenetWifi.WifiModule.ForwardRecord: does not model the `uint32_t` overflow of `data_length + 12` nor the truncation of that length to the radio transmit's 16-bit length argument; frames are sent whole.
- WenetWifi.WifiModule.CallbackReceiveRaw: requires at least 24 received bytes while the wired link is up; for fewer, the `memcpy` at line 223 overlaps itself (undefined in C) or reads before the buffer.
- CString: the C `char` buffers are modelled as `array<char>` and the strings as Dafny `string`; each Dafny `char` stands for one C byte, so the limits of 32 and 64 count bytes only for strings of one-byte characters (multi-byte UTF-8 encodings are not modelled).
- WenetWifi.WifiModule.ChangeSsidPass: requires each string to fit its buffer with its terminator; a longer one overflows the static buffer in C. Wifi.WifiModule.ChangeSsidPass has the same requirement.
- The station/access-point configuration built from `ssid`/`password` in the start functions (including the station start copying into the `.ap` member of the configuration union): it is passed to the SDK, which is not modelled.
- `wifi_init` (an empty body), `ethernet_uninit`, `wifi_eth_addr`, `eth_esp_addr`/`eth_device_addr`, and the `eb` field of `raw_data_t` (never written or read by the core).
- The radio-side freeing of buffers handed to `esp_wifi_internal_tx` and the wire-side freeing of frames handed to `esp_eth_transmit`: they belong to the SDK.
- `main/system_manager.c` (the boot sequence) is not part of this model beyond the ordering fact above.
