/** The vocabulary of the ESP-IDF SDK that the bridge core consumes: byte and
    integer widths, error codes, Wi-Fi modes, interfaces and events, the
    raw-receive hooks the radio driver can hold, and a ghost model of the C
    heap that records which allocations are live. */
module Esp {

  newtype byte = b: int | 0 <= b < 0x100

  /** `uint16_t` and `uint32_t` lengths. */
  type uint16 = n: nat | n < 0x1_0000
  type uint32 = n: nat | n < 0x1_0000_0000

  /** A 6-byte IEEE 802 MAC address. */
  type Mac = m: seq<byte> | |m| == 6 witness [0, 0, 0, 0, 0, 0]

  /** `esp_err_t` as the core uses it. */
  datatype EspErr = EspOk | EspFail

  /** `wifi_mode_t`: the three modes the core switches on and the two it
      passes to its `default` branches. */
  datatype WifiMode = ModeNull | ModeSta | ModeAp | ModeApSta | ModeNan

  /** `wifi_interface_t`: the interface a hook is registered on or a frame
      is sent on. */
  datatype WifiInterface = IfSta | IfAp

  /** The `WIFI_EVENT` ids the handlers switch on, with the peer address
      the handler copies: for `StaConnected` the access point's BSSID as
      `esp_wifi_sta_get_ap_info` returns it, for `ApStaConnected` and
      `ApStaDisconnected` the station MAC of the event data. */
  datatype WifiEvent =
    | StaStart
    | StaStop
    | StaConnected(bssid: Mac)
    | StaDisconnected
    | ApStart
    | ApStop
    | ApStaConnected(mac: Mac)
    | ApStaDisconnected(mac: Mac)
    | OtherWifiEvent(id: int)

  /** What `esp_wifi_internal_reg_rxcb` has registered on one interface:
      nothing, the raw-receive callback of wenet_wifi.c, or the empty one of
      wifi.c. */
  datatype Hook = NoHook | CallbackReceiveRaw | ReceiveRawCallback

  /** One call of `esp_wifi_internal_tx`: the interface and the bytes sent. */
  datatype Tx = Tx(iface: WifiInterface, bytes: seq<byte>)

  /** The C heap, reduced to the set of allocations that are live:
      `malloc` adds a fresh object, `free` removes a live one (freeing
      anything else is undefined behaviour, so it is a precondition). */
  class Heap {
    ghost var live: set<object>

    constructor ()
      ensures live == {}
    {
      live := {};
    }

    ghost method Malloc(o: object)
      requires o !in live
      modifies this
      ensures live == old(live) + {o}
    {
      live := live + {o};
    }

    ghost method Free(o: object)
      requires o in live
      modifies this
      ensures live == old(live) - {o}
    {
      live := live - {o};
    }
  }
}
