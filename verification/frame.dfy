/** The address rewrite pair of the bridge, on byte sequences.

    A wired frame of L bytes starts with the destination and source address
    fields of an IEEE 802.3 MAC frame (IEEE 802.3, clause 3.2), 12 bytes in
    all. Going to the radio, the worker moves those 12 bytes to the tail and
    writes a fresh destination/source pair in their place, sending L + 12
    bytes; coming back from the radio, the receive callback moves the last
    12 bytes to the front again and sends L bytes to the wire. */
module Frame {
  import opened Esp

  /** Length of the destination + source address fields. */
  const AddrLen: nat := 12

  /** Bytes sent to the radio for a wired frame, with `dst`/`src` as the new
      address pair. */
  function ToWireless(frame: seq<byte>, dst: Mac, src: Mac): (out: seq<byte>)
    requires |frame| >= AddrLen
    ensures |out| == |frame| + AddrLen
    ensures out[..6] == dst && out[6..AddrLen] == src
    ensures out[AddrLen..|frame|] == frame[AddrLen..]
    ensures out[|frame|..] == frame[..AddrLen]
  {
    dst + src + frame[AddrLen..] + frame[..AddrLen]
  }

  /** Bytes sent to the wire for a buffer received from the radio: the last
      12 bytes, then everything between the first 12 and the last 12. */
  function ToWired(buf: seq<byte>): (out: seq<byte>)
    requires |buf| >= 2 * AddrLen
    ensures |out| == |buf| - AddrLen
    ensures out[..AddrLen] == buf[|buf| - AddrLen..]
    ensures out[AddrLen..] == buf[AddrLen..|buf| - AddrLen]
  {
    buf[|buf| - AddrLen..] + buf[AddrLen..|buf| - AddrLen]
  }

  /** Wired -> wireless -> wired gives back the original frame, whatever
      address pair was inserted. */
  lemma RoundTrip(frame: seq<byte>, dst: Mac, src: Mac)
    requires |frame| >= AddrLen
    ensures ToWired(ToWireless(frame, dst, src)) == frame
  {
    var out := ToWireless(frame, dst, src);
    assert out[|out| - AddrLen..] == frame[..AddrLen];
    assert out[AddrLen..|out| - AddrLen] == frame[AddrLen..];
    assert frame[..AddrLen] + frame[AddrLen..] == frame;
  }

  /** Wireless -> wired -> wireless gives back the radio buffer when the
      pair re-inserted is the one the buffer carried: the wired side loses
      only the 12 address bytes the radio side put in front. */
  lemma RoundTripFromRadio(buf: seq<byte>)
    requires |buf| >= 2 * AddrLen
    ensures ToWireless(ToWired(buf), buf[..6], buf[6..AddrLen]) == buf
  {
    var wired := ToWired(buf);
    var back := ToWireless(wired, buf[..6], buf[6..AddrLen]);
    assert back[..AddrLen] == buf[..AddrLen];
    assert back[AddrLen..|wired|] == buf[AddrLen..|buf| - AddrLen];
    assert back[|wired|..] == buf[|buf| - AddrLen..];
    assert back == back[..AddrLen] + back[AddrLen..|wired|] + back[|wired|..];
    assert buf == buf[..AddrLen] + buf[AddrLen..|buf| - AddrLen] + buf[|buf| - AddrLen..];
  }

  /** What one worker iteration transmits for a dequeued wired frame while
      the radio is associated: in station mode the pair (access point,
      own station) on the station interface, in access-point mode the pair
      (associated station, own access point) on the access-point interface,
      and nothing in any other mode. */
  function Forward(mode: WifiMode, apAddr: Mac, staAddr: Mac, frame: seq<byte>): (sent: seq<Tx>)
    requires |frame| >= AddrLen
    ensures |sent| == (if mode == ModeSta || mode == ModeAp then 1 else 0)
    ensures forall t | t in sent :: |t.bytes| == |frame| + AddrLen && ToWired(t.bytes) == frame
    ensures mode == ModeSta ==>
      sent[0].iface == IfSta && sent[0].bytes[..6] == apAddr && sent[0].bytes[6..AddrLen] == staAddr
    ensures mode == ModeAp ==>
      sent[0].iface == IfAp && sent[0].bytes[..6] == staAddr && sent[0].bytes[6..AddrLen] == apAddr
  {
    match mode
    case ModeSta =>
      RoundTrip(frame, apAddr, staAddr);
      [Tx(IfSta, ToWireless(frame, apAddr, staAddr))]
    case ModeAp =>
      RoundTrip(frame, staAddr, apAddr);
      [Tx(IfAp, ToWireless(frame, staAddr, apAddr))]
    case _ => []
  }

  /** A 60-byte wired frame in station mode with own station address
      AA:AA:AA:AA:AA:AA and access point BB:BB:BB:BB:BB:BB: one 72-byte
      transmit on the station interface, starting with BB..BB then AA..AA. */
  lemma StationExample(frame: seq<byte>)
    requires |frame| == 60
    ensures var sent := Forward(ModeSta, [0xBB, 0xBB, 0xBB, 0xBB, 0xBB, 0xBB], [0xAA, 0xAA, 0xAA, 0xAA, 0xAA, 0xAA], frame);
      |sent| == 1 && sent[0].iface == IfSta && |sent[0].bytes| == 72 &&
      sent[0].bytes[..AddrLen] == [0xBB, 0xBB, 0xBB, 0xBB, 0xBB, 0xBB, 0xAA, 0xAA, 0xAA, 0xAA, 0xAA, 0xAA]
  {
    var bytes := Forward(ModeSta, [0xBB, 0xBB, 0xBB, 0xBB, 0xBB, 0xBB], [0xAA, 0xAA, 0xAA, 0xAA, 0xAA, 0xAA], frame)[0].bytes;
    assert bytes[..AddrLen] == bytes[..6] + bytes[6..AddrLen];
  }

  /** The interface the worker sends on in `mode`. */
  function RoleInterface(mode: WifiMode): WifiInterface
  {
    if mode == ModeAp then IfAp else IfSta
  }

  /** Everything the worker transmits while it takes `frames` one after the
      other from the queue: nothing when the radio is not associated or the
      mode is neither station nor access point, otherwise one transmit per
      frame, in queue order, on the mode's interface, each one headed by
      the mode's address pair and giving back its frame through the
      reverse rewrite. */
  function ForwardAll(connected: bool, mode: WifiMode, apAddr: Mac, staAddr: Mac, frames: seq<seq<byte>>): (sent: seq<Tx>)
    requires connected ==> forall i | 0 <= i < |frames| :: |frames[i]| >= AddrLen
    ensures !connected || (mode != ModeSta && mode != ModeAp) ==> sent == []
    ensures connected && (mode == ModeSta || mode == ModeAp) ==>
      |sent| == |frames| &&
      forall i | 0 <= i < |frames| ::
        sent[i].iface == RoleInterface(mode) && |sent[i].bytes| == |frames[i]| + AddrLen &&
        ToWired(sent[i].bytes) == frames[i]
    ensures connected && mode == ModeSta ==>
      forall i | 0 <= i < |sent| :: sent[i].bytes[..6] == apAddr && sent[i].bytes[6..AddrLen] == staAddr
    ensures connected && mode == ModeAp ==>
      forall i | 0 <= i < |sent| :: sent[i].bytes[..6] == staAddr && sent[i].bytes[6..AddrLen] == apAddr
    decreases |frames|
  {
    if frames == [] then []
    else
      var last := frames[|frames| - 1];
      ForwardAll(connected, mode, apAddr, staAddr, frames[..|frames| - 1])
        + (if connected then Forward(mode, apAddr, staAddr, last) else [])
  }

  /** Taking one more frame appends what `Forward` sends for it. */
  lemma ForwardAllSnoc(connected: bool, mode: WifiMode, apAddr: Mac, staAddr: Mac, frames: seq<seq<byte>>, k: nat)
    requires k < |frames|
    requires connected ==> forall i | 0 <= i < |frames| :: |frames[i]| >= AddrLen
    ensures ForwardAll(connected, mode, apAddr, staAddr, frames[..k + 1]) ==
      ForwardAll(connected, mode, apAddr, staAddr, frames[..k]) +
      (if connected then Forward(mode, apAddr, staAddr, frames[k]) else [])
  {
    assert frames[..k + 1][..k] == frames[..k];
  }

  /** `memcpy(dst + at, src + from, n)`. The two regions must not overlap
      when they lie in the same buffer: that is undefined behaviour in C. */
  method Memcpy(dst: array<byte>, at: nat, src: array<byte>, from: nat, n: nat)
    requires at + n <= dst.Length && from + n <= src.Length
    requires dst == src ==> at + n <= from || from + n <= at
    modifies dst
    ensures dst[..] == old(dst[..at]) + old(src[from..from + n]) + old(dst[at + n..])
  {
    ghost var copied := src[from..from + n];
    var i := 0;
    while i < n
      invariant 0 <= i <= n
      invariant forall k | 0 <= k < at :: dst[k] == old(dst[k])
      invariant forall k | at + i <= k < dst.Length :: dst[k] == old(dst[k])
      invariant forall k | 0 <= k < i :: dst[at + k] == copied[k]
      invariant forall k | i <= k < n :: src[from + k] == copied[k]
    {
      dst[at + i] := src[from + i];
      i := i + 1;
    }
    assert dst[..] == old(dst[..at]) + copied + old(dst[at + n..]);
  }

  /** `new_data = malloc(len + 12); memcpy(new_data, data, len);` */
  method CopyIntoLarger(src: array<byte>, len: nat) returns (data: array<byte>)
    requires len <= src.Length
    ensures fresh(data) && data.Length == len + AddrLen
    ensures data[..len] == src[..len]
  {
    data := new byte[len + AddrLen];
    Memcpy(data, 0, src, 0, len);
  }

  /** `memcpy(new_data + len, new_data, 12)`: the original address fields
      saved at the tail. The regions are disjoint only for `len >= 12`. */
  method SaveAddrsAtTail(data: array<byte>, len: nat, ghost frame: seq<byte>)
    requires data.Length == len + AddrLen && len >= AddrLen
    requires data[..len] == frame
    modifies data
    ensures data[..] == frame + frame[..AddrLen]
  {
    Memcpy(data, len, data, 0, AddrLen);
    assert old(data[..AddrLen]) == frame[..AddrLen];
  }

  /** The two address `memcpy`s: `dst` into bytes [0, 6), `src` into
      bytes [6, 12). On a buffer holding a frame followed by its address
      fields this completes the rewrite for the radio. */
  method WriteAddrs(data: array<byte>, dst: array<byte>, src: array<byte>, ghost frame: seq<byte>)
    requires data.Length >= AddrLen && dst.Length == 6 && src.Length == 6
    requires data != dst && data != src
    requires |frame| >= AddrLen && data[..] == frame + frame[..AddrLen]
    modifies data
    ensures data[..] == dst[..] + src[..] + old(data[AddrLen..])
    ensures data[..] == ToWireless(frame, dst[..], src[..])
  {
    Memcpy(data, 0, dst, 0, 6);
    Memcpy(data, 6, src, 0, 6);
    assert old(data[AddrLen..]) == frame[AddrLen..] + frame[..AddrLen];
  }

  /** `memcpy(buf, buf + (len - 12), 12)` on a radio buffer of `len`
      bytes: its first `len - 12` bytes become the wired frame. The copy
      regions are disjoint only for `len >= 24`. */
  method MoveTailToFront(buf: array<byte>, len: nat)
    requires 2 * AddrLen <= len <= buf.Length
    modifies buf
    ensures buf[..len - AddrLen] == ToWired(old(buf[..len]))
    ensures buf[len - AddrLen..] == old(buf[len - AddrLen..])
  {
    ghost var before := buf[..len];
    Memcpy(buf, 0, buf, len - AddrLen, AddrLen);
    assert forall k | 0 <= k < AddrLen :: buf[k] == before[len - AddrLen + k];
    assert forall k | AddrLen <= k < len - AddrLen :: buf[k] == before[k];
    assert buf[..len - AddrLen] == ToWired(before);
  }
}
