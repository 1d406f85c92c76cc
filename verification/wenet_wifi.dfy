/** The radio side of the bridge as main/wifi/wenet_wifi.c implements it:
    the mode switch and the hook/task part of the two start functions, the
    Wi-Fi event handler, the raw-receive callback that relays radio frames
    to the wire, and the worker that drains the Ethernet queue to the
    radio. The radio driver is reduced to ghost state: the hook registered
    on each interface, the send tasks created, the roles started and the
    raw transmits made. */
module WenetWifi {
  import opened Esp
  import opened Frame
  import CString
  import opened WenetEthernet

  /** The part of the module state that mode changes act on. */
  datatype Control = Control(
    mode: WifiMode,
    rawMode: bool,
    staHook: Hook,
    apHook: Hook,
    tasks: nat,
    started: seq<WifiInterface>)

  /** `wifi_uninit`: in raw mode, clear the hook of the current mode's
      interface; otherwise, and in every other mode, do nothing. */
  function AfterUninit(c: Control): Control
  {
    match c.mode
    case ModeSta => if c.rawMode then c.(staHook := NoHook) else c
    case ModeAp => if c.rawMode then c.(apHook := NoHook) else c
    case _ => c
  }

  /** The driver start of `wifi_start_station` / `wifi_start_AP`, then, in
      raw mode, the raw-receive callback registered on that interface and
      one more send task created. */
  function AfterStart(c: Control, iface: WifiInterface): Control
  {
    var s := c.(started := c.started + [iface]);
    if !c.rawMode then s
    else if iface == IfSta then s.(staHook := CallbackReceiveRaw, tasks := c.tasks + 1)
    else s.(apHook := CallbackReceiveRaw, tasks := c.tasks + 1)
  }

  /** `wifi_change_mode`. */
  function AfterChangeMode(c: Control, m: WifiMode): Control
  {
    var u := AfterUninit(c).(mode := m);
    match m
    case ModeSta => AfterStart(u, IfSta)
    case ModeAp => AfterStart(u, IfAp)
    case _ => u
  }

  predicate StartsRole(m: WifiMode)
  {
    m == ModeSta || m == ModeAp
  }

  /** One mode change: the new mode is recorded; in raw mode the old mode's
      hook is gone unless the new mode registers the same one again and
      the new mode's hook is the relay callback; the hook of an interface
      neither mode uses is untouched, and without raw mode no hook is
      touched at all; one task is created per raw start and none is deleted. */
  lemma ChangeModeEffects(c: Control, m: WifiMode)
    ensures var r := AfterChangeMode(c, m);
      r.mode == m && r.rawMode == c.rawMode &&
      (c.rawMode && c.mode == ModeSta && m != ModeSta ==> r.staHook == NoHook) &&
      (c.rawMode && c.mode == ModeAp && m != ModeAp ==> r.apHook == NoHook) &&
      (c.rawMode && m == ModeSta ==> r.staHook == CallbackReceiveRaw) &&
      (c.rawMode && m == ModeAp ==> r.apHook == CallbackReceiveRaw) &&
      (!c.rawMode ==> r.staHook == c.staHook && r.apHook == c.apHook) &&
      (c.mode != ModeSta && m != ModeSta ==> r.staHook == c.staHook) &&
      (c.mode != ModeAp && m != ModeAp ==> r.apHook == c.apHook) &&
      r.tasks == c.tasks + (if c.rawMode && StartsRole(m) then 1 else 0) &&
      r.started == c.started + (if m == ModeSta then [IfSta] else if m == ModeAp then [IfAp] else [])
  {
  }

  /** The hooks agree with the mode: a hook is registered on exactly the
      interface of the current mode, and only in raw mode. */
  predicate HooksMatch(c: Control)
  {
    c.staHook == (if c.rawMode && c.mode == ModeSta then CallbackReceiveRaw else NoHook) &&
    c.apHook == (if c.rawMode && c.mode == ModeAp then CallbackReceiveRaw else NoHook)
  }

  /** The operations that act on `Control`: mode changes and
      `wifi_set_raw_mode` (Wi-Fi events leave it alone). */
  datatype Op = SetMode(mode: WifiMode) | SetRaw(raw: bool)

  function Step(c: Control, op: Op): Control
  {
    match op
    case SetMode(m) => AfterChangeMode(c, m)
    case SetRaw(b) => c.(rawMode := b)
  }

  /** The state after `ops`, applied first to last. */
  function Run(c: Control, ops: seq<Op>): Control
    decreases |ops|
  {
    if ops == [] then c else Step(Run(c, ops[..|ops| - 1]), ops[|ops| - 1])
  }

  /** A raw-mode switch is harmless when it changes nothing or when no
      role is active. */
  predicate SafeOp(c: Control, op: Op)
  {
    op.SetRaw? ==> op.raw == c.rawMode || !StartsRole(c.mode)
  }

  /** Along any sequence of operations that never flips raw mode while a
      role is active, the hooks keep agreeing with the mode: switching
      modes never leaves a stale hook behind. */
  lemma {:induction false} HooksMatchAlongRun(c: Control, ops: seq<Op>)
    requires HooksMatch(c)
    requires forall i | 0 <= i < |ops| :: SafeOp(Run(c, ops[..i]), ops[i])
    ensures HooksMatch(Run(c, ops))
    decreases |ops|
  {
    if ops != [] {
      var init := ops[..|ops| - 1];
      forall i | 0 <= i < |init|
        ensures SafeOp(Run(c, init[..i]), init[i])
      {
        assert init[..i] == ops[..i];
      }
      HooksMatchAlongRun(c, init);
      StepKeepsHooksMatch(Run(c, init), ops[|ops| - 1]);
    }
  }

  /** One safe operation keeps the hooks agreeing with the mode. */
  lemma StepKeepsHooksMatch(c: Control, op: Op)
    requires HooksMatch(c) && SafeOp(c, op)
    ensures HooksMatch(Step(c, op))
  {
    if op.SetMode? {
      ChangeModeEffects(c, op.mode);
    }
  }

  /** The initial state (all statics at their C initial values). */
  const Initial := Control(ModeNull, false, NoHook, NoHook, 0, [])

  /** Number of mode changes in `ms` that start a role. */
  function CountStarts(ms: seq<WifiMode>): nat
    decreases |ms|
  {
    if ms == [] then 0
    else CountStarts(ms[..|ms| - 1]) + (if StartsRole(ms[|ms| - 1]) then 1 else 0)
  }

  function ModeChanges(ms: seq<WifiMode>): (ops: seq<Op>)
    ensures |ops| == |ms|
    ensures forall i | 0 <= i < |ms| :: ops[i] == SetMode(ms[i])
  {
    seq(|ms|, i requires 0 <= i < |ms| => SetMode(ms[i]))
  }

  /** Nothing ever deletes a send task: in raw mode every change into
      station or access-point mode creates one more, even when one is
      already running. */
  lemma {:induction false} TasksCountStarts(c: Control, ms: seq<WifiMode>)
    ensures Run(c, ModeChanges(ms)).rawMode == c.rawMode
    ensures Run(c, ModeChanges(ms)).tasks == c.tasks + (if c.rawMode then CountStarts(ms) else 0)
    decreases |ms|
  {
    if ms != [] {
      var init := ms[..|ms| - 1];
      TasksCountStarts(c, init);
      assert ModeChanges(ms)[..|ms| - 1] == ModeChanges(init);
    }
  }

  /** Raw mode switched off in station mode and then a change to access
      point mode: the station hook registered earlier is still there. */
  lemma StaleHookAfterRawModeOff()
    ensures var c := Run(Initial, [SetRaw(true), SetMode(ModeSta), SetRaw(false), SetMode(ModeAp)]);
      c.mode == ModeAp && c.staHook == CallbackReceiveRaw && !HooksMatch(c)
  {
    var ops := [SetRaw(true), SetMode(ModeSta), SetRaw(false), SetMode(ModeAp)];
    var c1 := Initial.(rawMode := true);
    var c2 := c1.(mode := ModeSta, staHook := CallbackReceiveRaw, tasks := 1, started := [IfSta]);
    var c3 := c2.(rawMode := false);
    assert ops[..1] == [SetRaw(true)] && ops[..1][..0] == [];
    assert Run(Initial, ops[..1]) == c1;
    assert ops[..2][..1] == ops[..1];
    assert Run(Initial, ops[..2]) == c2;
    assert ops[..3][..2] == ops[..2];
    assert Run(Initial, ops[..3]) == c3;
    assert Run(Initial, ops) == Step(c3, SetMode(ModeAp));
  }

  /** Two changes into station mode in raw mode: two send tasks. */
  lemma SecondTaskOnReentry()
    ensures Run(Initial, [SetRaw(true), SetMode(ModeSta), SetMode(ModeSta)]).tasks == 2
  {
    var ops := [SetRaw(true), SetMode(ModeSta), SetMode(ModeSta)];
    var c1 := Initial.(rawMode := true);
    var c2 := c1.(mode := ModeSta, staHook := CallbackReceiveRaw, tasks := 1, started := [IfSta]);
    assert ops[..1] == [SetRaw(true)] && ops[..1][..0] == [];
    assert Run(Initial, ops[..1]) == c1;
    assert ops[..2][..1] == ops[..1];
    assert Run(Initial, ops[..2]) == c2;
    assert Run(Initial, ops) == Step(c2, SetMode(ModeSta));
  }

  /** `log` is `log0` followed by what forwarding the first `k` of
      `frames` sends, the frames being long enough to forward. */
  ghost predicate LogDrained(log: seq<Tx>, log0: seq<Tx>, connected: bool, mode: WifiMode, apAddr: Mac, staAddr: Mac,
                             frames: seq<seq<byte>>, k: nat)
  {
    k <= |frames| &&
    (connected ==> forall i | 0 <= i < |frames| :: |frames[i]| >= AddrLen) &&
    log == log0 + ForwardAll(connected, mode, apAddr, staAddr, frames[..k])
  }

  /** Forwarding frame `k` extends the drained log by one frame. */
  lemma LogDrainedStep(log: seq<Tx>, log0: seq<Tx>, connected: bool, mode: WifiMode, apAddr: Mac, staAddr: Mac,
                       frames: seq<seq<byte>>, k: nat, log': seq<Tx>)
    requires LogDrained(log, log0, connected, mode, apAddr, staAddr, frames, k) && k < |frames|
    requires log' == log + (if connected then Forward(mode, apAddr, staAddr, frames[k]) else [])
    ensures LogDrained(log', log0, connected, mode, apAddr, staAddr, frames, k + 1)
  {
    ForwardAllSnoc(connected, mode, apAddr, staAddr, frames, k);
  }

  /** The statics of wenet_wifi.c and the ghost view of the radio driver. */
  class WifiModule {
    var mode: WifiMode
    var connected: bool
    var rawMode: bool
    const staAddr: array<byte>
    const apAddr: array<byte>
    const ssid: array<char>
    const password: array<char>
    const eth: EthernetModule
    ghost var staHook: Hook
    ghost var apHook: Hook
    ghost var tasks: nat
    ghost var started: seq<WifiInterface>
    ghost var txLog: seq<Tx>

    ghost predicate Valid()
      reads this, eth, eth.heap
    {
      staAddr.Length == 6 && apAddr.Length == 6 && staAddr != apAddr &&
      ssid.Length == 32 && password.Length == 64 &&
      eth.Valid() && staAddr !in eth.heap.live && apAddr !in eth.heap.live
    }

    ghost function State(): Control
      reads this
    {
      Control(mode, rawMode, staHook, apHook, tasks, started)
    }

    function StaMac(): Mac
      reads this, staAddr
      requires staAddr.Length == 6
    {
      staAddr[..]
    }

    function ApMac(): Mac
      reads this, apAddr
      requires apAddr.Length == 6
    {
      apAddr[..]
    }

    /** The statics at their initial values. */
    constructor (eth: EthernetModule)
      requires eth.Valid()
      ensures Valid() && this.eth == eth
      ensures State() == Initial && !connected && txLog == []
      ensures fresh(staAddr) && fresh(apAddr) && fresh(ssid) && fresh(password)
    {
      this.eth := eth;
      mode := ModeNull;
      connected := false;
      rawMode := false;
      staAddr := new byte[6];
      apAddr := new byte[6];
      ssid := new char[32];
      password := new char[64];
      staHook := NoHook;
      apHook := NoHook;
      tasks := 0;
      started := [];
      txLog := [];
    }

    /** `wifi_uninit`. */
    method Uninit()
      requires Valid()
      modifies this`staHook, this`apHook
      ensures Valid()
      ensures State() == AfterUninit(old(State()))
    {
      match mode
      case ModeSta =>
        if rawMode {
          staHook := NoHook;
        }
      case ModeAp =>
        if rawMode {
          apHook := NoHook;
        }
      case _ =>
    }

    /** `wifi_start_station`: the role is started, `esp_read_mac` fills
        the station address, and in raw mode the relay callback is hooked
        on the station interface and a send task is created. */
    method StartStation(stationMac: Mac)
      requires Valid()
      modifies this`staHook, this`tasks, this`started, staAddr
      ensures Valid()
      ensures State() == AfterStart(old(State()), IfSta)
      ensures StaMac() == stationMac
    {
      started := started + [IfSta];
      StoreMac(staAddr, stationMac);
      if rawMode {
        staHook := Hook.CallbackReceiveRaw;
        tasks := tasks + 1;
      }
    }

    /** `wifi_start_AP`: as `StartStation`, for the access-point role and
        address. */
    method StartAp(softApMac: Mac)
      requires Valid()
      modifies this`apHook, this`tasks, this`started, apAddr
      ensures Valid()
      ensures State() == AfterStart(old(State()), IfAp)
      ensures ApMac() == softApMac
    {
      started := started + [IfAp];
      StoreMac(apAddr, softApMac);
      if rawMode {
        apHook := Hook.CallbackReceiveRaw;
        tasks := tasks + 1;
      }
    }

    /** `wifi_change_mode`; `stationMac`/`softApMac` are what
        `esp_read_mac` returns for the role started. */
    method ChangeMode(newMode: WifiMode, stationMac: Mac, softApMac: Mac)
      requires Valid()
      modifies this, staAddr, apAddr
      ensures Valid()
      ensures State() == AfterChangeMode(old(State()), newMode)
      ensures connected == old(connected) && txLog == old(txLog)
      ensures StaMac() == (if newMode == ModeSta then stationMac else old(StaMac()))
      ensures ApMac() == (if newMode == ModeAp then softApMac else old(ApMac()))
    {
      Uninit();
      mode := newMode;
      match mode
      case ModeSta => StartStation(stationMac);
      case ModeAp => StartAp(softApMac);
      case _ =>
    }

    /** `wifi_set_raw_mode`. */
    method SetRawMode(raw: bool)
      requires Valid()
      modifies this`rawMode
      ensures Valid()
      ensures State() == old(State()).(rawMode := raw)
    {
      rawMode := raw;
    }

    /** `wifi_change_ssid_pass`. */
    method ChangeSsidPass(newSsid: string, newPass: string)
      requires Valid()
      requires CString.NoNul(newSsid) && |newSsid| < 32
      requires CString.NoNul(newPass) && |newPass| < 64
      modifies ssid, password
      ensures Valid()
      ensures ssid[..] == CString.Stored(newSsid, 32)
      ensures password[..] == CString.Stored(newPass, 64)
    {
      CString.ZeroThenCopy(ssid, newSsid);
      CString.ZeroThenCopy(password, newPass);
    }

    /** `wifi_event_handler`: association events record the peer address
        and set `wifi_connected`, both disassociation events clear it, and
        start/stop events change nothing. */
    method EventHandler(event: WifiEvent)
      requires Valid()
      modifies this`connected, staAddr, apAddr
      ensures Valid() && State() == old(State())
      ensures event.StaConnected? ==> ApMac() == event.bssid && StaMac() == old(StaMac()) && connected
      ensures event.ApStaConnected? ==> StaMac() == event.mac && ApMac() == old(ApMac()) && connected
      ensures event == StaDisconnected || event.ApStaDisconnected? ==>
        !connected && StaMac() == old(StaMac()) && ApMac() == old(ApMac())
      ensures !event.StaConnected? && !event.ApStaConnected? && event != StaDisconnected && !event.ApStaDisconnected? ==>
        connected == old(connected) && StaMac() == old(StaMac()) && ApMac() == old(ApMac())
    {
      match event
      case StaConnected(bssid) =>
        StoreMac(apAddr, bssid);
        connected := true;
      case StaDisconnected =>
        connected := false;
      case ApStaConnected(mac) =>
        StoreMac(staAddr, mac);
        connected := true;
      case ApStaDisconnected(_) =>
        connected := false;
      case _ =>
    }

    /** `wifi_callback_receive_raw`: with the wired link up, move the last
        12 bytes to the front and send all but the last 12 to the wire;
        free the driver's receive buffer in every case. The copy regions
        of the first `memcpy` are disjoint only for `len >= 24`. */
    method CallbackReceiveRaw(buffer: array<byte>, len: uint16, eb: object) returns (status: EspErr)
      requires Valid()
      requires len <= buffer.Length
      requires eth.connected ==> len >= 2 * AddrLen
      requires eb in eth.heap.live && eb !in eth.Held()
      modifies buffer, eth`txLog, eth.heap
      ensures Valid() && status == EspOk
      ensures eth.txLog == old(eth.txLog) + (if eth.connected then [ToWired(old(buffer[..len]))] else [])
      ensures eth.heap.live == old(eth.heap.live) - {eb}
      ensures eth.connected ==>
        buffer[..len - AddrLen] == ToWired(old(buffer[..len])) &&
        buffer[len - AddrLen..] == old(buffer[len - AddrLen..])
      ensures !eth.connected ==> buffer[..] == old(buffer[..])
    {
      if eth.connected {
        MoveTailToFront(buffer, len as nat);
        eth.Transmit(buffer[..len - AddrLen]);
      }
      eth.Release(eb);
      status := EspOk;
    }

    /** The prologue of `wifi_task_send_raw`: reset the queue. */
    method TaskStart()
      requires Valid()
      modifies eth`queue
      ensures Valid() && eth.queue == []
      ensures old(eth.Held()) <= eth.heap.live
    {
      eth.ResetQueue();
    }

    /** One iteration of the `wifi_task_send_raw` loop. With nothing queued
        the task stays blocked and nothing changes. Otherwise it takes the
        oldest record; while the radio is not associated it frees the
        record and its buffer and sends nothing; while it is, it copies the
        frame into a new buffer 12 bytes longer, frees the old buffer,
        rewrites the addresses for the mode, transmits, and frees the new
        buffer and the record -- except in a mode other than station or
        access point, where it sends nothing and frees neither. */
    method SendRawStep() returns (ghost record: RawData?, ghost newData: array?<byte>)
      requires Valid()
      requires connected && eth.queue != [] ==> eth.queue[0].dataLength >= AddrLen
      modifies this`txLog, eth`queue, eth.heap
      ensures Valid()
      ensures old(eth.queue) == [] ==>
        eth.queue == [] && txLog == old(txLog) && eth.heap.live == old(eth.heap.live)
      ensures old(eth.queue) != [] ==>
        record == old(eth.queue[0]) && eth.queue == old(eth.queue[1..]) &&
        txLog == old(txLog) +
          (if connected then Forward(mode, ApMac(), StaMac(), record.data[..record.dataLength]) else [])
      ensures old(eth.queue) != [] && (!connected || StartsRole(mode)) ==>
        eth.heap.live == old(eth.heap.live) - {record, record.data}
      ensures old(eth.queue) != [] && connected && !StartsRole(mode) ==>
        newData != null && fresh(newData) && newData !in old(eth.heap.live) &&
        eth.heap.live == old(eth.heap.live) - {record.data} + {newData}
    {
      record, newData := null, null;
      if eth.queue == [] {
        return;
      }
      var received := eth.Receive();
      record := received;
      if connected {
        newData := ForwardRecord(received);
      } else {
        eth.Release(received.data);
        eth.Release(received);
      }
    }

    /** The `wifi_task_send_raw` loop run until the queue is empty, where
        the task blocks again: every queued frame is transmitted in queue
        order when the radio is associated and the mode is station or
        access point, and each record and buffer is freed exactly once;
        while the radio is not associated the frames are dropped and freed;
        in any other mode nothing is sent, every record stays live, every
        queued buffer is freed and one new buffer per record, each a
        different one, stays allocated (`leaked`). */
    method SendRawLoop() returns (ghost leaked: seq<array<byte>>)
      requires Valid()
      requires connected ==> forall i | 0 <= i < |eth.queue| :: eth.queue[i].dataLength >= AddrLen
      modifies this`txLog, eth`queue, eth.heap
      ensures Valid() && eth.queue == []
      ensures txLog == old(txLog) + ForwardAll(connected, mode, ApMac(), StaMac(), old(FramesOf(eth.queue)))
      ensures !connected || StartsRole(mode) ==> eth.heap.live == old(eth.heap.live) - old(eth.Held())
      ensures connected && !StartsRole(mode) ==>
        |leaked| == |old(eth.queue)| && Distinct(leaked) &&
        eth.heap.live == old(eth.heap.live) - DataOf(old(eth.queue)) + Allocs(leaked) &&
        (forall i | 0 <= i < |leaked| :: leaked[i] !in old(eth.heap.live)) &&
        RecordsWithoutBuffers(old(eth.queue), eth.heap.live)
    {
      ghost var recs := eth.queue;
      ghost var frames := FramesOf(recs);
      ghost var log0, live0 := txLog, eth.heap.live;
      ghost var k := 0;
      leaked := [];
      DrainBegins(recs, frames);
      while eth.queue != []
        invariant Drained(recs, frames, log0, live0, leaked, k)
        decreases |recs| - k
      {
        leaked := DrainStep(recs, frames, log0, live0, leaked, k);
        k := k + 1;
      }
      DrainEnds(recs, frames, log0, live0, leaked, k);
    }

    /** `Drained` holds before the first iteration. */
    lemma DrainBegins(recs: seq<RawData>, frames: seq<seq<byte>>)
      requires Valid() && recs == eth.queue && frames == FramesOf(recs)
      requires connected ==> forall i | 0 <= i < |recs| :: recs[i].dataLength >= AddrLen
      ensures Drained(recs, frames, txLog, eth.heap.live, [], 0)
    {
      assert recs[..0] == [] && frames[..0] == [];
    }

    /** What `Drained` gives once the queue is empty. */
    lemma DrainEnds(recs: seq<RawData>, frames: seq<seq<byte>>, log0: seq<Tx>, live0: set<object>,
                    leaked: seq<array<byte>>, k: nat)
      requires Drained(recs, frames, log0, live0, leaked, k) && eth.queue == []
      ensures Valid()
      ensures txLog == log0 + ForwardAll(connected, mode, ApMac(), StaMac(), frames)
      ensures !connected || StartsRole(mode) ==> eth.heap.live == live0 - HeldBy(recs)
      ensures connected && !StartsRole(mode) ==>
        |leaked| == |recs| && Distinct(leaked) &&
        eth.heap.live == live0 - DataOf(recs) + Allocs(leaked) &&
        (forall i | 0 <= i < |leaked| :: leaked[i] !in live0) &&
        RecordsWithoutBuffers(recs, eth.heap.live)
    {
      assert k == |recs|;
      assert frames[..k] == frames && recs[..k] == recs;
      if connected && !StartsRole(mode) {
        DrainedLeaking(recs, live0, leaked, eth.heap.live);
      }
    }

    /** The state of `SendRawLoop` after `k` of the records `recs`
        (carrying `frames`) have been taken, from transmit log `log0` and
        live set `live0`; `leaked` are the buffers allocated and not freed
        in a mode other than station or access point. */
    ghost predicate Drained(recs: seq<RawData>, frames: seq<seq<byte>>, log0: seq<Tx>, live0: set<object>,
                            leaked: seq<array<byte>>, k: nat)
      reads this, eth, eth.heap, staAddr, apAddr
    {
      Valid() && |frames| == |recs| &&
      k <= |recs| && eth.queue == recs[k..] &&
      (forall i, j | 0 <= i < j < |recs| :: recs[i] != recs[j]) &&
      (connected ==> forall i | 0 <= i < |recs| :: recs[i].dataLength >= AddrLen) &&
      LogDrained(txLog, log0, connected, mode, ApMac(), StaMac(), frames, k) &&
      Drain(recs, live0, leaked, k, eth.heap.live, connected && !StartsRole(mode))
    }

    /** One iteration of `SendRawLoop`. */
    method DrainStep(ghost recs: seq<RawData>, ghost frames: seq<seq<byte>>, ghost log0: seq<Tx>, ghost live0: set<object>,
                     ghost leaked: seq<array<byte>>, ghost k: nat)
      returns (ghost leaked': seq<array<byte>>)
      requires Drained(recs, frames, log0, live0, leaked, k) && eth.queue != []
      requires frames[k] == recs[k].data[..recs[k].dataLength]
      modifies this`txLog, eth`queue, eth.heap
      ensures Drained(recs, frames, log0, live0, leaked', k + 1)
    {
      ghost var live, log := eth.heap.live, txLog;
      ghost var record, newData := SendRawStep();
      assert record == recs[k] && eth.queue == recs[k + 1..];
      LogDrainedStep(log, log0, connected, mode, ApMac(), StaMac(), frames, k, txLog);
      if connected && !StartsRole(mode) {
        ghost var d: array<byte> := newData;
        leaked' := leaked + [d];
        DrainLeaked(recs, live0, leaked, k, live, eth.heap.live, d);
      } else {
        leaked' := leaked;
        DrainReleased(recs, live0, leaked, k, live, eth.heap.live);
      }
    }

    /** The associated branch of one worker iteration, for a record just
        taken from the queue. */
    method ForwardRecord(received: RawData) returns (ghost newData: array<byte>)
      requires Valid()
      requires received.dataLength >= AddrLen && received.dataLength <= received.data.Length
      requires received in eth.heap.live && received.data in eth.heap.live
      requires received !in eth.Held() && received.data !in eth.Held()
      modifies this`txLog, eth.heap
      ensures Valid()
      ensures txLog == old(txLog) + Forward(mode, ApMac(), StaMac(), received.data[..received.dataLength])
      ensures StartsRole(mode) ==> eth.heap.live == old(eth.heap.live) - {received, received.data}
      ensures !StartsRole(mode) ==>
        fresh(newData) && eth.heap.live == old(eth.heap.live) - {received.data} + {newData}
    {
      ghost var frame := received.data[..received.dataLength];
      var len := received.dataLength;
      var data := CopyIntoLarger(received.data, len);
      eth.Track(data);
      newData := data;
      eth.Release(received.data);
      SaveAddrsAtTail(data, len as nat, frame);
      if StartsRole(mode) {
        SendForRole(received, data, frame);
      }
    }

    /** The station and access-point cases of the worker's mode switch:
        write the pair for the role, transmit on the role's interface,
        free the new buffer and the record. */
    method SendForRole(received: RawData, data: array<byte>, ghost frame: seq<byte>)
      requires Valid() && StartsRole(mode)
      requires |frame| >= AddrLen && data.Length == |frame| + AddrLen
      requires data[..] == frame + frame[..AddrLen]
      requires received in eth.heap.live && data in eth.heap.live
      requires received !in eth.Held() && data !in eth.Held() && received as object != data
      modifies this`txLog, eth.heap, data
      ensures Valid()
      ensures txLog == old(txLog) + Forward(mode, ApMac(), StaMac(), frame)
      ensures eth.heap.live == old(eth.heap.live) - {received, data}
    {
      if mode == ModeSta {
        WriteAddrs(data, apAddr, staAddr, frame);
        txLog := txLog + [Tx(IfSta, data[..])];
      } else {
        WriteAddrs(data, staAddr, apAddr, frame);
        txLog := txLog + [Tx(IfAp, data[..])];
      }
      eth.Release(data);
      eth.Release(received);
    }

    /** Writes a 6-byte address into one of the address statics. */
    method StoreMac(dst: array<byte>, mac: Mac)
      requires dst.Length == 6
      modifies dst
      ensures dst[..] == mac
    {
      forall i | 0 <= i < 6 {
        dst[i] := mac[i];
      }
    }
  }
}
