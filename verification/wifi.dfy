/** The other version of the radio module, main/wifi/wifi.c. It defines the
    same public functions as wenet_wifi.c (only one of the two is linked)
    but differs in what they do: only access-point mode starts anything,
    `wifi_uninit` does nothing, and the raw-receive hook of the access-point
    interface is registered when a station joins and removed when it leaves
    (in raw mode), with a callback that does nothing. */
module Wifi {
  import opened Esp
  import CString

  /** The part of the module state that mode changes and events act on. */
  datatype Control = Control(mode: WifiMode, rawMode: bool, apHook: Hook, started: seq<WifiInterface>)

  /** `wifi_uninit`: every case of its switch is empty. */
  function AfterUninit(c: Control): Control
  {
    c
  }

  /** `wifi_change_mode`: record the mode; start the access-point role in
      access-point mode; do nothing in station mode or any other. */
  function AfterChangeMode(c: Control, m: WifiMode): Control
  {
    var u := AfterUninit(c).(mode := m);
    if m == ModeAp then u.(started := u.started + [IfAp]) else u
  }

  /** `wifi_event_handler`: a joining station hooks the empty callback on
      the access-point interface, a leaving one unhooks it, both only in
      raw mode; every other event changes nothing. */
  function AfterEvent(c: Control, event: WifiEvent): Control
  {
    match event
    case ApStaConnected(_) => if c.rawMode then c.(apHook := ReceiveRawCallback) else c
    case ApStaDisconnected(_) => if c.rawMode then c.(apHook := NoHook) else c
    case _ => c
  }

  /** A mode change always records the new mode and never touches the
      hook; only access-point mode starts a role. */
  lemma ChangeModeEffects(c: Control, m: WifiMode)
    ensures var r := AfterChangeMode(c, m);
      r.mode == m && r.rawMode == c.rawMode && r.apHook == c.apHook &&
      r.started == c.started + (if m == ModeAp then [IfAp] else [])
  {
  }

  /** The operations that act on `Control`. */
  datatype Op = SetMode(mode: WifiMode) | SetRaw(raw: bool) | Event(event: WifiEvent)

  function Step(c: Control, op: Op): Control
  {
    match op
    case SetMode(m) => AfterChangeMode(c, m)
    case SetRaw(b) => c.(rawMode := b)
    case Event(e) => AfterEvent(c, e)
  }

  /** The state after `ops`, applied first to last. */
  function Run(c: Control, ops: seq<Op>): Control
    decreases |ops|
  {
    if ops == [] then c else Step(Run(c, ops[..|ops| - 1]), ops[|ops| - 1])
  }

  predicate IsLeave(op: Op)
  {
    op.Event? && op.event.ApStaDisconnected?
  }

  predicate IsJoin(op: Op)
  {
    op.Event? && op.event.ApStaConnected?
  }

  /** Once a station has joined in raw mode, only a leave event can remove
      the hook: no mode change (not even to station or to no mode at all),
      no raw-mode switch and no other event does. */
  lemma {:induction false} OnlyLeaveUnhooks(c: Control, ops: seq<Op>)
    requires c.apHook == ReceiveRawCallback
    requires forall i | 0 <= i < |ops| :: !IsLeave(ops[i])
    ensures Run(c, ops).apHook == ReceiveRawCallback
    decreases |ops|
  {
    if ops != [] {
      OnlyLeaveUnhooks(c, ops[..|ops| - 1]);
    }
  }

  /** Without join or leave events the hook never changes, whatever modes
      are set. */
  lemma {:induction false} HookOnlyFollowsStations(c: Control, ops: seq<Op>)
    requires forall i | 0 <= i < |ops| :: !IsLeave(ops[i]) && !IsJoin(ops[i])
    ensures Run(c, ops).apHook == c.apHook
    decreases |ops|
  {
    if ops != [] {
      HookOnlyFollowsStations(c, ops[..|ops| - 1]);
    }
  }

  /** The initial state (all statics at their C initial values). */
  const Initial := Control(ModeNull, false, NoHook, [])

  /** A station joins the access point in raw mode, raw mode is then
      switched off, and the station leaves: the hook stays registered. */
  lemma StaleHookAfterRawModeOff(m: Mac)
    ensures var ops := [SetRaw(true), SetMode(ModeAp), Event(ApStaConnected(m)), SetRaw(false), Event(ApStaDisconnected(m))];
      Run(Initial, ops).apHook == ReceiveRawCallback && !Run(Initial, ops).rawMode
  {
    var ops := [SetRaw(true), SetMode(ModeAp), Event(ApStaConnected(m)), SetRaw(false), Event(ApStaDisconnected(m))];
    var c1 := Initial.(rawMode := true);
    var c2 := c1.(mode := ModeAp, started := [IfAp]);
    var c3 := c2.(apHook := ReceiveRawCallback);
    var c4 := c3.(rawMode := false);
    assert ops[..1] == [SetRaw(true)] && ops[..1][..0] == [];
    assert Run(Initial, ops[..1]) == c1;
    assert ops[..2][..1] == ops[..1];
    assert Run(Initial, ops[..2]) == c2;
    assert ops[..3][..2] == ops[..2];
    assert Run(Initial, ops[..3]) == c3;
    assert ops[..4][..3] == ops[..3];
    assert Run(Initial, ops[..4]) == c4;
    assert Run(Initial, ops) == Step(c4, Event(ApStaDisconnected(m)));
  }

  /** The statics of wifi.c and the ghost view of the radio driver. */
  class WifiModule {
    var mode: WifiMode
    var rawMode: bool
    const ssid: array<char>
    const password: array<char>
    const heap: Heap
    ghost var apHook: Hook
    ghost var started: seq<WifiInterface>

    ghost predicate Valid()
      reads this
    {
      ssid.Length == 32 && password.Length == 64
    }

    ghost function State(): Control
      reads this
    {
      Control(mode, rawMode, apHook, started)
    }

    /** The statics at their initial values. */
    constructor (heap: Heap)
      ensures Valid() && this.heap == heap
      ensures State() == Initial
      ensures fresh(ssid) && fresh(password)
    {
      this.heap := heap;
      mode := ModeNull;
      rawMode := false;
      ssid := new char[32];
      password := new char[64];
      apHook := NoHook;
      started := [];
    }

    /** `wifi_uninit`: does nothing in any mode. */
    method Uninit()
      requires Valid()
      ensures State() == AfterUninit(old(State()))
    {
      match mode
      case ModeNull =>
      case ModeSta =>
      case ModeAp =>
      case _ =>
    }

    /** `wifi_start_AP`: only the driver start; no hook, no task. */
    method StartAp()
      requires Valid()
      modifies this`started
      ensures Valid()
      ensures State() == old(State()).(started := old(started) + [IfAp])
    {
      started := started + [IfAp];
    }

    /** `wifi_change_mode`. */
    method ChangeMode(newMode: WifiMode)
      requires Valid()
      modifies this`mode, this`started
      ensures Valid()
      ensures State() == AfterChangeMode(old(State()), newMode)
    {
      Uninit();
      mode := newMode;
      match mode
      case ModeNull =>
      case ModeSta =>
      case ModeAp => StartAp();
      case _ =>
    }

    /** `wifi_set_raw_mode`. */
    method SetRawMode(raw: bool)
      requires Valid()
      modifies this`rawMode
      ensures Valid()
      ensures State() == old(State()).(rawMode := raw)
    {
      rawMode := raw;
    }

    /** `wifi_change_ssid_pass`: both buffers zero-filled, then the new
        strings copied in; the strings must fit with their terminators. */
    method ChangeSsidPass(newSsid: string, newPass: string)
      requires Valid()
      requires CString.NoNul(newSsid) && |newSsid| < 32
      requires CString.NoNul(newPass) && |newPass| < 64
      modifies ssid, password
      ensures Valid()
      ensures ssid[..] == CString.Stored(newSsid, 32)
      ensures password[..] == CString.Stored(newPass, 64)
    {
      CString.ZeroThenCopy(ssid, newSsid);
      CString.ZeroThenCopy(password, newPass);
    }

    /** `wifi_event_handler`. */
    method EventHandler(event: WifiEvent)
      requires Valid()
      modifies this`apHook
      ensures Valid()
      ensures State() == AfterEvent(old(State()), event)
    {
      match event
      case ApStart =>
      case ApStop =>
      case ApStaConnected(_) =>
        if rawMode {
          apHook := Hook.ReceiveRawCallback;
        }
      case ApStaDisconnected(_) =>
        if rawMode {
          apHook := NoHook;
        }
      case _ =>
    }

    /** `wifi_receive_raw_callback`: an empty body. Nothing is sent and the
        driver's receive buffer `eb` is not freed. */
    method ReceiveRawCallback(buffer: array<byte>, len: uint16, eb: object)
      requires Valid() && eb in heap.live
      ensures State() == old(State()) && eb in heap.live
    {
    }
  }
}
