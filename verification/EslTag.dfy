/** The tag as the source keeps it: one object whose fields the callbacks, handlers and workers change
    (esl.c, esl_settings.c). Every method does what the function of the same purpose says. */
module EslTag {
  import opened Bytes
  import opened Tlv
  import opened Ead
  import opened TagMachine
  import opened Responses
  import opened Elements
  import opened TagRules
  import opened TagRun
  import opened TagEvents
  import opened Accumulator

  type int8 = x: int | -128 <= x < 128

  const ESL_EAD_PAYLOAD_MAX_LEN: nat := 63

  class Esl {
    const config: Config
    const cipher: Cipher

    // state machine, provisioning and its timer
    var phase: Phase
    var configuring: set<Item>
    var updateComplete: bool
    var timeoutMode: TimeoutMode
    var timerRuns: bool
    var timeoutUpdateNeeded: bool
    var subscribed: bool
    var addr: u16
    var apKey: bytes
    var rspKey: bytes
    var settings: map<Item, bytes>

    // basic state
    var serviceNeeded: bool
    var synchronized: bool
    var activeLed: bool
    var pendingLed: bool
    var pendingDisplay: bool

    // elements
    const leds: array<Led>
    const displays: array<Display>
    const imageSizes: array<nat>
    var anchor: u32

    // control point
    var busy: bool
    var resp: Resp
    var respNeeded: bool
    var unassociateAfter: bool
    var inFlight: bool
    var rsp: bytes
    var last: nat

    ghost function M(): Machine
      reads this`phase, this`configuring, this`updateComplete, this`synchronized, this`timeoutMode, this`timerRuns
      reads this`timeoutUpdateNeeded, this`subscribed, this`addr, this`apKey, this`rspKey, this`settings
    {
      Machine(phase, configuring, updateComplete, synchronized, timeoutMode, timerRuns, timeoutUpdateNeeded, subscribed,
              addr, apKey, rspKey, settings)
    }

    ghost function E(): Elements
      reads this`anchor, this`activeLed, this`pendingLed, this`pendingDisplay, leds, displays, imageSizes
    {
      Elements(leds[..], displays[..], anchor, activeLed, pendingLed, pendingDisplay, imageSizes[..])
    }

    ghost function T(): Tag
      reads this, leds, displays, imageSizes
    {
      Tag(M(), E(), serviceNeeded, busy, resp, respNeeded, unassociateAfter, inFlight, rsp, last)
    }

    // ---------- state machine ----------

    /** bt_esl_state_transition, with the entry action of the state */
    method SetState(state: Phase)
      modifies this`phase, this`subscribed, this`synchronized, this`timeoutMode, this`timerRuns
      ensures M() == Enter(old(M()), state)
    {
      phase := state;
      match state
      case Unassociated =>
      case Configuring =>
      case Configured => subscribed := true;
      case Synchronized =>
        synchronized := true;
        if timeoutUpdateNeeded {
          timeoutMode := UnsyncedTimeout;
          timerRuns := true;
        }
      case Updating => timerRuns := false;
      case Unsynchronized =>
        synchronized := false;
        if timeoutUpdateNeeded {
          timeoutMode := UnassociatedTimeout;
          timerRuns := true;
        }
    }

    /** esl_is_configuring_state */
    method IsConfiguringState() returns (configured: bool)
      modifies this`phase, this`subscribed, this`synchronized, this`timeoutMode, this`timerRuns
      ensures M() == AskConfiguring(old(M())) && configured == Provisioned(old(M()))
    {
      configured := Addr in configuring && ApKey in configuring && RspKey in configuring && AbsTime in configuring;
      if configured {
        SetState(Configuring);
      }
    }

    /** connected */
    method Connected()
      modifies this`updateComplete
      ensures M() == Connect(old(M()))
    {
      updateComplete := false;
    }

    /** disconnected */
    method Disconnected(reason: Reason)
      modifies this`phase, this`subscribed, this`synchronized, this`timeoutMode, this`timerRuns,
               this`timeoutUpdateNeeded
      ensures M() == Disconnect(old(M()), reason)
    {
      if reason != LocalHostTerminated {
        if reason == AuthFailure && synchronized {
          return;
        }
        var configured := IsConfiguringState();
        if configured {
          timeoutUpdateNeeded := false;
          SetState(Unsynchronized);
        } else if phase == Configuring || phase == Unassociated {
          SetState(Unassociated);
        }
      }
    }

    /** security_changed */
    method SecurityChanged(ok: bool)
      modifies this`phase, this`subscribed, this`synchronized, this`timeoutMode, this`timerRuns
      ensures M() == Secure(old(M()), ok)
    {
      if ok && (phase == Unsynchronized || phase == Synchronized) {
        SetState(Updating);
      }
    }

    /** sync_cb */
    method SyncEstablishedCb()
      modifies this`phase, this`subscribed, this`synchronized, this`timeoutMode, this`timerRuns,
               this`timeoutUpdateNeeded
      ensures M() == SyncEstablished(old(M()))
    {
      if phase != Synchronized {
        timeoutUpdateNeeded := true;
        SetState(Synchronized);
      }
    }

    /** term_cb */
    method SyncTerminatedCb()
      modifies this`phase, this`subscribed, this`synchronized, this`timeoutMode, this`timerRuns,
               this`timeoutUpdateNeeded
      ensures M() == SyncTerminated(old(M()))
    {
      timeoutUpdateNeeded := true;
      SetState(Unsynchronized);
      synchronized := false;
    }

    // ---------- characteristic writes and stored settings ----------

    /** settings_save_one for one item */
    method Save(item: Item, saved: bool)
      modifies this`settings
      ensures settings == if saved then old(settings)[item := Stored(old(M()), item)] else old(settings)
    {
      if saved {
        match item
        case Addr => settings := settings[Addr := PutLe16(addr)];
        case ApKey => settings := settings[ApKey := apKey];
        case RspKey => settings := settings[RspKey := rspKey];
        case AbsTime => settings := settings[AbsTime := [1]];
      }
    }

    /** What the four writes have in common: set the bit, save, and see whether all is there. */
    method ItemWritten(item: Item, saved: bool)
      modifies this`configuring, this`settings
      modifies this`phase, this`subscribed, this`synchronized, this`timeoutMode, this`timerRuns
      ensures M() == AskConfiguring(SetItem(old(M()), item, saved))
    {
      hide AskConfiguring;
      configuring := configuring + {item};
      Save(item, saved);
      assert M() == SetItem(old(M()), item, saved);
      var _ := IsConfiguringState();
    }

    /** esl_addr_write; false for the broadcast ESL ID */
    method AddrWrite(value: u16, saved: bool) returns (ok: bool)
      modifies this`configuring, this`settings, this`addr
      modifies this`phase, this`subscribed, this`synchronized, this`timeoutMode, this`timerRuns
      ensures M() == WriteAddr(old(M()), value, saved) && ok == !AddrRejected(value)
    {
      hide AskConfiguring, SetItem;
      var v := value;
      if v >= 0x8000 {
        v := v - 0x8000;
      }
      if Low(v) == ESL_ADDR_BROADCAST {
        return false;
      }
      addr := v;
      assert M() == old(M()).(addr := value % 0x8000);
      ItemWritten(Addr, saved);
      ok := true;
    }

    /** ap_key_write */
    method ApKeyWrite(key: bytes, saved: bool)
      requires |key| == EAD_KEY_MATERIAL_LEN
      modifies this`configuring, this`settings, this`apKey
      modifies this`phase, this`subscribed, this`synchronized, this`timeoutMode, this`timerRuns
      ensures M() == WriteApKey(old(M()), key, saved)
    {
      hide AskConfiguring, SetItem, SwapSessionKey;
      apKey := SwapSessionKey(key);
      assert M() == old(M()).(apKey := SwapSessionKey(key));
      ItemWritten(ApKey, saved);
    }

    /** esl_rsp_key_write */
    method RspKeyWrite(key: bytes, saved: bool)
      requires |key| == EAD_KEY_MATERIAL_LEN
      modifies this`configuring, this`settings, this`rspKey
      modifies this`phase, this`subscribed, this`synchronized, this`timeoutMode, this`timerRuns
      ensures M() == WriteRspKey(old(M()), key, saved)
    {
      hide AskConfiguring, SetItem, SwapSessionKey;
      rspKey := SwapSessionKey(key);
      assert M() == old(M()).(rspKey := SwapSessionKey(key));
      ItemWritten(RspKey, saved);
    }

    /** abs_time_write and esl_abs_time_update, at uptime u */
    method AbsTimeWrite(value: u32, u: nat, saved: bool)
      modifies this`configuring, this`settings, this`anchor
      modifies this`phase, this`subscribed, this`synchronized, this`timeoutMode, this`timerRuns
      ensures M() == WriteTime(old(M()), saved) && E() == old(E()).(anchor := AnchorFor(value, u))
      ensures forall v: nat | u <= v :: GetAbsTime(v) == (value + (v - u)) % WORD
    {
      hide AskConfiguring, SetItem;
      anchor := (u % WORD - value) % WORD;
      assert M() == old(M());
      ItemWritten(AbsTime, saved);
      forall v: nat | u <= v ensures GetAbsTime(v) == (value + (v - u)) % WORD {
        ClockReads(value, u, v);
      }
    }

    /** settings_delete for one item, and the bit that goes with it: the k-th of the four deletions */
    method DeleteOne(item: Item, undeleted: set<Item>, ghost k: nat, ghost was: map<Item, bytes>)
      requires k < 4 && item == DELETE_ORDER[k] && settings == Surviving(was, Undeleted(k) + undeleted)
      modifies this`settings, this`configuring
      ensures configuring == old(configuring) - {item}
      ensures settings == Surviving(was, Undeleted(k + 1) + undeleted)
    {
      OneMoreDeleted(was, undeleted, k);
      if item !in undeleted {
        settings := settings - {item};
      }
      configuring := configuring - {item};
    }

    /** esl_settings_delete_provisioned_data; `stages` are the stored settings as power may be lost with them, between
        one deletion and the next */
    method DeleteProvisionedData(undeleted: set<Item>) returns (ghost stages: seq<map<Item, bytes>>)
      modifies this`settings, this`configuring, this`updateComplete
      ensures configuring == {} && !updateComplete && settings == Surviving(old(settings), undeleted)
      ensures |stages| == 5
              && forall k: nat | k <= 4 :: stages[k] == Surviving(old(settings), Undeleted(k) + undeleted)
    {
      hide Surviving, Undeleted;
      ghost var was := settings;
      NothingDeleted(was, undeleted);
      stages := [settings];
      DeleteOne(Addr, undeleted, 0, was);
      stages := stages + [settings];
      DeleteOne(ApKey, undeleted, 1, was);
      stages := stages + [settings];
      DeleteOne(RspKey, undeleted, 2, was);
      stages := stages + [settings];
      DeleteOne(AbsTime, undeleted, 3, was);
      stages := stages + [settings];
      updateComplete := false;
      NoItemLeft(configuring);
    }

    lemma NothingDeleted(was: map<Item, bytes>, undeleted: set<Item>)
      ensures Surviving(was, Undeleted(0) + undeleted) == was
      ensures Surviving(was, Undeleted(4) + undeleted) == Surviving(was, undeleted)
    {
      assert DELETE_ORDER[4..] == [];
      forall item ensures item in Undeleted(0) {
        assert DELETE_ORDER[0..] == DELETE_ORDER;
        assert DELETE_ORDER[0] == Addr && DELETE_ORDER[1] == ApKey && DELETE_ORDER[2] == RspKey
               && DELETE_ORDER[3] == AbsTime;
        match item case Addr => case ApKey => case RspKey => case AbsTime =>
      }
    }

    lemma OneMoreDeleted(was: map<Item, bytes>, undeleted: set<Item>, k: nat)
      requires k < 4
      ensures var (left, item) := (Surviving(was, Undeleted(k) + undeleted), DELETE_ORDER[k]);
              Surviving(was, Undeleted(k + 1) + undeleted) == if item in undeleted then left else left - {item}
    {
      assert DELETE_ORDER[k..] == [DELETE_ORDER[k]] + DELETE_ORDER[k + 1..];
      forall j | k < j < 4 ensures DELETE_ORDER[j] != DELETE_ORDER[k] {
      }
      assert DELETE_ORDER[k] !in DELETE_ORDER[k + 1..];
    }

    lemma NoItemLeft(items: set<Item>)
      requires Addr !in items && ApKey !in items && RspKey !in items && AbsTime !in items
      ensures items == {}
    {
      forall item ensures item !in items {
        match item case Addr => case ApKey => case RspKey => case AbsTime =>
      }
    }

    /** esl_init_provisioned_data */
    method InitProvisionedData()
      modifies this`addr, this`apKey, this`rspKey, this`timeoutMode, this`timeoutUpdateNeeded
      ensures M() == old(M()).(addr := UNASSOCIATED_ADDR, apKey := NoKey(), rspKey := NoKey(),
                               mode := UnassociatedTimeout, renew := true)
    {
      addr := UNASSOCIATED_ADDR;
      timeoutMode := UnassociatedTimeout;
      apKey := NoKey();
      rspKey := NoKey();
      timeoutUpdateNeeded := true;
    }

    /** The part of bt_esl_unassociate that forgets; stopping the sync ends the subscription */
    method Forget(undeleted: set<Item>)
      modifies this`configuring, this`settings, this`updateComplete
      modifies this`addr, this`apKey, this`rspKey, this`timeoutMode, this`timeoutUpdateNeeded, this`subscribed
      ensures M() == old(M()).(addr := UNASSOCIATED_ADDR, apKey := NoKey(), rspKey := NoKey(),
                               mode := UnassociatedTimeout, renew := true, bits := {}, complete := false,
                                 subscribed := false,
                               store := Surviving(old(M()).store, undeleted))
    {
      hide Surviving, NoKey;
      subscribed := false;
      InitProvisionedData();
      var _ := DeleteProvisionedData(undeleted);
    }

    /** bt_esl_unassociate */
    method Unassociate(undeleted: set<Item>)
      modifies this`configuring, this`settings, this`updateComplete
      modifies this`addr, this`apKey, this`rspKey, this`timeoutMode, this`timeoutUpdateNeeded
      modifies this`phase, this`subscribed, this`synchronized, this`timerRuns, leds
      ensures M() == TagMachine.Unassociate(old(M()), undeleted) && E() == ResetLeds(old(E()))
    {
      hide M, Surviving, ResetLeds, NoKey, Enter;
      Forget(undeleted);
      ResetAllLeds();
      SetState(Unassociated);
    }

    /** led_dwork_reset for every LED */
    method ResetAllLeds()
      modifies leds
      ensures E() == ResetLeds(old(E()))
    {
      for i := 0 to leds.Length
        invariant forall k | 0 <= k < leds.Length :: leds[k] == if k < i then ResetLed(old(leds[k])) else old(leds[k])
      {
        LedReset(i);
      }
      assert leds[..] == ResetLeds(old(E())).leds;
    }

    /** bt_esl_factory_reset */
    method FactoryReset(undeleted: set<Item>)
      modifies this`configuring, this`settings, this`updateComplete
      modifies this`addr, this`apKey, this`rspKey, this`timeoutMode, this`timeoutUpdateNeeded
      modifies this`phase, this`subscribed, this`synchronized, this`timerRuns, leds, imageSizes
      ensures M() == TagMachine.Unassociate(old(M()), undeleted) && E() == ResetLeds(NoImages(old(E())))
    {
      hide Surviving, ResetLeds, TagMachine.Unassociate;
      for i := 0 to imageSizes.Length
        modifies imageSizes
        invariant forall k | 0 <= k < imageSizes.Length :: imageSizes[k] == if k < i then 0 else old(imageSizes[k])
      {
        imageSizes[i] := 0;
      }
      assert imageSizes[..] == NoImages(old(E())).imageSizes;
      assert E() == NoImages(old(E())) && M() == old(M());
      Unassociate(undeleted);
    }

    /** esl_state_timeout_work_fn */
    method StateTimeout(undeleted: set<Item>)
      requires timerRuns
      modifies this`configuring, this`settings, this`updateComplete
      modifies this`addr, this`apKey, this`rspKey, this`timeoutMode, this`timeoutUpdateNeeded
      modifies this`phase, this`subscribed, this`synchronized, this`timerRuns, leds
      ensures M() == Timeout(old(M()), undeleted)
      ensures E() == if old(timeoutMode) == UnassociatedTimeout then ResetLeds(old(E())) else old(E())
    {
      hide ResetLeds, TagMachine.Unassociate, Enter;
      timerRuns := false;
      match timeoutMode
      case UnsyncedTimeout =>
        timeoutUpdateNeeded := true;
        SetState(Unsynchronized);
      case UnassociatedTimeout => Unassociate(undeleted);
    }

    // ---------- LEDs and displays ----------

    /** led_dwork_reset */
    method LedReset(i: nat)
      requires i < leds.Length
      modifies leds
      ensures leds[..] == old(leds[..])[i := ResetLed(old(leds[i]))]
    {
      leds[i] := leds[i].(enabled := false, active := false, start := 0, stop := 0, patternIdx := 0, repeats := 0);
      leds[i] := leds[i].(work := Idle);
    }

    /** display_dwork_reset */
    method DisplayReset(i: nat)
      requires i < displays.Length && config.imageMax <= 255
      modifies displays
      ensures displays[..] == old(displays[..])[i := ResetDisplay(old(displays[i]), config)]
    {
      displays[i] := displays[i].(start := 0, active := false, img := if config.pts then 0 else config.imageMax);
      displays[i] := displays[i].(work := Idle);
    }

    /** bt_esl_basic_state_update */
    method BasicStateUpdate()
      modifies this`activeLed, this`pendingLed, this`pendingDisplay
      ensures E() == RefreshBasic(old(E()))
    {
      activeLed, pendingLed, pendingDisplay := false, false, false;
      for i := 0 to leds.Length
        modifies this`activeLed, this`pendingLed
        invariant activeLed == exists k | 0 <= k < i :: leds[k].active
        invariant pendingLed == exists k | 0 <= k < i :: leds[k].start != 0
      {
        if leds[i].active {
          activeLed := true;
        }
        if leds[i].start != 0 {
          pendingLed := true;
        }
      }
      for i := 0 to displays.Length
        modifies this`pendingDisplay
        invariant pendingDisplay == exists k | 0 <= k < i :: displays[k].start != 0
      {
        if displays[i].start != 0 {
          pendingDisplay := true;
        }
      }
      assert forall k | 0 <= k < leds.Length :: leds[k] == leds[..][k] && leds[..][k] in leds[..];
      assert forall k | 0 <= k < displays.Length :: displays[k] == displays[..][k] && displays[..][k] in displays[..];
    }

    /** esl_get_abs_time: with the anchor, the reading makes up the uptime in 32 bits */
    function GetAbsTime(u: nat): (t: u32)
      reads this`anchor
      ensures (t + anchor) % WORD == u % WORD
    {
      WordsDrop(u % WORD, -((u % WORD - anchor) / WORD));
      ClockAt(anchor, u)
    }

    /** Head of led_delay_worker_fn: the slot is free again, and a first run is set up. */
    method LedBegin(i: nat, u: nat)
      requires i < leds.Length && leds[i].obj.duration != 0
      modifies leds
      ensures leds[..] == old(leds[..])[i := Begun(old(leds[i]), ClockAt(anchor, u))]
    {
      leds[i] := leds[i].(start := 0, work := Idle);
      var obj := leds[i].obj;
      if !leds[i].enabled {
        if obj.repeatType == 1 {
          leds[i] := leds[i].(stop := (GetAbsTime(u) + obj.duration * MSEC_PER_SEC) % WORD);
        } else {
          leds[i] := leds[i].(stop := 0);
        }
        leds[i] := leds[i].(enabled := true);
        leds[i] := leds[i].(active := true);
      }
    }

    /** led_delay_worker_fn, with the calls it makes to switch the LED */
    method LedDelayWorker(i: nat, u: nat) returns (calls: seq<bool>)
      requires i < leds.Length && |leds[i].obj.pattern| == FLASH_PATTERN_LEN
      modifies leds
      ensures var (l, made) := LedWorker(old(leds[i]), ClockAt(anchor, u), u);
              leds[..] == old(leds[..])[i := l] && calls == made
    {
      hide TopBit, PatternBit, Begun, ClockAt;
      var obj := leds[i].obj;
      if obj.duration == 0 {
        leds[i] := leds[i].(start := 0, work := Idle);
        leds[i] := leds[i].(active := obj.repeatType == 1);
        calls := [obj.repeatType == 1];
        return;
      }
      calls := [];
      BegunKeepsObj(leds[i], ClockAt(anchor, u));
      LedBegin(i, u);
      if leds[i].stop != 0 && GetAbsTime(u) > leds[i].stop {
        calls := calls + [false];
        leds[i] := leds[i].(enabled := false, active := false);
      }
      if leds[i].patternIdx == 0 {
        leds[i] := leds[i].(repeats := (leds[i].repeats + 1) % 0x100, patternIdx := TopBit(obj.pattern));
        if leds[i].repeats >= obj.duration {
          calls := calls + [false];
          leds[i] := leds[i].(enabled := false, active := false);
          return;
        }
      } else if leds[i].patternIdx == START_MARK {
        leds[i] := leds[i].(patternIdx := TopBit(obj.pattern));
      }
      if leds[i].enabled {
        var more := LedShow(i, u);
        calls := calls + more;
      }
    }

    lemma BegunKeepsObj(l: Led, now: u32)
      ensures Begun(l, now).obj == l.obj
    {
    }

    /** Tail of led_delay_worker_fn: one position of the pattern is shown, and the next run scheduled. */
    method LedShow(i: nat, u: nat) returns (calls: seq<bool>)
      requires i < leds.Length && |leds[i].obj.pattern| == FLASH_PATTERN_LEN
      modifies leds
      ensures var l := old(leds[i]);
              var on := PatternBit(l.obj.pattern, l.patternIdx);
              && calls == [on]
              && leds[..] == old(leds[..])[i :=
                   l.(work := Due(u + 2 * (if on then l.obj.onPeriod else l.obj.offPeriod) as int),
                      patternIdx := if l.patternIdx != 0 then l.patternIdx - 1 else 0)]
    {
      hide PatternBit;
      if PatternBit(leds[i].obj.pattern, leds[i].patternIdx) {
        calls := [true];
        leds[i] := leds[i].(work := Due(u + 2 * (leds[i].obj.onPeriod as int)));
      } else {
        calls := [false];
        leds[i] := leds[i].(work := Due(u + 2 * (leds[i].obj.offPeriod as int)));
      }
      if leds[i].patternIdx != 0 {
        leds[i] := leds[i].(patternIdx := leds[i].patternIdx - 1);
      }
    }

    /** display_delay_worker_fn */
    method DisplayDelayWorker(i: nat)
      requires i < displays.Length
      modifies displays
      ensures displays[..] == old(displays[..])[i := DisplayWorker(old(displays[i]))]
    {
      displays[i] := displays[i].(work := Idle);
      displays[i] := displays[i].(active := true);
      displays[i] := displays[i].(start := 0);
    }

    // ---------- commands to sensors, displays and LEDs ----------

    /** OP_LED_CONTROL */
    method LedControlCommand(cmd: bytes, u: nat)
      requires Fitting(E(), config) && |cmd| == 13
      modifies this`resp, leds
      ensures (E(), resp) == LedControl(old(E()), config, cmd, u)
    {
      hide DecodeLed;
      var i := cmd[2];
      if config.ledMax == 0 {
        resp := Failed(ERR_INV_OPCODE);
        return;
      } else if i >= config.ledMax {
        resp := Failed(ERR_INV_PARAMS);
        return;
      }
      leds[i] := leds[i].(obj := DecodeLed(cmd));
      resp := LedState(i);
      leds[i] := leds[i].(patternIdx := START_MARK);
      LedReset(i);
      leds[i] := leds[i].(work := Due(u));
      assert leds[..] == old(leds[..])[i := ResetLed(old(leds[i])).(obj := DecodeLed(cmd), work := Due(u))];
    }

    /** OP_LED_TIMED_CONTROL */
    method LedTimedCommand(cmd: bytes, u: nat)
      requires Fitting(E(), config) && |cmd| == 17
      modifies this`resp, this`activeLed, this`pendingLed, this`pendingDisplay, leds
      ensures (E(), resp) == LedTimed(old(E()), config, cmd, u)
    {
      hide DecodeLed, GetLe32, ClockAt, RefreshBasic;
      var i := cmd[2];
      if config.ledMax == 0 {
        resp := Failed(ERR_INV_OPCODE);
        return;
      } else if i >= config.ledMax {
        resp := Failed(ERR_INV_PARAMS);
        return;
      }
      var target := GetLe32(cmd[13..17]);
      var offset := (target - GetAbsTime(u)) % WORD;
      if target == 0 {
        LedReset(i);
        resp := LedState(i);
        BasicStateUpdate();
        return;
      }
      if offset >= ESL_TIMED_ABS_MAX {
        resp := Failed(ERR_IMPLAUSIBLE_ABS);
        return;
      }
      if leds[i].start == 0 || leds[i].start == target {
        LedReset(i);
        leds[i] := leds[i].(start := target);
        resp := LedState(i);
        leds[i] := leds[i].(patternIdx := START_MARK);
        assert leds[..] == old(leds[..])[i := ResetLed(old(leds[i])).(start := target, patternIdx := START_MARK)];
        assert E() == old(E()).(leds := leds[..]);
        BasicStateUpdate();
      } else {
        resp := Failed(ERR_QUEUE_FULL);
        return;
      }
      leds[i] := leds[i].(obj := DecodeLed(cmd));
      leds[i] := leds[i].(work := Due(u + offset));
      assert leds[..] == old(leds[..])[i := ResetLed(old(leds[i])).(start := target, patternIdx := START_MARK,
                                                                   obj := DecodeLed(cmd), work := Due(u + offset))];
    }

    /** The checks at the head of OP_DISPLAY_IMAGE and OP_DISPLAY_TIMED_IMAGE: false when one fails */
    method CheckImage(display: byte, img: byte) returns (ok: bool)
      requires Fitting(E(), config)
      modifies this`resp
      ensures match ImageFault(old(E()), config, display, img)
              case None => ok && resp == old(resp)
              case Some(code) => !ok && resp == Failed(code)
    {
      ok := false;
      if config.displayMax == 0 {
        resp := Failed(ERR_INV_OPCODE);
      } else if display >= config.displayMax {
        resp := Failed(ERR_INV_PARAMS);
      } else if img >= config.imageMax {
        resp := Failed(ERR_INV_PARAMS);
      } else if imageSizes[img] == 0 && !config.simulated {
        resp := Failed(ERR_IMG_NOT_AVAIL);
      } else {
        ok := true;
      }
    }

    /** OP_DISPLAY_IMAGE */
    method DisplayImageCommand(cmd: bytes, u: nat)
      requires Fitting(E(), config) && |cmd| == 4
      modifies this`resp, displays
      ensures (E(), resp) == DisplayImage(old(E()), config, cmd, u)
    {
      var i, img := cmd[2], cmd[3];
      var ok := CheckImage(i, img);
      if !ok {
        return;
      }
      resp := DisplayState(i, img);
      displays[i] := displays[i].(img := img);
      displays[i] := displays[i].(work := Due(u));
      assert displays[..] == old(displays[..])[i := old(displays[i]).(img := img, work := Due(u))];
    }

    /** OP_DISPLAY_TIMED_IMAGE */
    method DisplayTimedCommand(cmd: bytes, u: nat)
      requires Fitting(E(), config) && |cmd| == 8
      modifies this`resp, this`activeLed, this`pendingLed, this`pendingDisplay, displays
      ensures (E(), resp) == DisplayTimed(old(E()), config, cmd, u)
    {
      hide GetLe32, ClockAt, RefreshBasic;
      var i, img, target := cmd[2], cmd[3], GetLe32(cmd[4..8]);
      var offset := (target - GetAbsTime(u)) % WORD;
      var ok := CheckImage(i, img);
      if !ok {
        return;
      }
      if target == 0 {
        resp := DisplayState(i, img);
        DisplayReset(i);
        BasicStateUpdate();
        return;
      }
      if offset >= ESL_TIMED_ABS_MAX {
        resp := Failed(ERR_IMPLAUSIBLE_ABS);
        return;
      }
      if displays[i].start == 0 || displays[i].start == target {
        resp := DisplayState(i, img);
        DisplayReset(i);
        displays[i] := displays[i].(img := img);
        displays[i] := displays[i].(start := target);
        displays[i] := displays[i].(work := Due(u + offset));
        pendingDisplay := true;
        assert displays[..] == old(displays[..])[i := ResetDisplay(old(displays[i]), config).(
                                 img := img, start := target, work := Due(u + offset))];
      } else {
        resp := Failed(ERR_QUEUE_FULL);
      }
    }

    /** OP_REFRESH_DISPLAY */
    method RefreshCommand(cmd: bytes, u: nat)
      requires Fitting(E(), config) && |cmd| == 3
      modifies this`resp, displays
      ensures (E(), resp) == DisplayRefresh(old(E()), config, cmd, u)
    {
      var i := cmd[2];
      if config.displayMax == 0 {
        resp := Failed(ERR_INV_OPCODE);
      } else if i >= config.displayMax {
        resp := Failed(ERR_INV_PARAMS);
      } else if displays[i].img == config.imageMax {
        resp := Failed(ERR_INV_IMG_IDX);
      } else {
        resp := DisplayState(i, displays[i].img);
        displays[i] := displays[i].(work := Due(u));
      }
    }

    /** OP_READ_SENSOR_DATA */
    method SensorCommand(cmd: bytes)
      requires |cmd| == 3
      modifies this`resp
      ensures resp == ReadSensor(config, cmd)
    {
      if config.sensorMax == 0 {
        resp := Failed(ERR_INV_OPCODE);
      } else if cmd[2] >= config.sensorMax {
        resp := Failed(ERR_INV_PARAMS);
      } else {
        resp := SensorValue(cmd[2]);
      }
    }

    /** The cases of the switch that concern elements, and its default */
    method OperateElement(cmd: bytes, u: nat)
      requires Fitting(E(), config) && WellFramed(cmd) && resp == BasicState
      modifies this`resp, this`activeLed, this`pendingLed, this`pendingDisplay, leds, displays
      ensures (E(), resp) == Operate(old(E()), config, cmd, u)
    {
      hide LedControl, LedTimed, DisplayImage, DisplayTimed, DisplayRefresh, ReadSensor, Fitting;
      var op := cmd[0];
      if op == OP_READ_SENSOR_DATA {
        SensorCommand(cmd);
      } else if op == OP_REFRESH_DISPLAY {
        RefreshCommand(cmd, u);
      } else if op == OP_DISPLAY_IMAGE {
        DisplayImageCommand(cmd, u);
      } else if op == OP_DISPLAY_TIMED_IMAGE {
        DisplayTimedCommand(cmd, u);
      } else if op == OP_LED_CONTROL {
        LedControlCommand(cmd, u);
      } else if op == OP_LED_TIMED_CONTROL {
        LedTimedCommand(cmd, u);
      } else if op != OP_PING && op % 16 == 0 {
        resp := Failed(ERR_INV_OPCODE);
      }
    }

    // ---------- the command handler ----------

    /** OP_UPDATE_COMPLETE */
    method UpdateCompleteCommand()
      modifies this`updateComplete, this`timeoutUpdateNeeded
      modifies this`phase, this`subscribed, this`synchronized, this`timeoutMode, this`timerRuns
      ensures M() == UpdateComplete(old(M()))
    {
      hide Enter, AskConfiguring;
      updateComplete := true;
      if phase == Updating && synchronized {
        timeoutUpdateNeeded := true;
        SetState(Synchronized);
      } else {
        var configured := IsConfiguringState();
        if configured {
          SetState(Configured);
        } else {
          NotYet(old(M()).(complete := true));
        }
      }
    }

    lemma NotYet(m: Machine)
      ensures !Provisioned(m) ==> AskConfiguring(m) == m
    {
    }

    /** OP_UNASSOCIATE */
    method UnassociateCommand(toAll: bool)
      modifies this`resp, this`synchronized, this`unassociateAfter
      ensures M() == if toAll then old(M()) else old(M()).(synced := false)
      ensures resp == if toAll then Failed(ERR_RETRY) else old(resp)
      ensures unassociateAfter == (!toAll || old(unassociateAfter))
    {
      if !toAll {
        synchronized := false;
        unassociateAfter := true;
      } else {
        resp := Failed(ERR_RETRY);
      }
    }

    /** OP_FACTORY_RESET */
    method FactoryResetCommand(toAll: bool, undeleted: set<Item>)
      modifies this`resp, this`respNeeded, this`configuring, this`settings, this`updateComplete
      modifies this`addr, this`apKey, this`rspKey, this`timeoutMode, this`timeoutUpdateNeeded
      modifies this`phase, this`subscribed, this`synchronized, this`timerRuns, leds, imageSizes
      ensures var carriedOut := old(phase) != Synchronized && !toAll;
              && M() == (if carriedOut then TagMachine.Unassociate(old(M()), undeleted) else old(M()))
              && E() == (if carriedOut then ResetLeds(NoImages(old(E()))) else old(E()))
              && respNeeded == (old(respNeeded) && !carriedOut)
              && resp == if carriedOut then old(resp)
                         else Failed(if old(phase) == Synchronized then ERR_INV_STATE else ERR_RETRY)
    {
      hide M, E, TagMachine.Unassociate, ResetLeds, NoImages;
      if phase == Synchronized {
        resp := Failed(ERR_INV_STATE);
        return;
      }
      if toAll {
        resp := Failed(ERR_RETRY);
        return;
      }
      FactoryReset(undeleted);
      respNeeded := false;
    }

    /** The two cases of the switch that give up the provisioning */
    method ExecuteTagCommand(cmd: bytes, w: World)
      requires Fitting(E(), config) && WellFramed(cmd)
      requires cmd[0] == OP_UNASSOCIATE || cmd[0] == OP_FACTORY_RESET
      modifies this`resp, this`respNeeded, this`unassociateAfter, this`configuring, this`settings, this`updateComplete
      modifies this`addr, this`apKey, this`rspKey, this`timeoutMode, this`timeoutUpdateNeeded
      modifies this`phase, this`subscribed, this`synchronized, this`timerRuns, leds, imageSizes
      ensures T() == Execute(old(T()), config, cmd, w)
    {
      hide M, E, Operate, UpdateComplete, TagMachine.Unassociate, ResetLeds, NoImages, Fitting, EcpLen, Execute;
      PhaseIsPhase();
      ExecuteCases(T(), config, cmd, w);
      if cmd[0] == OP_UNASSOCIATE {
        UnassociateCommand(cmd[1] == ESL_ADDR_BROADCAST);
      } else {
        FactoryResetCommand(cmd[1] == ESL_ADDR_BROADCAST, w.undeleted);
      }
    }

    /** The switch of ecp_command_handler */
    method ExecuteCommand(cmd: bytes, w: World)
      requires Fitting(E(), config) && WellFramed(cmd) && resp == BasicState
      modifies this, leds, displays, imageSizes
      ensures T() == Execute(old(T()), config, cmd, w)
    {
      hide M, E, Operate, UpdateComplete, TagMachine.Unassociate, ResetLeds, NoImages, Fitting, EcpLen, Execute;
      ExecuteCases(T(), config, cmd, w);
      if cmd[0] == OP_UNASSOCIATE || cmd[0] == OP_FACTORY_RESET {
        ExecuteTagCommand(cmd, w);
      } else if cmd[0] == OP_UPDATE_COMPLETE {
        UpdateCompleteCommand();
      } else if cmd[0] == OP_SERVICE_RESET {
        serviceNeeded := false;
      } else {
        OperateElement(cmd, w.u);
      }
    }

    lemma PhaseIsPhase()
      ensures M().phase == phase && M().addr == addr && M().rspKey == rspKey && M().armed == timerRuns
      ensures M().mode == timeoutMode
    {
    }

    /** check_ecp_esl_id: false for another tag's ID; a busy tag answers with Retry, once */
    method CheckEslId(id: byte) returns (mine: bool)
      modifies this`resp, this`busy
      ensures mine == ToMe(old(T()), id)
      ensures !mine ==> resp == Failed(ERR_INV_PARAMS) && busy == old(busy)
      ensures mine ==> !busy && resp == if old(busy) then Failed(ERR_RETRY) else old(resp)
    {
      if id != Low(addr) && id != ESL_ADDR_BROADCAST {
        resp := Failed(ERR_INV_PARAMS);
        return false;
      }
      if busy {
        resp := Failed(ERR_RETRY);
        busy := false;
      }
      mine := true;
    }

    /** ecp_command_handler up to its response: false when none is to be given */
    method HandleCommand(cmd: bytes, w: World) returns (answers: bool)
      requires Fitting(E(), config) && |cmd| >= 2 && resp == BasicState
      modifies this, leds, displays, imageSizes
      ensures var was := old(T());
              var proper := |cmd| == EcpLen(cmd[0]) && cmd[0] % 16 != 15;
              && answers == (!proper || ToMe(was, cmd[1]))
              && T() == if |cmd| != EcpLen(cmd[0]) then was.(resp := Failed(ERR_INV_PARAMS))
                        else if !proper then was.(resp := Failed(ERR_INV_OPCODE))
                        else if !answers then was.(resp := Failed(ERR_INV_PARAMS))
                        else if was.busy then was.(resp := Failed(ERR_RETRY), busy := false)
                        else Execute(was, config, cmd, w)
    {
      hide M, E, Execute, Fitting, Low;
      answers := true;
      if |cmd| != EcpLen(cmd[0]) {
        resp := Failed(ERR_INV_PARAMS);
      } else if cmd[0] % 16 == 15 {
        resp := Failed(ERR_INV_OPCODE);
      } else {
        answers := CheckEslId(cmd[1]);
        if answers && !resp.Failed? {
          ExecuteCommand(cmd, w);
        }
      }
    }

    /** ecp_command_handler */
    method CommandHandler(cmd: bytes, src: Source, w: World)
      requires Fitting(E(), config) && |cmd| >= 2 && ReadingOk(w.reading)
      modifies this, leds, displays, imageSizes
      ensures T() == Command(old(T()), config, cmd, src, w)
    {
      hide M, E, Execute, Respond, Fitting, ToMe, EcpLen;
      unassociateAfter := false;
      respNeeded := true;
      resp := BasicState;
      assert T() == old(T()).(resp := BasicState, respNeeded := true, unassociateAfter := false);
      assert ToMe(T(), cmd[1]) == ToMe(old(T()), cmd[1]) by { SameAddress(T(), old(T()), cmd[1]); }
      var answers := HandleCommand(cmd, w);
      if answers {
        ResponseHandler(src, w.reading);
      }
    }

    lemma SameAddress(a: Tag, b: Tag, id: byte)
      requires a.m == b.m
      ensures ToMe(a, id) == ToMe(b, id)
    {
    }

    /** ecp_response_handler; a notification that is to unassociate is in flight after it */
    method ResponseHandler(src: Source, reading: Reading)
      requires ReadingOk(reading)
      modifies this`rsp, this`last, this`inFlight, this`activeLed, this`pendingLed, this`pendingDisplay
      ensures T() == Respond(old(T()), src, reading)
    {
      hide M, E, RefreshBasic, Encode, BasicByte, WellFramed, Accumulate, Respond;
      ghost var was := T();
      var tlv := ComposeResponse(reading);
      RespondIs(was, src, reading, E(), tlv);
      if src == FromPawr {
        AppendResponse(tlv);
      } else {
        rsp := tlv;
        if respNeeded && unassociateAfter {
          inFlight := true;
        }
      }
    }

    /** Respond in terms of the elements after it and the response's TLV. */
    lemma RespondIs(t: Tag, src: Source, reading: Reading, e: Elements, tlv: bytes)
      requires ReadingOk(reading) && e == (if t.resp.BasicState? then RefreshBasic(t.e) else t.e)
      requires tlv == Encode(t.resp, BasicByte(t.(e := e)), reading)
      ensures Respond(t, src, reading) ==
                if src == FromPawr then
                  t.(e := e, rsp := Accumulate(t.rsp, t.last, tlv).0, last := Accumulate(t.rsp, t.last, tlv).1)
                else t.(e := e, rsp := tlv, inFlight := t.inFlight || (t.respNeeded && t.unassociateAfter))
    {
      hide RefreshBasic, Encode, BasicByte, Accumulate;
    }

    /** The response goes into the buffer of the packet, or replaces the last one there by Capacity Limit */
    method AppendResponse(tlv: bytes)
      modifies this`rsp, this`last
      ensures (rsp, last) == Accumulate(old(rsp), old(last), tlv)
    {
      if |rsp| + |tlv| > ESL_SYNC_PKT_PAYLOAD_MAX_LEN {
        if last <= |rsp| {
          rsp := rsp[..|rsp| - last];
        } else {
          rsp := [];
        }
        rsp := rsp + [OP_ERR, ERR_CAP_LIMIT];
        last := 2;
      } else {
        rsp := rsp + tlv;
        last := |tlv|;
      }
    }

    /** The switch of ecp_response_handler, laying the response out in a buffer */
    method ComposeResponse(reading: Reading) returns (tlv: bytes)
      requires ReadingOk(reading)
      modifies this`activeLed, this`pendingLed, this`pendingDisplay
      ensures E() == if resp.BasicState? then RefreshBasic(old(E())) else old(E())
      ensures tlv == Encode(resp, BasicByte(T()), reading)
    {
      hide RefreshBasic;
      match resp {
        case Failed(code) => tlv := [OP_ERR, code];
        case LedState(led) => tlv := [OP_LED_STATE, led];
        case BasicState =>
          BasicStateUpdate();
          tlv := [OP_BASIC_STATE, BasicStateByte(), 0];
        case DisplayState(display, img) => tlv := [OP_DISPLAY_STATE, display, img];
        case SensorValue(sensor) => tlv := ComposeSensorValue(sensor, reading);
      }
    }

    /** The sensor's response, laid out in a buffer */
    static method ComposeSensorValue(sensor: byte, reading: Reading) returns (tlv: bytes)
      requires ReadingOk(reading)
      ensures forall basic: byte :: tlv == Encode(SensorValue(sensor), basic, reading)
    {
      var buf := new byte[ESL_EAD_PAYLOAD_MAX_LEN](_ => 0);
      buf[0] := OP_SENSOR_VALUE;
      var len := 2;
      match reading {
        case Absent(stale) => buf[1] := stale;
        case Busy => buf[0], buf[1] := OP_ERR, ERR_RETRY;
        case Value(data) =>
          buf[0], buf[1] := |data| * 16 + OP_SENSOR_VALUE, sensor;
          CopyInto(buf, 2, data);
          len := 2 + |data|;
          assert buf[..len] == buf[..2] + data;
      }
      tlv := buf[..len];
    }

    /** LOW_BYTE of basic_state */
    function BasicStateByte(): byte
      reads this
    {
      (if serviceNeeded then 1 else 0) + (if synchronized then 2 else 0) + (if activeLed then 4 else 0)
      + (if pendingLed then 8 else 0) + (if pendingDisplay then 16 else 0)
    }

    // ---------- synchronization packets ----------

    /** esl_parse_sync_packet, with set_pawr_response: `tail` is what memory holds behind the packet. The cursor
        and the TLV counter stay within their eight bits. */
    method ParseSyncPacket(plain: bytes, tail: bytes, w: World, readings: Readings, randomizer: bytes)
      returns (slot: int8, dispatched: seq<bytes>, response: Option<bytes>)
      requires Sound(cipher) && Fitting(E(), config) && ReadingsOk(readings)
      requires 2 <= |plain| && |tail| >= 17 && |randomizer| == EAD_RANDOMIZER_LEN
      modifies this, leds, displays, imageSizes
      ensures var r := Parse(old(T()), config, plain, tail, w, readings);
              && T() == r.t && slot == r.slot && dispatched == r.dispatched
              && response == match r.response case None => None case Some(p) => Composed(r.t.m.rspKey, randomizer, p)
    {
      hide M, E, Walk, Fitting, ReadingsOk, GroupId, Answering, Composed;
      PhaseIsPhase();
      slot, dispatched, response := -1, [], None;
      if |plain| - 1 != plain[0] || plain[1] != BT_DATA_ESL {
        return;
      }
      var payloadLen: byte, mem := plain[0] - 1, plain[2..] + tail;
      if mem[0] != GroupId(addr) {
        return;
      }
      rsp := [];
      assert T() == old(T()).(rsp := []);
      StartsAnswering(Walked(T(), -1, []));
      slot, dispatched := WalkPacket(mem, payloadLen, w, readings);
      AnsweringFits(Walked(T(), slot, dispatched));
      PhaseIsPhase();
      response := SetPawrResponse(slot, randomizer);
    }

    /** The loop of esl_parse_sync_packet */
    method WalkPacket(mem: bytes, payloadLen: byte, w: World, readings: Readings)
      returns (slot: int8, dispatched: seq<bytes>)
      requires Fitting(E(), config) && ReadingsOk(readings) && |mem| >= payloadLen + 17
      requires Answering(Walked(T(), -1, [])) && payloadLen < 255
      modifies this, leds, displays, imageSizes
      ensures Walked(T(), slot, dispatched) ==
                Walk(Walked(old(T()), -1, []), config, mem, payloadLen, 1, -1, w, readings)
      ensures Answering(Walked(T(), slot, dispatched))
    {
      hide M, E, T, Walk, WalkStep, Fitting, ReadingsOk, CommandAt, Answering;
      slot, dispatched := -1, [];
      var cur: byte, tlv: int8 := 1, -1;
      TagIsTag();
      ghost var whole := Walk(Walked(T(), -1, []), config, mem, payloadLen, 1, -1, w, readings);
      while cur < payloadLen
        invariant Fitting(T().e, config) && 2 * tlv + 3 <= cur && -1 <= slot && -1 <= tlv
        invariant Answering(Walked(T(), slot, dispatched))
        invariant whole == Walk(Walked(T(), slot, dispatched), config, mem, payloadLen, cur, tlv, w, readings)
        decreases payloadLen as int - cur
      {
        ghost var s := Walked(T(), slot, dispatched);
        WalkUnfolds(s, config, mem, payloadLen, cur, tlv, w, readings);
        StepAnswers(s, config, mem, cur, tlv, w, readings);
        TagIsTag();
        var len := EcpLen(mem[cur]);
        slot, dispatched := Dispatch(mem, cur, tlv, slot, dispatched, w, readings);
        tlv := tlv + 1;
        if cur + len <= payloadLen {
          cur := cur + len;
        } else {
          return;
        }
      }
      WalkEnds(Walked(T(), slot, dispatched), config, mem, payloadLen, cur, tlv, w, readings);
    }

    lemma TagIsTag()
      ensures T().e == E() && T().m == M()
    {
    }

    lemma AnsweringFits(s: Walked)
      requires Answering(s)
      ensures s.slot != -1 ==> 1 <= |s.t.rsp| <= ESL_SYNC_PKT_PAYLOAD_MAX_LEN
    {
    }

    lemma StartsAnswering(s: Walked)
      requires s.t.rsp == [] && s.dispatched == [] && s.slot == -1
      ensures Answering(s)
    {
    }

    /** One TLV of the packet: handed to the command handler, when it is for this tag or for all */
    method Dispatch(mem: bytes, cur: byte, tlv: int8, slot: int8, dispatched: seq<bytes>, w: World, readings: Readings)
      returns (slot': int8, dispatched': seq<bytes>)
      requires Fitting(E(), config) && cur + 17 <= |mem| && ReadingsOk(readings) && tlv < 127
      modifies this, leds, displays, imageSizes
      ensures Walked(T(), slot', dispatched') ==
                WalkStep(Walked(old(T()), slot, dispatched), config, mem, cur, tlv, w, readings)
      ensures slot' == slot || slot' == tlv + 1
    {
      hide M, E, Command, Fitting, EcpLen;
      PhaseIsPhase();
      slot', dispatched' := slot, dispatched;
      var id := mem[cur + 1];
      if id == Low(addr) || id == ESL_ADDR_BROADCAST {
        var cmd := mem[cur..cur + EcpLen(mem[cur])];
        CommandHandler(cmd, FromPawr, w.(reading := readings(|dispatched|)));
        dispatched' := dispatched + [cmd];
        if id != ESL_ADDR_BROADCAST {
          slot' := tlv + 1;
        }
      }
    }

    /** The response frame for a payload that fits */
    function Composed(key: bytes, randomizer: bytes, payload: bytes): Option<bytes> {
      if |payload| <= ESL_SYNC_PKT_PAYLOAD_MAX_LEN then Some(Frame(cipher, key, randomizer, payload)) else None
    }

    /** set_pawr_response: composes what the buffer holds for the chosen slot, and empties the buffer */
    method SetPawrResponse(slot: int8, randomizer: bytes) returns (response: Option<bytes>)
      requires Sound(cipher) && |randomizer| == EAD_RANDOMIZER_LEN
      requires slot != -1 ==> 1 <= |rsp| <= ESL_SYNC_PKT_PAYLOAD_MAX_LEN
      modifies this`rsp
      ensures rsp == [] && response == if slot == -1 then None else Composed(rspKey, randomizer, old(rsp))
    {
      hide Sound, Frame;
      response := None;
      if slot != -1 {
        var paRsp := new byte[ESL_ENCRYPTED_DATA_MAX_LEN];
        var len := ComposeAdData(cipher, paRsp, rsp, randomizer, rspKey);
        response := Some(paRsp[..len]);
      }
      rsp := [];
    }

    /** esl_pawr_sync_work_fn */
    method SyncWork(air: bytes, tail: bytes, w: World, readings: Readings, randomizer: bytes)
      returns (slot: int8, dispatched: seq<bytes>, response: Option<bytes>)
      requires Sound(cipher) && Fitting(E(), config) && ReadingsOk(readings)
      requires |air| >= AD_HEADER_LEN && |tail| >= 17 && |randomizer| == EAD_RANDOMIZER_LEN
      requires Opened(cipher, apKey, air).Some? ==> |Opened(cipher, apKey, air).value| != 1
      modifies this, leds, displays, imageSizes
      ensures match Opened(cipher, old(apKey), air)
              case None => T() == old(T()) && slot == -1
              case Some(plain) =>
                if plain == [] then T() == old(T()) && slot == -1
                else
                  var r := Parse(old(T()), config, plain, tail, w, readings);
                  && T() == Received(old(T()), config, plain, tail, w, readings)
                  && slot == r.slot && dispatched == r.dispatched
                  && response == match r.response case None => None
                                                  case Some(p) => Composed(r.t.m.rspKey, randomizer, p)
    {
      hide M, E, Parse, Fitting, ReadingsOk, Composed, RenewUnsynced;
      slot, dispatched, response := -1, [], None;
      match cipher.open(apKey, air[AD_HEADER_LEN..])
      case None =>
      case Some(plain) =>
        if |plain| != 0 {
          slot, dispatched, response := ParseSyncPacket(plain, tail, w, readings, randomizer);
          RenewTimer();
        }
    }

    method RenewTimer()
      modifies this`timeoutMode, this`timerRuns
      ensures M() == RenewUnsynced(old(M()))
    {
      timeoutMode := UnsyncedTimeout;
      timerRuns := true;
    }

    /** ecp_notify_unassociated_cb, once the notification that was to unassociate is out */
    method NotificationDone(undeleted: set<Item>)
      modifies this, leds
      ensures T() == UnassociateTag(old(T()).(inFlight := false), undeleted)
    {
      hide M, E, TagMachine.Unassociate, ResetLeds;
      inFlight := false;
      Unassociate(undeleted);
    }

    // ---------- events ----------

    /** The four characteristic writes but the time's */
    method OnWrite(h: Happening)
      requires (h.AddrWritten? || h.ApKeyWritten? || h.RspKeyWritten?) && Possible(M(), h)
      modifies this`configuring, this`settings, this`addr, this`apKey, this`rspKey
      modifies this`phase, this`subscribed, this`synchronized, this`timeoutMode, this`timerRuns
      ensures M() == After(old(M()), h)
    {
      hide M, WriteAddr, WriteApKey, WriteRspKey;
      match h
      case AddrWritten(value, saved) => var _ := AddrWrite(value, saved);
      case ApKeyWritten(key, saved) => ApKeyWrite(key, saved);
      case RspKeyWritten(key, saved) => RspKeyWrite(key, saved);
    }

    /** Callbacks that concern the state machine alone */
    method OnLink(h: Happening)
      requires OfLink(h) && Possible(M(), h)
      modifies this`configuring, this`settings, this`addr, this`apKey, this`rspKey, this`updateComplete
      modifies this`phase, this`subscribed, this`synchronized, this`timeoutMode, this`timerRuns,
               this`timeoutUpdateNeeded
      ensures M() == After(old(M()), h)
    {
      hide M, Connect, Secure, Disconnect, WriteAddr, WriteApKey, WriteRspKey, SyncEstablished, SyncTerminated;
      if h.AddrWritten? || h.ApKeyWritten? || h.RspKeyWritten? {
        OnWrite(h);
      } else {
        match h
        case ConnectedTo => Connected();
        case Secured(ok) => SecurityChanged(ok);
        case Disconnected(reason) => this.Disconnected(reason);
        case Synced => SyncEstablishedCb();
        case SyncLost => SyncTerminatedCb();
      }
    }

    /** The workers of LEDs and displays */
    method OnWorker(ev: Event)
      requires Fitting(E(), config) && Enabled(T(), config, ev) && (ev.LedDue? || ev.DisplayDue?)
      modifies leds, displays
      ensures T() == Step(old(T()), config, ev)
    {
      hide M, LedWorker, DisplayWorker, ClockAt;
      assert forall i: nat | i < leds.Length :: leds[i] == leds[..][i] && leds[..][i] in leds[..];
      match ev
      case LedDue(i, u) =>
        var _ := LedDelayWorker(i, u);
        assert E() == old(E()).(leds := old(leds[..])[i := LedWorker(old(leds[i]), ClockAt(anchor, u), u).0]);
      case DisplayDue(i) =>
        DisplayDelayWorker(i);
        assert E() == old(E()).(displays := old(displays[..])[i := DisplayWorker(old(displays[i]))]);
    }

    /** The timer's work item and the callback of a notification */
    method OnTimer(ev: Event)
      requires Enabled(T(), config, ev) && (ev.StateTimedOut? || ev.NotificationSent?) && Fitting(E(), config)
      modifies this, leds
      ensures T() == Step(old(T()), config, ev)
    {
      hide M, E, Timeout, UnassociateTag, ResetLeds, Fitting;
      TagIsTag();
      PhaseIsPhase();
      match ev
      case StateTimedOut(undeleted) => StateTimeout(undeleted);
      case NotificationSent(undeleted) => NotificationDone(undeleted);
    }

    /** Callbacks and the control point */
    method OnCallback(ev: Event)
      requires Fitting(E(), config) && Enabled(T(), config, ev)
      requires ev.Link? || ev.ClockWritten? || ev.EcpWritten?
      modifies this, leds, displays, imageSizes
      ensures T() == Step(old(T()), config, ev)
    {
      hide M, E, After, WriteTime, Command, Fitting, Possible;
      TagIsTag();
      match ev
      case Link(h) => OnLink(h);
      case ClockWritten(value, u, saved) => AbsTimeWrite(value, u, saved);
      case EcpWritten(cmd, w) => CommandHandler(cmd, FromEcp, w);
    }

    /** What the kernel calls for an event, other than a power cut, does to the whole tag what a step of a run says. */
    method OnEvent(ev: Event, randomizer: bytes)
      requires Sound(cipher) && |randomizer| == EAD_RANDOMIZER_LEN
      requires Fitting(E(), config) && Enabled(T(), config, ev) && !ev.PowerCut?
      modifies this, leds, displays, imageSizes
      ensures T() == Step(old(T()), config, ev)
    {
      if ev.PacketReceived? {
        hide M, E, Parse, RenewUnsynced, Fitting, ReadingsOk;
        var _, _, _ := ParseSyncPacket(ev.plain, ev.tail, ev.w, ev.readings, randomizer);
        RenewTimer();
      } else if ev.LedDue? || ev.DisplayDue? {
        hide M, E, Step, Fitting, Enabled;
        OnWorker(ev);
      } else if ev.StateTimedOut? || ev.NotificationSent? {
        hide M, E, Step, Fitting, Enabled;
        OnTimer(ev);
      } else {
        hide M, E, Step, Fitting, Enabled;
        OnCallback(ev);
      }
    }

    // ---------- boot ----------

    /** Memory as it is after power-up: all zero, with `settings` in non-volatile storage. */
    ghost predicate PoweredUp()
      reads this, leds, displays
    {
      && leds.Length == config.ledMax && displays.Length == config.displayMax && imageSizes.Length == config.imageMax
      && M() == Machine(Unassociated, {}, false, false, UnsyncedTimeout, false, false, false, 0, [], [], settings)
      && !serviceNeeded && !activeLed && !pendingLed && !pendingDisplay && anchor == 0
      && !busy && resp == BasicState && !respNeeded && !unassociateAfter && !inFlight && rsp == [] && last == 0
      && (forall i | 0 <= i < leds.Length :: leds[i] == BlankLed())
      && (forall i | 0 <= i < displays.Length :: displays[i] == BlankDisplay())
    }

    constructor (config: Config, cipher: Cipher, store: map<Item, bytes>)
      ensures this.config == config && this.cipher == cipher && settings == store
      ensures PoweredUp() && fresh(leds) && fresh(displays) && fresh(imageSizes)
    {
      this.config, this.cipher, settings := config, cipher, store;
      phase, configuring, updateComplete := Unassociated, {}, false;
      synchronized, timerRuns, subscribed := false, false, false;
      timeoutMode, timeoutUpdateNeeded, addr, apKey, rspKey := UnsyncedTimeout, false, 0, [], [];
      serviceNeeded, activeLed, pendingLed, pendingDisplay, anchor := false, false, false, false, 0;
      busy, resp, respNeeded, unassociateAfter, inFlight, rsp, last := false, BasicState, false, false, false, [], 0;
      leds := new Led[config.ledMax](_ => BlankLed());
      displays := new Display[config.displayMax](_ => BlankDisplay());
      imageSizes := new nat[config.imageMax](_ => 0);
    }

    /** bt_esl_init */
    method Init(order: seq<Item>, sizes: seq<nat>, service: bool)
      requires PoweredUp() && 1 <= config.imageMax <= 255 && |sizes| == config.imageMax
      modifies this, leds, displays, imageSizes
      ensures T() == Restarted(old(settings), config, order, sizes, service)
    {
      hide M, E, T, PoweredUp, Restarted, Boot, ResetDisplay, BlankLed, BlankDisplay;
      PoweredUpParts();
      serviceNeeded := service;
      InitElements();
      Start(order);
      ImageSizeInit(sizes);
      IsRestarted(old(settings), order, sizes, service);
    }

    lemma PoweredUpParts()
      requires PoweredUp()
      ensures phase == Unassociated && configuring == {} && !updateComplete && !synchronized && !timerRuns
              && !subscribed
      ensures !activeLed && !pendingLed && !pendingDisplay && anchor == 0
      ensures !busy && resp == BasicState && !respNeeded && !unassociateAfter && !inFlight && rsp == [] && last == 0
      ensures leds.Length == config.ledMax && displays.Length == config.displayMax
      ensures imageSizes.Length == config.imageMax
      ensures forall i | 0 <= i < leds.Length :: leds[i] == BlankLed()
      ensures forall i | 0 <= i < displays.Length :: displays[i] == BlankDisplay()
    {
    }

    lemma IsRestarted(store: map<Item, bytes>, order: seq<Item>, sizes: seq<nat>, service: bool)
      requires config.imageMax <= 255 && M() == Boot(store, order)
      requires serviceNeeded == service && imageSizes[..] == sizes
      requires leds[..] == seq(config.ledMax, _ => BlankLed())
      requires displays[..] == seq(config.displayMax, _ => ResetDisplay(BlankDisplay(), config))
      requires !activeLed && !pendingLed && !pendingDisplay && anchor == 0
      requires !busy && resp == BasicState && !respNeeded && !unassociateAfter && !inFlight && rsp == [] && last == 0
      ensures T() == Restarted(store, config, order, sizes, service)
    {
      hide M, Boot, ResetDisplay, BlankLed, BlankDisplay;
    }

    /** image_size_init */
    method ImageSizeInit(sizes: seq<nat>)
      requires |sizes| == imageSizes.Length
      modifies imageSizes
      ensures imageSizes[..] == sizes
    {
      for i := 0 to imageSizes.Length
        invariant imageSizes[..i] == sizes[..i]
      {
        imageSizes[i] := sizes[i];
      }
    }

    /** The settings are loaded, and with all four items set the tag looks for synchronization */
    method Start(order: seq<Item>)
      requires phase == Unassociated && configuring == {} && !updateComplete && !synchronized && !timerRuns
               && !subscribed
      modifies this`configuring, this`addr, this`apKey, this`rspKey, this`timeoutMode, this`timeoutUpdateNeeded
      modifies this`phase, this`subscribed, this`synchronized, this`timerRuns
      ensures M() == Boot(old(settings), order)
    {
      hide Boot, Load, LoadItem, Enter, AskConfiguring, Provisioned;
      InitProvisionedData();
      assert M() == Blank(settings);
      LoadSettings(order);
      var configured := IsConfiguringState();
      if configured {
        SetState(Unsynchronized);
      }
      BootUnfolds(settings, order);
    }

    lemma BootUnfolds(store: map<Item, bytes>, order: seq<Item>)
      ensures var m := Load(Blank(store), order);
              Boot(store, order) ==
                if Provisioned(m) then Enter(AskConfiguring(m), Unsynchronized) else AskConfiguring(m)
    {
    }

    /** led_dwork_init and display_dwork_init */
    method InitElements()
      requires config.imageMax <= 255
      requires forall i | 0 <= i < leds.Length :: leds[i] == BlankLed()
      requires forall i | 0 <= i < displays.Length :: displays[i] == BlankDisplay()
      modifies leds, displays
      ensures leds[..] == seq(leds.Length, _ => BlankLed())
      ensures displays[..] == seq(displays.Length, _ => ResetDisplay(BlankDisplay(), config))
    {
      hide ResetDisplay;
      ResetAllLeds();
      assert forall i | 0 <= i < leds.Length :: leds[i] == leds[..][i] == BlankLed();
      for i := 0 to displays.Length
        modifies displays
        invariant forall k | 0 <= k < displays.Length ::
                    displays[k] == if k < i then ResetDisplay(BlankDisplay(), config) else BlankDisplay()
      {
        DisplayReset(i);
      }
    }

    /** settings_load_subtree: esl_settings_set for every stored entry, in some order */
    method LoadSettings(order: seq<Item>)
      modifies this`configuring, this`addr, this`apKey, this`rspKey
      ensures M() == Load(old(M()), order)
    {
      hide M, LoadItem;
      for i := 0 to |order|
        invariant M() == Load(old(M()), order[..i])
      {
        assert order[..i + 1][..i] == order[..i];
        SettingsSet(order[i]);
      }
      assert order[..|order|] == order;
    }

    /** esl_settings_set */
    method SettingsSet(item: Item)
      modifies this`configuring, this`addr, this`apKey, this`rspKey
      ensures M() == LoadItem(old(M()), item)
    {
      if item !in settings || |settings[item]| != StoredLen(item) {
        return;
      }
      match item
      case Addr =>
        addr := GetLe16(settings[Addr]);
        configuring := configuring + {Addr};
      case ApKey =>
        apKey := settings[ApKey];
        configuring := configuring + {ApKey};
      case RspKey =>
        rspKey := settings[RspKey];
        configuring := configuring + {RspKey};
      case AbsTime => configuring := configuring + {AbsTime};
    }
  }
}
