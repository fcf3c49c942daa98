/** Where a tag is, over whole runs: exactly which events take it out of the phase that its items and its
    synchronized bit call for, and a run from power-up on which that happens. */
module Placement {
  import opened Bytes
  import opened Tlv
  import opened Ead
  import opened TagMachine
  import opened Responses
  import opened Elements
  import opened TagRules
  import opened TagRun
  import opened TagEvents

  /** The synchronization timer fires on a tag that has not all four items. */
  predicate Misfires(t: Tag, ev: Event) {
    ev.StateTimedOut? && t.m.mode == UnsyncedTimeout && !Provisioned(t.m)
  }

  // ---------- one event ----------

  lemma ItemSetSettles(m: Machine, item: Item, saved: bool)
    requires Settled(m)
    ensures Settled(AskConfiguring(SetItem(m, item, saved)))
  {
    hide Stored;
  }

  lemma HappeningSettles(m: Machine, h: Happening)
    requires Settled(m) && Possible(m, h)
    requires !(h.TimedOut? && m.mode == UnsyncedTimeout && !Provisioned(m))
    ensures Settled(After(m, h))
  {
    hide SwapSessionKey, Surviving, NoKey, SetItem, AskConfiguring, Unassociate;
    match h
    case AddrWritten(value, saved) =>
      ItemSetSettles(m.(addr := if AddrRejected(value) then m.addr else value % 0x8000), Addr, saved);
    case ApKeyWritten(key, saved) => ItemSetSettles(m.(apKey := SwapSessionKey(key)), ApKey, saved);
    case RspKeyWritten(key, saved) => ItemSetSettles(m.(rspKey := SwapSessionKey(key)), RspKey, saved);
    case TimeWritten(saved) => ItemSetSettles(m, AbsTime, saved);
    case TimedOut(undeleted) => UnassociateIsOk(m.(armed := false), undeleted);
    case UnassociatedBy(undeleted) => UnassociateIsOk(m, undeleted);
    case ResetBy(undeleted) => UnassociateIsOk(m, undeleted);
    case ConnectedTo =>
    case SyncBitCleared =>
    case _ => LinkSettles(m, h);
  }

  lemma LinkSettles(m: Machine, h: Happening)
    requires Settled(m) && Possible(m, h)
    requires h.Secured? || h.Disconnected? || h.Synced? || h.SyncLost? || h.UpdateCompleted?
    ensures Settled(After(m, h))
  {
    hide Unassociate, WriteAddr, WriteApKey, WriteRspKey, WriteTime;
    match h
    case Secured(ok) =>
    case Disconnected(reason) =>
    case Synced =>
    case SyncLost =>
    case UpdateCompleted =>
  }

  lemma OnMachineSettles(m: Machine, busy: bool, cmd: bytes, undeleted: set<Item>)
    requires Settled(m) && |cmd| >= 2
    ensures Settled(OnMachine(m, busy, cmd, undeleted))
  {
    hide Settled, Acts, UpdateComplete, FactoryReset;
    HappeningSettles(m, UpdateCompleted);
    HappeningSettles(m, SyncBitCleared);
    HappeningSettles(m, ResetBy(undeleted));
  }

  lemma {:induction false} WalkSettles(s: Walked, c: Config, mem: bytes, n: nat, cur: nat, tlv: int, w: World,
                                       readings: Readings)
    requires Fitting(s.t.e, c) && |mem| >= n + 17 && ReadingsOk(readings) && Settled(s.t.m)
    ensures Settled(Walk(s, c, mem, n, cur, tlv, w, readings).t.m)
    decreases n - cur
  {
    hide Walk, WalkStep, Fitting, CommandAt, ReadingsOk, OnMachine, Settled;
    WalkEnds(s, c, mem, n, cur, tlv, w, readings);
    if cur < n {
      WalkUnfolds(s, c, mem, n, cur, tlv, w, readings);
      WalkStepOnMachine(s, c, mem, cur, tlv, w, readings);
      var cmd := CommandAt(mem, cur);
      OnMachineSettles(s.t.m, s.t.busy, cmd, w.undeleted);
      if cur + |cmd| <= n {
        WalkSettles(WalkStep(s, c, mem, cur, tlv, w, readings), c, mem, n, cur + |cmd|, tlv + 1, w, readings);
      }
    }
  }

  lemma SettledAnyTimer(m: Machine)
    ensures Settled(RenewUnsynced(m)) <==> Settled(m)
    ensures MachineOk(m) ==> Settled(m)
  {
  }

  /** An event that misfires misplaces the tag; every other one leaves it settled. */
  lemma StepSettlesIff(t: Tag, c: Config, ev: Event)
    requires Fitting(t.e, c) && Enabled(t, c, ev) && Settled(t.m) && StoreSane(t.m.store)
    ensures var n := Step(t, c, ev).m; if Misfires(t, ev) then !WellPlaced(n) else Settled(n)
  {
    hide Command, Walk, Boot, LedWorker, After, Fitting, WriteTime, ResetLeds, Timeout, Unassociate, Settled;
    hide WellPlaced;
    hide MachineOk, OnMachine, RenewUnsynced, StoreSane, StoreMatches, HeaderOk, ReadingsOk, Surviving, Undeleted;
    match ev
    case Link(h) => HappeningSettles(t.m, h);
    case ClockWritten(_, _, saved) => TimedSettles(t.m, TimeWritten(saved));
    case StateTimedOut(undeleted) => TimedSettles(t.m, TimedOut(undeleted));
    case NotificationSent(undeleted) =>
      UnassociateIsOk(t.m, undeleted);
      SettledAnyTimer(Unassociate(t.m, undeleted));
    case EcpWritten(cmd, w) =>
      CommandOnMachine(t, c, cmd, FromEcp, w);
      OnMachineSettles(t.m, t.busy, cmd, w.undeleted);
    case PacketReceived(plain, tail, w, readings) =>
      WalkSettles(Walked(t.(rsp := []), -1, []), c, plain[2..] + tail, |plain| - 2, 1, -1, w, readings);
      SettledAnyTimer(Parse(t, c, plain, tail, w, readings).t.m);
    case LedDue(_, _) =>
    case DisplayDue(_) =>
    case PowerCut(deleted, order, _, _) =>
      CutIsOk(t.m.store, deleted, order);
      SettledAnyTimer(Boot(Surviving(t.m.store, Undeleted(deleted)), order));
  }

  lemma TimedSettles(m: Machine, h: Happening)
    requires Settled(m) && (h.TimeWritten? || (h.TimedOut? && m.armed))
    ensures h.TimeWritten? ==> Settled(WriteTime(m, h.saved))
    ensures h.TimedOut? ==>
              if m.mode == UnsyncedTimeout && !Provisioned(m) then !WellPlaced(Timeout(m, h.undeleted))
              else Settled(Timeout(m, h.undeleted))
  {
    hide Settled, WriteTime, Unassociate;
    if !(h.TimedOut? && m.mode == UnsyncedTimeout && !Provisioned(m)) {
      HappeningSettles(m, h);
    }
  }

  // ---------- runs ----------

  /** The tag is well placed in every state of the run. */
  ghost predicate AlwaysPlaced(t: Tag, c: Config, evs: seq<Event>)
    requires Fitting(t.e, c) && Legal(t, c, evs)
    decreases |evs|
  {
    WellPlaced(t.m)
    && (evs == [] || (StepKeepsSlots(t, c, evs[0]); AlwaysPlaced(Step(t, c, evs[0]), c, evs[1..])))
  }

  /** No event of the run misfires. */
  ghost predicate NoneMisfires(t: Tag, c: Config, evs: seq<Event>)
    requires Fitting(t.e, c) && Legal(t, c, evs)
    decreases |evs|
  {
    evs == []
    || (!Misfires(t, evs[0]) && (StepKeepsSlots(t, c, evs[0]); NoneMisfires(Step(t, c, evs[0]), c, evs[1..])))
  }

  lemma SettledIsPlaced(m: Machine)
    ensures Settled(m) ==> WellPlaced(m)
  {
  }

  /** In every state of a run the tag is in Unassociated exactly when an item is missing, and not marked
      synchronized in Unsynchronized: if and only if no event of the run misfires. */
  lemma {:induction false} RunPlacedIff(t: Tag, c: Config, evs: seq<Event>)
    requires Fitting(t.e, c) && Legal(t, c, evs) && Settled(t.m) && StoreSane(t.m.store)
    ensures AlwaysPlaced(t, c, evs) <==> NoneMisfires(t, c, evs)
    decreases |evs|
  {
    hide Step, Enabled, StoreSane, StoreMatches, SlotsPending, Fitting, Settled, WellPlaced, Misfires;
    SettledIsPlaced(t.m);
    if evs != [] {
      var n := Step(t, c, evs[0]);
      StepKeepsSlots(t, c, evs[0]);
      StepStore(t, c, evs[0]);
      StepSettlesIff(t, c, evs[0]);
      if !Misfires(t, evs[0]) {
        RunPlacedIff(n, c, evs[1..]);
      } else {
        NotPlacedFirst(n, c, evs[1..]);
      }
    }
  }

  lemma NotPlacedFirst(t: Tag, c: Config, evs: seq<Event>)
    requires Fitting(t.e, c) && Legal(t, c, evs) && !WellPlaced(t.m)
    ensures !AlwaysPlaced(t, c, evs)
  {
  }

  /** Only a packet that strands the tag makes a later event misfire. */
  lemma {:induction false} NothingStrandsNothingMisfires(t: Tag, c: Config, evs: seq<Event>)
    requires Fitting(t.e, c) && Legal(t, c, evs) && MachineOk(t.m) && StoreSane(t.m.store)
    ensures NoneStrands(t, c, evs) ==> NoneMisfires(t, c, evs) && AlwaysPlaced(t, c, evs)
    decreases |evs|
  {
    hide Step, StoreSane, StoreMatches, SlotsPending, Fitting, Stranding, MachineOk, WellPlaced;
    SettledAnyTimer(t.m);
    SettledIsPlaced(t.m);
    if evs != [] {
      StepKeepsSlots(t, c, evs[0]);
      StepStore(t, c, evs[0]);
      StepOkIff(t, c, evs[0]);
      TimerNeedsItems(t, c, evs[0]);
      if !Stranding(t, evs[0]) {
        NothingStrandsNothingMisfires(Step(t, c, evs[0]), c, evs[1..]);
      }
    }
  }

  lemma TimerNeedsItems(t: Tag, c: Config, ev: Event)
    requires Enabled(t, c, ev) && MachineOk(t.m)
    ensures !Misfires(t, ev)
  {
  }

  // ---------- a run that misplaces the tag ----------

  lemma Onward(t: Tag, c: Config, ev: Event, rest: seq<Event>)
    requires Fitting(t.e, c) && Enabled(t, c, ev)
    ensures Fitting(Step(t, c, ev).e, c)
    ensures Legal(Step(t, c, ev), c, rest) ==>
              && Legal(t, c, [ev] + rest)
              && (AlwaysPlaced(t, c, [ev] + rest) ==> AlwaysPlaced(Step(t, c, ev), c, rest))
  {
    hide Step, Enabled, Fitting;
    StepKeepsSlots(t, c, ev);
    assert ([ev] + rest)[1..] == rest;
  }

  /** The stranding packet for an address, and then the timer. */
  function StrandingEnd(addr: u16, tail: bytes, w: World, readings: Readings): seq<Event> {
    [PacketReceived(StrandingPacket(addr), tail, w, readings), StateTimedOut({})]
  }

  lemma StrandingMisplaces(t: Tag, c: Config, tail: bytes, w: World, readings: Readings)
    requires Fitting(t.e, c) && MachineOk(t.m) && t.m.phase == Synchronized && !t.busy
    requires |tail| >= 17 && ReadingsOk(readings)
    ensures Legal(t, c, StrandingEnd(t.m.addr, tail, w, readings))
    ensures !AlwaysPlaced(t, c, StrandingEnd(t.m.addr, tail, w, readings))
  {
    hide Fitting, Step, Stranding, AlwaysPlaced, Legal, StrandingPacket;
    var packet, timer := PacketReceived(StrandingPacket(t.m.addr), tail, w, readings), StateTimedOut({});
    StrandingExists(t, tail, w, readings);
    StrandedTimesOut(t, c, packet, {});
    var stranded := Step(t, c, packet);
    Onward(t, c, packet, [timer]);
    Onward(stranded, c, timer, []);
    EndsThere(Step(stranded, c, timer), c);
    assert [timer] + [] == [timer] && [packet] + [timer] == StrandingEnd(t.m.addr, tail, w, readings);
  }

  lemma EndsThere(t: Tag, c: Config)
    requires Fitting(t.e, c)
    ensures Legal(t, c, []) && (AlwaysPlaced(t, c, []) <==> WellPlaced(t.m))
  {
  }

  /** A new tag is given an address and two keys and the time, told that this is complete, and synchronized. */
  function Provisioning(addr: u16, apKey: bytes, rspKey: bytes, w: World): seq<Event> {
    [Link(AddrWritten(addr, false)), Link(ApKeyWritten(apKey, false)), Link(RspKeyWritten(rspKey, false)),
     ClockWritten(0, 0, false), EcpWritten([OP_UPDATE_COMPLETE, Low(addr)], w), Link(Synced)]
  }

  /** As long as an item is missing, a write sets its bit and nothing else. */
  lemma OneItem(m: Machine, item: Item)
    ensures var bits := m.bits + {item};
            AskConfiguring(SetItem(m, item, false)) ==
              if bits == ALL_ITEMS then Enter(m.(bits := bits), Configuring) else m.(bits := bits)
  {
    hide Enter, Stored;
    AllItems(m.bits + {item});
  }

  lemma FourWrites(m: Machine, addr: u16, apKey: bytes, rspKey: bytes)
    requires m.bits == {} && !AddrRejected(addr) && addr < 0x8000 && |apKey| == |rspKey| == EAD_KEY_MATERIAL_LEN
    ensures var n := WriteTime(WriteRspKey(WriteApKey(WriteAddr(m, addr, false), apKey, false), rspKey, false), false);
            n.phase == Configuring && n.bits == ALL_ITEMS && n.addr == addr
  {
    hide SwapSessionKey, AskConfiguring, SetItem, Low;
    var m1 := m.(addr := addr, bits := {Addr});
    OneItem(m.(addr := addr), Addr);
    var m2 := m1.(apKey := SwapSessionKey(apKey), bits := {Addr, ApKey});
    OneItem(m1.(apKey := SwapSessionKey(apKey)), ApKey);
    var m3 := m2.(rspKey := SwapSessionKey(rspKey), bits := {Addr, ApKey, RspKey});
    OneItem(m2.(rspKey := SwapSessionKey(rspKey)), RspKey);
    OneItem(m3, AbsTime);
    assert {} + {Addr} == {Addr} && {Addr} + {ApKey} == {Addr, ApKey};
    assert {Addr, ApKey} + {RspKey} == {Addr, ApKey, RspKey} && {Addr, ApKey, RspKey} + {AbsTime} == ALL_ITEMS;
    assert AbsTime !in {Addr, ApKey, RspKey} && RspKey !in {Addr, ApKey} && ApKey !in {Addr};
  }

  lemma ProvisionedSoFar(t: Tag, c: Config, addr: u16, apKey: bytes, rspKey: bytes)
    requires Fitting(t.e, c) && t.m.bits == {} && !AddrRejected(addr) && addr < 0x8000
    requires |apKey| == |rspKey| == EAD_KEY_MATERIAL_LEN
    ensures var t1 := Step(t, c, Link(AddrWritten(addr, false)));
            var t2 := Step(t1, c, Link(ApKeyWritten(apKey, false)));
            var t3 := Step(t2, c, Link(RspKeyWritten(rspKey, false)));
            && Fitting(t1.e, c) && Fitting(t2.e, c) && Fitting(t3.e, c)
            && var t4 := Step(t3, c, ClockWritten(0, 0, false));
               && Fitting(t4.e, c) && t4.m.phase == Configuring && Provisioned(t4.m) && t4.m.addr == addr
               && t4.busy == t.busy
  {
    hide Fitting, WriteAddr, WriteApKey, WriteRspKey, WriteTime;
    ClockKeepsSlots(t.e, c, AnchorFor(0, 0));
    FourWrites(t.m, addr, apKey, rspKey);
  }

  lemma SynchronizedAtLast(t: Tag, c: Config, w: World)
    requires Fitting(t.e, c) && t.m.phase == Configuring && Provisioned(t.m) && !t.busy
    requires Low(t.m.addr) != ESL_ADDR_BROADCAST && ReadingOk(w.reading)
    ensures var t1 := Step(t, c, EcpWritten([OP_UPDATE_COMPLETE, Low(t.m.addr)], w));
            && Enabled(t1, c, Link(Synced)) && Fitting(t1.e, c)
            && var t2 := Step(t1, c, Link(Synced)); t2.m.phase == Synchronized && t2.m.addr == t.m.addr && !t2.busy
  {
    hide Command, Fitting, Low;
    var cmd: bytes := [OP_UPDATE_COMPLETE, Low(t.m.addr)];
    CommandOnMachine(t, c, cmd, FromEcp, w);
    StepKeepsSlots(t, c, EcpWritten(cmd, w));
    assert EcpLen(OP_UPDATE_COMPLETE) == 2;
  }

  /** From power-up with an empty store, for every address and keys: a legal run on which a stranding packet
      arrives and the tag ends up misplaced. */
  lemma MisplacingRun(c: Config, sizes: seq<nat>, addr: u16, apKey: bytes, rspKey: bytes, tail: bytes, w: World,
                      readings: Readings)
    requires 1 <= c.imageMax <= 255 && |sizes| == c.imageMax && !AddrRejected(addr) && addr < 0x8000
    requires |apKey| == |rspKey| == EAD_KEY_MATERIAL_LEN
    requires |tail| >= 17 && ReadingsOk(readings) && ReadingOk(w.reading)
    ensures var t := Restarted(map[], c, [], sizes, false);
            var evs := Provisioning(addr, apKey, rspKey, w) + StrandingEnd(addr, tail, w, readings);
            Fitting(t.e, c) && Legal(t, c, evs) && !AlwaysPlaced(t, c, evs)
  {
    hide Step, Fitting, Legal, AlwaysPlaced, StrandingEnd, MachineOk, Boot, Low, StoreSane, StoreMatches, SlotsPending;
    var t, end := Restarted(map[], c, [], sizes, false), StrandingEnd(addr, tail, w, readings);
    EmptyBoot();
    BootIsOk(map[], c, [], sizes, false);
    var evs := Provisioning(addr, apKey, rspKey, w);
    ProvisionedSoFar(t, c, addr, apKey, rspKey);
    var t1 := Step(t, c, evs[0]);
    var t2 := Step(t1, c, evs[1]);
    var t3 := Step(t2, c, evs[2]);
    var t4 := Step(t3, c, evs[3]);
    SynchronizedAtLast(t4, c, w);
    var t5 := Step(t4, c, evs[4]);
    var t6 := Step(t5, c, evs[5]);
    Onward(t5, c, evs[5], end);
    Onward(t4, c, evs[4], [evs[5]] + end);
    Onward(t3, c, evs[3], [evs[4]] + ([evs[5]] + end));
    Onward(t2, c, evs[2], [evs[3]] + ([evs[4]] + ([evs[5]] + end)));
    Onward(t1, c, evs[1], [evs[2]] + ([evs[3]] + ([evs[4]] + ([evs[5]] + end))));
    Onward(t, c, evs[0], [evs[1]] + ([evs[2]] + ([evs[3]] + ([evs[4]] + ([evs[5]] + end)))));
    assert [evs[0]] + ([evs[1]] + ([evs[2]] + ([evs[3]] + ([evs[4]] + ([evs[5]] + end))))) == evs + end;
    StepsStayOk(t, c, evs[0]);
    StepsStayOk(t1, c, evs[1]);
    StepsStayOk(t2, c, evs[2]);
    StepsStayOk(t3, c, evs[3]);
    StepsStayOk(t4, c, evs[4]);
    StepsStayOk(t5, c, evs[5]);
    StrandingMisplaces(t6, c, tail, w, readings);
  }

  lemma EmptyBoot()
    ensures StoreSane(map[]) && Boot(map[], []) == Blank(map[]) && Surviving(map[], {}) == map[]
  {
  }

  lemma StepsStayOk(t: Tag, c: Config, ev: Event)
    requires Fitting(t.e, c) && Enabled(t, c, ev) && MachineOk(t.m) && StoreSane(t.m.store) && !ev.PacketReceived?
    ensures MachineOk(Step(t, c, ev).m) && StoreSane(Step(t, c, ev).m.store)
  {
    hide Step, Fitting, Enabled, MachineOk, StoreSane, StoreMatches;
    StepOkIff(t, c, ev);
    StepStore(t, c, ev);
  }
}
