/** The life of a tag as a diagram of six phases, the synchronized bit and one timer: what every callback does,
    and what connections, updates, timeouts and resets come to over runs. */
module Lifecycle {
  import opened Bytes
  import opened Ead
  import opened Tlv
  import opened TagMachine
  import opened Responses
  import opened Elements
  import opened TagRules
  import opened TagRun
  import opened TagEvents
  import opened Placement

  datatype Timer = Stopped | ToUnsynchronized | ToUnassociated

  datatype View = View(phase: Phase, synced: bool, timer: Timer)

  function ViewOf(m: Machine): View {
    View(m.phase, m.synced,
         if !m.armed then Stopped else if m.mode == UnsyncedTimeout then ToUnsynchronized else ToUnassociated)
  }

  /** Is this the write of the one item that is missing? */
  predicate Completes(m: Machine, h: Happening) {
    match h
    case AddrWritten(value, _) => value % 0x100 != 0xFF && m.bits == {ApKey, RspKey, AbsTime}
    case ApKeyWritten(_, _) => m.bits == {Addr, RspKey, AbsTime}
    case RspKeyWritten(_, _) => m.bits == {Addr, ApKey, AbsTime}
    case TimeWritten(_) => m.bits == {Addr, ApKey, RspKey}
    case _ => false
  }

  /** The diagram. A write takes a tag that has all four items, and only such a tag, to Configuring, from whatever
      phase it is in; no arrow depends on whether timeouts are to be renewed. */
  function Diagram(v: View, h: Happening, completes: bool): View {
    var written := if v.phase != Unassociated || completes then v.(phase := Configuring) else v;
    var unassociated := View(Unassociated, v.synced, if v.timer == Stopped then Stopped else ToUnassociated);
    match h
    case ConnectedTo => v
    case Secured(ok) =>
      if ok && (v.phase == Synchronized || v.phase == Unsynchronized) then View(Updating, v.synced, Stopped) else v
    case Disconnected(reason) =>
      if v.phase == Unassociated || reason == LocalHostTerminated || (reason == AuthFailure && v.synced) then v
      else View(Unsynchronized, false, v.timer)
    case AddrWritten(value, _) => if value % 0x100 == 0xFF then v else written
    case ApKeyWritten(_, _) => written
    case RspKeyWritten(_, _) => written
    case TimeWritten(_) => written
    case Synced => if v.phase == Synchronized then v else View(Synchronized, true, ToUnsynchronized)
    case SyncLost => View(Unsynchronized, false, ToUnassociated)
    case UpdateCompleted =>
      if v.phase == Updating && v.synced then View(Synchronized, true, ToUnsynchronized)
      else if v.phase == Unassociated then v
      else v.(phase := Configured)
    case TimedOut(_) =>
      if v.timer == ToUnsynchronized then View(Unsynchronized, false, ToUnassociated)
      else View(Unassociated, v.synced, Stopped)
    case UnassociatedBy(_) => unassociated
    case ResetBy(_) => if v.phase == Synchronized then v else unassociated
    case SyncBitCleared => v.(synced := false)
  }

  lemma OneMissing(m: Machine, item: Item)
    requires Settled(m) && m.phase == Unassociated
    ensures m.bits + {item} == ALL_ITEMS <==> m.bits == ALL_ITEMS - {item}
  {
    AllItems(m.bits);
    assert item in ALL_ITEMS by { match item case Addr => case ApKey => case RspKey => case AbsTime => }
    assert ALL_ITEMS - {item} + {item} == ALL_ITEMS;
    if m.bits + {item} == ALL_ITEMS {
      assert item in m.bits ==> m.bits + {item} == m.bits;
      assert (m.bits + {item}) - {item} == m.bits;
    }
  }

  lemma WriteFollows(m: Machine, item: Item, saved: bool)
    requires Settled(m)
    ensures var (n, last) := (AskConfiguring(SetItem(m, item, saved)), m.bits == ALL_ITEMS - {item});
            ViewOf(n) == if m.phase != Unassociated || last then ViewOf(m).(phase := Configuring) else ViewOf(m)
  {
    hide Stored;
    AllItems(m.bits);
    AllItems(m.bits + {item});
    if m.phase == Unassociated {
      OneMissing(m, item);
    }
  }

  lemma ItemFollows(m: Machine, h: Happening)
    requires Settled(m) && Possible(m, h) && (h.AddrWritten? || h.ApKeyWritten? || h.RspKeyWritten? || h.TimeWritten?)
    ensures ViewOf(After(m, h)) == Diagram(ViewOf(m), h, Completes(m, h))
  {
    hide SwapSessionKey, SetItem, AskConfiguring, Enter, Unassociate;
    assert ALL_ITEMS - {Addr} == {ApKey, RspKey, AbsTime} && ALL_ITEMS - {ApKey} == {Addr, RspKey, AbsTime};
    assert ALL_ITEMS - {RspKey} == {Addr, ApKey, AbsTime} && ALL_ITEMS - {AbsTime} == {Addr, ApKey, RspKey};
    match h
    case AddrWritten(value, saved) =>
      if !AddrRejected(value) {
        WriteFollows(m.(addr := value % 0x8000), Addr, saved);
      }
    case ApKeyWritten(key, saved) => WriteFollows(m.(apKey := SwapSessionKey(key)), ApKey, saved);
    case RspKeyWritten(key, saved) => WriteFollows(m.(rspKey := SwapSessionKey(key)), RspKey, saved);
    case TimeWritten(saved) => WriteFollows(m, AbsTime, saved);
  }

  /** Every callback of a tag that has not misfired follows the diagram. */
  lemma FollowsDiagram(m: Machine, h: Happening)
    requires Settled(m) && Possible(m, h)
    ensures ViewOf(After(m, h)) == Diagram(ViewOf(m), h, Completes(m, h))
  {
    hide SwapSessionKey, Surviving, NoKey, WriteAddr, WriteApKey, WriteRspKey, WriteTime, Completes;
    match h
    case TimedOut(_) =>
    case UnassociatedBy(_) =>
    case ResetBy(_) =>
    case ConnectedTo =>
    case SyncBitCleared =>
    case Secured(_) => LinkFollows(m, h);
    case Disconnected(_) => LinkFollows(m, h);
    case Synced => LinkFollows(m, h);
    case SyncLost => LinkFollows(m, h);
    case UpdateCompleted => LinkFollows(m, h);
    case _ => ItemFollows(m, h);
  }

  lemma LinkFollows(m: Machine, h: Happening)
    requires Settled(m) && Possible(m, h)
    requires h.Secured? || h.Disconnected? || h.Synced? || h.SyncLost? || h.UpdateCompleted?
    ensures ViewOf(After(m, h)) == Diagram(ViewOf(m), h, Completes(m, h))
  {
    hide Unassociate, WriteAddr, WriteApKey, WriteRspKey, WriteTime;
    match h
    case Secured(ok) =>
    case Disconnected(reason) =>
    case Synced =>
    case SyncLost =>
    case UpdateCompleted =>
  }

  // ---------- items, keys and the store ----------

  /** A key as the tag keeps it: the first 16 bytes of what was written in reverse, the other 8 as they are. */
  predicate TurnedAround(kept: bytes, written: bytes) {
    && |kept| == |written| == 24
    && (forall k: nat | k < 16 :: kept[k] == written[15 - k])
    && (forall k: nat | 16 <= k < 24 :: kept[k] == written[k])
  }

  /** The item is set, and stored if the storage call succeeds; no other entry changes. */
  predicate Kept(m: Machine, n: Machine, item: Item, saved: bool, value: bytes) {
    n.bits == m.bits + {item} && n.store == if saved then m.store[item := value] else m.store
  }

  /** Nothing is left of what the access point wrote, but the entries that could not be deleted. */
  predicate Empty(m: Machine, n: Machine, undeleted: set<Item>) {
    && n.bits == {} && !n.complete && !n.subscribed && n.addr == 0x8000
    && |n.apKey| == |n.rspKey| == 24 && (forall k: nat | k < 24 :: n.apKey[k] == 0 && n.rspKey[k] == 0)
    && forall i :: (i in n.store <==> i in m.store && i in undeleted) && (i in n.store ==> n.store[i] == m.store[i])
  }

  predicate SameFlags(m: Machine, n: Machine) { n.complete == m.complete && n.subscribed == m.subscribed }

  /** What each write does to the items: the address loses its reserved bit, and is refused when its low byte is the
      broadcast ID; keys are turned around; of the time only the fact is stored. */
  lemma WritesAre(m: Machine, h: Happening)
    requires Possible(m, h)
    ensures var n := After(m, h);
            match h
            case AddrWritten(value, saved) =>
              if value % 0x100 == 0xFF then n == m
              else n.addr == value % 0x8000 && n.apKey == m.apKey && n.rspKey == m.rspKey && SameFlags(m, n)
                   && Kept(m, n, Addr, saved, [value % 0x100, value % 0x8000 / 0x100])
            case ApKeyWritten(key, saved) =>
              TurnedAround(n.apKey, key) && n.addr == m.addr && n.rspKey == m.rspKey && SameFlags(m, n)
              && Kept(m, n, ApKey, saved, n.apKey)
            case RspKeyWritten(key, saved) =>
              TurnedAround(n.rspKey, key) && n.addr == m.addr && n.apKey == m.apKey && SameFlags(m, n)
              && Kept(m, n, RspKey, saved, n.rspKey)
            case TimeWritten(saved) =>
              n.addr == m.addr && n.apKey == m.apKey && n.rspKey == m.rspKey && SameFlags(m, n)
              && Kept(m, n, AbsTime, saved, [1])
            case _ => true
  {
    hide Unassociate, SwapSessionKey, SetItem, AskConfiguring, Kept, SameFlags, TurnedAround, Stored, PutLe16;
    match h
    case AddrWritten(value, saved) =>
      OneWrite(m.(addr := value % 0x8000), Addr, saved);
      KeptBut(m, m.(addr := value % 0x8000), After(m, h), Addr, saved);
      AddrBytes(m.(addr := value % 0x8000));
    case ApKeyWritten(key, saved) =>
      OneWrite(m.(apKey := SwapSessionKey(key)), ApKey, saved);
      KeptBut(m, m.(apKey := SwapSessionKey(key)), After(m, h), ApKey, saved);
      Turned(key);
    case RspKeyWritten(key, saved) =>
      OneWrite(m.(rspKey := SwapSessionKey(key)), RspKey, saved);
      KeptBut(m, m.(rspKey := SwapSessionKey(key)), After(m, h), RspKey, saved);
      Turned(key);
    case TimeWritten(saved) => OneWrite(m, AbsTime, saved);
    case _ =>
  }

  lemma OneWrite(m: Machine, item: Item, saved: bool)
    ensures var n := AskConfiguring(SetItem(m, item, saved));
            && Kept(m, n, item, saved, Stored(m, item)) && SameFlags(m, n) && SameIdentity(m, n)
    ensures Stored(m, ApKey) == m.apKey && Stored(m, RspKey) == m.rspKey && Stored(m, AbsTime) == [1]
  {
    hide PutLe16;
  }

  lemma KeptBut(m: Machine, m': Machine, n: Machine, item: Item, saved: bool)
    requires m'.bits == m.bits && m'.store == m.store && m'.complete == m.complete && m'.subscribed == m.subscribed
    ensures forall value :: Kept(m', n, item, saved, value) == Kept(m, n, item, saved, value)
    ensures SameFlags(m', n) == SameFlags(m, n)
  {
  }

  lemma AddrBytes(m: Machine)
    ensures Stored(m, Addr) == [m.addr % 0x100, m.addr / 0x100]
  {
  }

  lemma Turned(key: bytes)
    requires |key| == EAD_KEY_MATERIAL_LEN
    ensures TurnedAround(SwapSessionKey(key), key)
  {
  }

  /** And what everything else does: only unassociating and an accepted reset touch the items, and then nothing is
      left; a connection clears update complete, the command sets it; a tag with all items that is told so, and does not
      return to its synchronization, subscribes to a new one. */
  lemma OthersAre(m: Machine, h: Happening)
    requires Settled(m) && Possible(m, h)
    requires !h.AddrWritten? && !h.ApKeyWritten? && !h.RspKeyWritten? && !h.TimeWritten?
    ensures var n := After(m, h);
            match h
            case UnassociatedBy(undeleted) => Empty(m, n, undeleted)
            case ResetBy(undeleted) => if m.phase == Synchronized then n == m else Empty(m, n, undeleted)
            case TimedOut(undeleted) =>
              if m.mode == UnassociatedTimeout then Empty(m, n, undeleted) else SameItems(m, n) && SameFlags(m, n)
            case ConnectedTo => n == m.(complete := false)
            case UpdateCompleted =>
              SameItems(m, n) && n.complete
              && (n.subscribed <==> m.subscribed || (m.phase != Unassociated && !(m.phase == Updating && m.synced)))
            case _ => SameItems(m, n) && SameFlags(m, n)
  {
    hide WriteAddr, WriteApKey, WriteRspKey, WriteTime, Unassociate, Empty;
    hide Secure, Disconnect, SyncEstablished, SyncTerminated, UpdateComplete, Settled;
    match h
    case UnassociatedBy(undeleted) => Emptied(m, undeleted);
    case ResetBy(undeleted) => Emptied(m, undeleted);
    case TimedOut(undeleted) => Emptied(m, undeleted);
    case UpdateCompleted =>
      LinkKeepsStore(m, h);
      Subscribes(m);
    case ConnectedTo =>
    case SyncBitCleared =>
    case _ =>
      LinkKeepsStore(m, h);
      LinkKeepsFlags(m, h);
  }

  lemma LinkKeepsFlags(m: Machine, h: Happening)
    requires Settled(m) && Possible(m, h) && (h.Secured? || h.Disconnected? || h.Synced? || h.SyncLost?)
    ensures SameFlags(m, After(m, h))
  {
    hide Unassociate, WriteAddr, WriteApKey, WriteRspKey, WriteTime;
  }

  lemma Subscribes(m: Machine)
    requires Settled(m)
    ensures var n := UpdateComplete(m);
            && n.complete
            && (n.subscribed <==> m.subscribed || (m.phase != Unassociated && !(m.phase == Updating && m.synced)))
  {
  }

  lemma Emptied(m: Machine, undeleted: set<Item>)
    ensures Empty(m, Unassociate(m, undeleted), undeleted)
    ensures Empty(m, Unassociate(m.(armed := false), undeleted), undeleted)
  {
  }

  // ---------- runs ----------

  lemma Onward(t: Tag, c: Config, ev: Event, rest: seq<Event>)
    requires Fitting(t.e, c) && Enabled(t, c, ev)
    ensures Fitting(Step(t, c, ev).e, c)
    ensures Legal(Step(t, c, ev), c, rest) ==>
              Legal(t, c, [ev] + rest) && Final(t, c, [ev] + rest) == Final(Step(t, c, ev), c, rest)
  {
    hide Step, Enabled, Fitting;
    StepKeepsSlots(t, c, ev);
    assert ([ev] + rest)[1..] == rest;
  }

  lemma TwoEvents(t: Tag, c: Config, a: Event, b: Event)
    requires Fitting(t.e, c) && Enabled(t, c, a) && Fitting(Step(t, c, a).e, c) && Enabled(Step(t, c, a), c, b)
    ensures Legal(t, c, [a, b]) && Final(t, c, [a, b]) == Step(Step(t, c, a), c, b)
  {
    hide Step, Enabled, Fitting;
    var n := Step(t, c, a);
    Onward(n, c, b, []);
    Onward(t, c, a, [b]);
    assert [b] + [] == [b] && [a] + [b] == [a, b];
  }

  /** One callback in a run. */
  lemma Called(t: Tag, c: Config, h: Happening)
    requires Fitting(t.e, c) && MachineOk(t.m) && OfLink(h) && Possible(t.m, h)
    ensures Enabled(t, c, Link(h)) && var n := Step(t, c, Link(h));
            && n == t.(m := n.m) && MachineOk(n.m) && ViewOf(n.m) == Diagram(ViewOf(t.m), h, Completes(t.m, h))
  {
    hide MachineOk, Diagram, ViewOf, After, Completes;
    MachineIsSettled(t.m);
    HappeningKeepsOk(t.m, h);
    FollowsDiagram(t.m, h);
  }

  lemma MachineIsSettled(m: Machine)
    requires MachineOk(m)
    ensures Settled(m)
  {
  }

  /** A command over the connection that completes the update. */
  lemma ToldComplete(t: Tag, c: Config, id: byte, w: World)
    requires Fitting(t.e, c) && MachineOk(t.m) && !t.busy && ReadingOk(w.reading)
    requires id == Low(t.m.addr) || id == ESL_ADDR_BROADCAST
    ensures Enabled(t, c, EcpWritten([0x04, id], w)) && var n := Step(t, c, EcpWritten([0x04, id], w));
            n.m == After(t.m, UpdateCompleted) && ViewOf(n.m) == Diagram(ViewOf(t.m), UpdateCompleted, false)
  {
    hide MachineOk, Diagram, ViewOf, Fitting, Command, UpdateComplete;
    MachineIsSettled(t.m);
    FollowsDiagram(t.m, UpdateCompleted);
    assert EcpLen(0x04) == 2;
    CommandOnMachine(t, c, [0x04, id], FromEcp, w);
  }

  /** An update of a synchronized tag: connected, secured and told that the update is complete, it is back in
      Synchronized, with its bit set, its items as they were and its timer running again. A tag that was not
      synchronized, or whose bit had been cleared, waits in Configured instead, subscribed and with no timer. */
  lemma UpdateReturns(t: Tag, c: Config, id: byte, w: World)
    requires Fitting(t.e, c) && MachineOk(t.m) && (t.m.phase == Synchronized || t.m.phase == Unsynchronized)
    requires !t.busy && ReadingOk(w.reading) && (id == Low(t.m.addr) || id == ESL_ADDR_BROADCAST)
    ensures var evs := [Link(ConnectedTo), Link(Secured(true)), EcpWritten([0x04, id], w)];
            && Legal(t, c, evs)
            && var n := Final(t, c, evs).m;
               && n.complete && SameItems(t.m, n)
               && if t.m.phase == Synchronized && t.m.synced
                  then n.phase == Synchronized && n.synced && n.armed && n.mode == UnsyncedTimeout
                  else n.phase == Configured && !n.synced && !n.armed && n.subscribed
  {
    hide Step, Legal, Final, Enabled, Fitting, MachineOk, After;
    var a, b, d := Link(ConnectedTo), Link(Secured(true)), EcpWritten([0x04, id], w);
    Called(t, c, ConnectedTo);
    var t1 := Step(t, c, a);
    Onward(t, c, a, [b, d]);
    Called(t1, c, Secured(true));
    var t2 := Step(t1, c, b);
    Onward(t1, c, b, [d]);
    LinkItems(t, c, ConnectedTo);
    LinkItems(t1, c, Secured(true));
    ToldComplete(t2, c, id, w);
    TwoEvents(t1, c, b, d);
    UpdatedItems(t2.m);
    Updatable(t.m);
    assert [a] + [b, d] == [a, b, d];
  }

  lemma LinkItems(t: Tag, c: Config, h: Happening)
    requires Fitting(t.e, c) && MachineOk(t.m) && OfLink(h) && Possible(t.m, h) && (h.ConnectedTo? || h.Secured?)
    ensures SameItems(t.m, Step(t, c, Link(h)).m) && Step(t, c, Link(h)).m.addr == t.m.addr
  {
    hide MachineOk, After;
    MachineIsSettled(t.m);
    OthersAre(t.m, h);
  }

  lemma UpdatedItems(m: Machine)
    requires MachineOk(m)
    ensures var n := After(m, UpdateCompleted);
            && SameItems(m, n) && n.complete
            && (m.phase == Updating && !m.synced ==> n.subscribed)
  {
    hide After;
    OthersAre(m, UpdateCompleted);
  }

  lemma Updatable(m: Machine)
    requires MachineOk(m) && (m.phase == Synchronized || m.phase == Unsynchronized)
    ensures m.phase == Unsynchronized ==> !m.synced
  {
  }

  /** Without packets a synchronized tag is lost in two steps, each with its own timer: unsynchronized first, and
      unassociated with nothing left when that timer ends as well. */
  lemma SilenceUnassociates(t: Tag, c: Config, first: set<Item>, second: set<Item>)
    requires Fitting(t.e, c) && MachineOk(t.m) && t.m.phase == Synchronized && TimersOk(t.m)
    ensures Enabled(t, c, StateTimedOut(first)) && Legal(t, c, [StateTimedOut(first), StateTimedOut(second)])
    ensures var lost := Step(t, c, StateTimedOut(first));
            && ViewOf(lost.m) == View(Unsynchronized, false, ToUnassociated) && SameItems(t.m, lost.m) && lost.e == t.e
    ensures var gone := Final(t, c, [StateTimedOut(first), StateTimedOut(second)]);
            && ViewOf(gone.m) == View(Unassociated, false, Stopped) && Empty(t.m, gone.m, second)
            && gone.e.displays == t.e.displays && |gone.e.leds| == |t.e.leds|
            && forall l | l in gone.e.leds :: l.start == 0 && !l.active && l.work.Idle?
  {
    hide Legal, Final, After, Fitting, MachineOk, Empty, Timeout;
    var a, b := StateTimedOut(first), StateTimedOut(second);
    Expires(t, c, first);
    var lost := Step(t, c, a);
    Onward(t, c, a, [b]);
    Expires(lost, c, second);
    TwoEvents(t, c, a, b);
    EmptiedToo(t.m, lost.m, Step(lost, c, b).m, second);
  }

  lemma Expires(t: Tag, c: Config, undeleted: set<Item>)
    requires Fitting(t.e, c) && MachineOk(t.m) && t.m.armed
    ensures var n := Step(t, c, StateTimedOut(undeleted));
            && MachineOk(n.m) && ViewOf(n.m) == Diagram(ViewOf(t.m), TimedOut(undeleted), false)
            && (t.m.mode == UnassociatedTimeout ==> Empty(t.m, n.m, undeleted))
            && (t.m.mode == UnsyncedTimeout ==> SameItems(t.m, n.m))
  {
    hide MachineOk, Diagram, ViewOf, Empty, Timeout, Fitting, ResetLeds;
    MachineIsSettled(t.m);
    FollowsDiagram(t.m, TimedOut(undeleted));
    HappeningKeepsOk(t.m, TimedOut(undeleted));
    OthersAre(t.m, TimedOut(undeleted));
  }

  lemma EmptiedToo(a: Machine, b: Machine, n: Machine, undeleted: set<Item>)
    requires SameItems(a, b) && Empty(b, n, undeleted)
    ensures Empty(a, n, undeleted)
  {
  }

  /** Synchronization found, lost and found again: the bit and the timer go with it every time. */
  lemma SyncComesAndGoes(t: Tag, c: Config)
    requires Fitting(t.e, c) && MachineOk(t.m) && t.m.subscribed && t.m.phase != Synchronized
    ensures Legal(t, c, [Link(Synced), Link(SyncLost)])
    ensures ViewOf(Step(t, c, Link(Synced)).m) == View(Synchronized, true, ToUnsynchronized)
    ensures ViewOf(Final(t, c, [Link(Synced), Link(SyncLost)]).m) == View(Unsynchronized, false, ToUnassociated)
    ensures Final(t, c, [Link(Synced), Link(SyncLost)]).m.subscribed
  {
    hide Step, Legal, Final, Fitting, MachineOk, After;
    var synced := Step(t, c, Link(Synced));
    Called(t, c, Synced);
    SyncKeeps(t, c, Synced);
    Onward(t, c, Link(Synced), []);
    Called(synced, c, SyncLost);
    SyncKeeps(synced, c, SyncLost);
    TwoEvents(t, c, Link(Synced), Link(SyncLost));
  }

  lemma SyncKeeps(t: Tag, c: Config, h: Happening)
    requires Fitting(t.e, c) && MachineOk(t.m) && (h.Synced? || h.SyncLost?) && t.m.subscribed
    ensures Step(t, c, Link(h)).m.subscribed
  {
    hide MachineOk, After;
    MachineIsSettled(t.m);
    OthersAre(t.m, h);
  }

  // ---------- configuring, in any order ----------

  /** The item that an accepted write sets. */
  function Written(h: Happening): set<Item> {
    match h
    case AddrWritten(value, _) => if AddrRejected(value) then {} else {Addr}
    case ApKeyWritten(_, _) => {ApKey}
    case RspKeyWritten(_, _) => {RspKey}
    case TimeWritten(_) => {AbsTime}
    case _ => {}
  }

  function AllWritten(hs: seq<Happening>): set<Item> {
    if hs == [] then {} else Written(hs[0]) + AllWritten(hs[1..])
  }

  predicate Writes(hs: seq<Happening>) {
    forall h | h in hs :: (h.AddrWritten? || h.TimeWritten? || h.ApKeyWritten? || h.RspKeyWritten?)
                          && (h.ApKeyWritten? || h.RspKeyWritten? ==> |h.key| == EAD_KEY_MATERIAL_LEN)
  }

  function AfterAll(m: Machine, hs: seq<Happening>): Machine
    requires Writes(hs)
    decreases |hs|
  {
    if hs == [] then m
    else
      assert hs[0] in hs && forall h | h in hs[1..] :: h in hs;
      AfterAll(After(m, hs[0]), hs[1..])
  }

  /** The four items can be written in any order and any number of times: the tag moves to Configuring with the write
      that completes them, and not before. */
  lemma {:induction false} AnyOrderConfigures(m: Machine, hs: seq<Happening>)
    requires Settled(m) && Writes(hs) && (m.phase == Unassociated || m.phase == Configuring)
    ensures var n := AfterAll(m, hs);
            n.bits == m.bits + AllWritten(hs) && n.phase == if n.bits == ALL_ITEMS then Configuring else Unassociated
    decreases |hs|
  {
    hide After, Settled, Written;
    if hs == [] {
      SettledBits(m);
    } else {
      var h := hs[0];
      assert h in hs && forall other | other in hs[1..] :: other in hs;
      WriteSettles(m, h);
      AnyOrderConfigures(After(m, h), hs[1..]);
    }
  }

  lemma SettledBits(m: Machine)
    requires Settled(m) && (m.phase == Unassociated || m.phase == Configuring)
    ensures m.phase == if m.bits == ALL_ITEMS then Configuring else Unassociated
  {
    AllItems(m.bits);
  }

  lemma WriteSettles(m: Machine, h: Happening)
    requires Settled(m) && Writes([h]) && (m.phase == Unassociated || m.phase == Configuring)
    requires h in [h]
    ensures var n := After(m, h);
            Settled(n) && n.bits == m.bits + Written(h) && (n.phase == Unassociated || n.phase == Configuring)
  {
    hide After, Settled, AddrRejected;
    HappeningSettles(m, h);
    WritesAre(m, h);
    FollowsDiagram(m, h);
    Rejected(m, h);
  }

  lemma Rejected(m: Machine, h: Happening)
    ensures h.AddrWritten? ==> (AddrRejected(h.value) <==> h.value % 0x100 == 0xFF)
  {
  }

  // ---------- packets ----------

  /** Any packet that decrypts starts the synchronization timer anew, also one that is then ignored, which changes
      nothing else. */
  lemma AnyPacketRenews(t: Tag, c: Config, ev: Event)
    requires Fitting(t.e, c) && Enabled(t, c, ev) && ev.PacketReceived?
    ensures var n := Step(t, c, ev);
            && n.m.armed && n.m.mode == UnsyncedTimeout
            && (!HeaderOk(t, ev.plain, ev.tail) ==> n == t.(m := t.m.(armed := true, mode := UnsyncedTimeout)))
  {
    hide Fitting, Walk;
  }

  // ---------- power-up ----------

  /** After a boot the tag looks for its synchronization, with the timer that gives up on it running, exactly when all
      four items are stored; otherwise nothing runs. */
  lemma BootView(store: map<Item, bytes>, order: seq<Item>)
    requires StoreSane(store) && forall item | item in store :: item in order
    ensures ViewOf(Boot(store, order)) ==
              if store.Keys == ALL_ITEMS then View(Unsynchronized, false, ToUnassociated)
              else View(Unassociated, false, Stopped)
  {
    var l := Load(Blank(store), order);
    LoadFinds(Blank(store), order);
    AllItems(l.bits);
    assert l.bits == store.Keys;
    hide Load;
  }
}
