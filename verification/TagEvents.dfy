/** Whole runs of a tag: every interleaving of connections, writes, synchronization, packets, timeouts,
    workers and power cuts, each callback one atomic step. */
module TagEvents {
  import opened Bytes
  import opened Tlv
  import opened Ead
  import opened TagMachine
  import opened Responses
  import opened Elements
  import opened TagRules
  import opened TagRun

  datatype Event =
    | Link(h: Happening)
    | ClockWritten(value: u32, u: nat, saved: bool)
    | StateTimedOut(undeleted: set<Item>)
    | NotificationSent(undeleted: set<Item>)
    | EcpWritten(cmd: bytes, w: World)
    | PacketReceived(plain: bytes, tail: bytes, w: World, readings: Readings)
    | LedDue(led: nat, u: nat)
    | DisplayDue(display: nat)
    | PowerCut(deleted: nat, order: seq<Item>, imageSizes: seq<nat>, service: bool)

  /** Callbacks that concern the state machine alone. */
  predicate OfLink(h: Happening) {
    h.ConnectedTo? || h.Secured? || h.Disconnected? || h.AddrWritten? || h.ApKeyWritten? || h.RspKeyWritten?
    || h.Synced? || h.SyncLost?
  }

  ghost predicate Enabled(t: Tag, c: Config, ev: Event) {
    match ev
    case Link(h) => OfLink(h) && Possible(t.m, h)
    case ClockWritten(_, _, _) => true
    case StateTimedOut(_) => t.m.armed
    case NotificationSent(_) => t.inFlight
    case EcpWritten(cmd, w) => |cmd| >= 2 && ReadingOk(w.reading)
    case PacketReceived(plain, tail, _, readings) =>
      t.m.phase == Synchronized && |plain| >= 2 && |tail| >= 17 && ReadingsOk(readings)
    case LedDue(i, _) => i < |t.e.leds| && t.e.leds[i].work.Due?
    case DisplayDue(i) => i < |t.e.displays| && t.e.displays[i].work.Due?
    case PowerCut(deleted, order, sizes, _) =>
      deleted <= 4 && |sizes| == c.imageMax && forall item | item in t.m.store :: item in order
  }

  /** Statically allocated, so all zero. */
  function BlankLed(): Led { Led(LedObj(0, [0, 0, 0, 0, 0], 0, 0, 0, 0), 0, 0, 0, 0, false, false, Idle) }

  function BlankDisplay(): Display { Display(0, 0, false, Idle) }

  /** bt_esl_init: the elements as woker_init leaves them, the machine as Boot does. */
  function Restarted(store: map<Item, bytes>, c: Config, order: seq<Item>, imageSizes: seq<nat>, service: bool): Tag
    requires c.imageMax <= 255
  {
    Tag(Boot(store, order),
        Elements(seq(c.ledMax, _ => BlankLed()), seq(c.displayMax, _ => ResetDisplay(BlankDisplay(), c)), 0,
                 false, false, false, imageSizes),
        service, false, BasicState, false, false, false, [], 0)
  }

  /** esl_pawr_sync_work_fn once the packet is decrypted: whatever it held, the timer is renewed. */
  function Received(t: Tag, c: Config, plain: bytes, tail: bytes, w: World, readings: Readings): Tag
    requires Fitting(t.e, c) && |plain| >= 2 && |tail| >= 17 && ReadingsOk(readings)
  {
    var r := Parse(t, c, plain, tail, w, readings).t;
    r.(m := RenewUnsynced(r.m))
  }

  function Step(t: Tag, c: Config, ev: Event): Tag
    requires Fitting(t.e, c) && Enabled(t, c, ev)
  {
    match ev
    case Link(h) => t.(m := After(t.m, h))
    case ClockWritten(value, u, saved) => t.(m := WriteTime(t.m, saved), e := t.e.(anchor := AnchorFor(value, u)))
    case StateTimedOut(undeleted) =>
      t.(m := Timeout(t.m, undeleted), e := if t.m.mode == UnassociatedTimeout then ResetLeds(t.e) else t.e)
    case NotificationSent(undeleted) => UnassociateTag(t.(inFlight := false), undeleted)
    case EcpWritten(cmd, w) => Command(t, c, cmd, FromEcp, w)
    case PacketReceived(plain, tail, w, readings) => Received(t, c, plain, tail, w, readings)
    case LedDue(i, u) =>
      t.(e := t.e.(leds := t.e.leds[i := LedWorker(t.e.leds[i], ClockAt(t.e.anchor, u), u).0]))
    case DisplayDue(i) => t.(e := t.e.(displays := t.e.displays[i := DisplayWorker(t.e.displays[i])]))
    case PowerCut(deleted, order, sizes, service) =>
      Restarted(Surviving(t.m.store, Undeleted(deleted)), c, order, sizes, service)
  }

  // ---------- LEDs, displays and timed slots ----------

  /** No event leaves a slot waiting with nothing scheduled. */
  lemma StepKeepsSlots(t: Tag, c: Config, ev: Event)
    requires Fitting(t.e, c) && Enabled(t, c, ev)
    ensures var n := Step(t, c, ev).e; Fitting(n, c) && (SlotsPending(t.e) ==> SlotsPending(n))
  {
    hide Command, Walk, Boot, LedWorker, After, Fitting, SlotsPending, WriteTime, ResetLeds, Parse, Restarted;
    match ev
    case Link(_) =>
    case ClockWritten(value, u, _) => ClockKeepsSlots(t.e, c, AnchorFor(value, u));
    case StateTimedOut(_) => ResetLedsKeeps(t.e, c);
    case NotificationSent(_) => ResetLedsKeeps(t.e, c);
    case EcpWritten(cmd, w) => CommandKeepsElements(t, c, cmd, FromEcp, w);
    case PacketReceived(plain, tail, w, readings) => ParseKeepsSlots(t, c, plain, tail, w, readings);
    case LedDue(i, u) => WorkersKeep(t.e, c, i, ClockAt(t.e.anchor, u), u);
    case DisplayDue(i) => WorkersKeep(t.e, c, i, 0, 0);
    case PowerCut(deleted, order, sizes, service) => RestartedFits(t, c, deleted, order, sizes, service);
  }

  lemma ClockKeepsSlots(e: Elements, c: Config, anchor: u32)
    requires Fitting(e, c)
    ensures Fitting(e.(anchor := anchor), c) && (SlotsPending(e) ==> SlotsPending(e.(anchor := anchor)))
  {
  }

  lemma RestartedFits(t: Tag, c: Config, deleted: nat, order: seq<Item>, sizes: seq<nat>, service: bool)
    requires Fitting(t.e, c) && deleted <= 4 && |sizes| == c.imageMax
    ensures var n := Restarted(Surviving(t.m.store, Undeleted(deleted)), c, order, sizes, service).e;
            Fitting(n, c) && SlotsPending(n)
  {
    hide Boot, Surviving;
  }

  lemma {:induction false} WalkKeepsSlots(s: Walked, c: Config, mem: bytes, n: nat, cur: nat, tlv: int, w: World,
                                          readings: Readings)
    requires Fitting(s.t.e, c) && |mem| >= n + 17 && ReadingsOk(readings)
    ensures var r := Walk(s, c, mem, n, cur, tlv, w, readings).t.e;
            Fitting(r, c) && (SlotsPending(s.t.e) ==> SlotsPending(r))
    decreases n - cur
  {
    hide Walk, WalkStep, Fitting, SlotsPending, CommandAt, ReadingsOk;
    WalkEnds(s, c, mem, n, cur, tlv, w, readings);
    if cur < n {
      WalkUnfolds(s, c, mem, n, cur, tlv, w, readings);
      WalkStepFits(s, c, mem, cur, tlv, w, readings);
      var cmd := CommandAt(mem, cur);
      if cur + |cmd| <= n {
        WalkKeepsSlots(WalkStep(s, c, mem, cur, tlv, w, readings), c, mem, n, cur + |cmd|, tlv + 1, w, readings);
      }
    }
  }

  lemma ParseKeepsSlots(t: Tag, c: Config, plain: bytes, tail: bytes, w: World, readings: Readings)
    requires Fitting(t.e, c) && |plain| >= 2 && |tail| >= 17 && ReadingsOk(readings)
    ensures var r := Parse(t, c, plain, tail, w, readings).t.e; Fitting(r, c) && (SlotsPending(t.e) ==> SlotsPending(r))
  {
    hide Walk, Fitting, SlotsPending, ReadingsOk;
    WalkKeepsSlots(Walked(t.(rsp := []), -1, []), c, plain[2..] + tail, |plain| - 2, 1, -1, w, readings);
  }

  // ---------- the state machine ----------

  /** The one kind of event after which the invariant fails: a packet for this group that completes an
      update and then resets the tag. The timer that is renewed after it runs on an unassociated tag. */
  ghost predicate Stranding(t: Tag, ev: Event) {
    && ev.PacketReceived? && |ev.plain| >= 2 && |ev.tail| >= 17
    && HeaderOk(t, ev.plain, ev.tail)
    && Strands(ev.plain[2..] + ev.tail, |ev.plain| - 2, 1, Low(t.m.addr), t.busy, false)
  }

  lemma ParseOnMachine(t: Tag, c: Config, plain: bytes, tail: bytes, w: World, readings: Readings)
    requires Fitting(t.e, c) && |plain| >= 2 && |tail| >= 17 && ReadingsOk(readings)
    requires MachineOk(t.m) && t.m.phase == Synchronized
    ensures var m := Parse(t, c, plain, tail, w, readings).t.m;
            && MachineOk(m)
            && (Provisioned(m) <==> !Stranding(t, PacketReceived(plain, tail, w, readings)))
            && (if Provisioned(m) then SameIdentity(m, t.m) else Forgotten(m))
  {
    hide Walk, Strands, Fitting, ReadingsOk;
    if HeaderOk(t, plain, tail) {
      WalkStrands(Walked(t.(rsp := []), -1, []), c, plain[2..] + tail, |plain| - 2, 1, -1, w, readings, false);
    }
  }

  lemma RenewedOkIff(m: Machine)
    requires MachineOk(m)
    ensures MachineOk(RenewUnsynced(m)) <==> Provisioned(m)
  {
  }

  /** Every event keeps the machine's invariant, except exactly the stranding packets. */
  lemma StepOkIff(t: Tag, c: Config, ev: Event)
    requires Fitting(t.e, c) && Enabled(t, c, ev) && MachineOk(t.m) && StoreSane(t.m.store)
    ensures MachineOk(Step(t, c, ev).m) <==> !Stranding(t, ev)
  {
    hide Command, Parse, Boot, LedWorker, After, Fitting, WriteTime, ResetLeds, Timeout, Unassociate, Strands;
    hide MachineOk, OnMachine, RenewUnsynced, StoreSane;
    match ev
    case Link(h) => HappeningKeepsOk(t.m, h);
    case ClockWritten(_, _, saved) => MachineryKeepsOk(t.m, TimeWritten(saved));
    case StateTimedOut(undeleted) => MachineryKeepsOk(t.m, TimedOut(undeleted));
    case NotificationSent(undeleted) => UnassociateIsOk(t.m, undeleted);
    case EcpWritten(cmd, w) =>
      CommandOnMachine(t, c, cmd, FromEcp, w);
      OnMachineKeepsOk(t.m, t.busy, cmd, w.undeleted);
    case PacketReceived(plain, tail, w, readings) =>
      ParseOnMachine(t, c, plain, tail, w, readings);
      RenewedOkIff(Parse(t, c, plain, tail, w, readings).t.m);
      assert Stranding(t, ev) <==> Stranding(t, PacketReceived(plain, tail, w, readings));
    case LedDue(_, _) =>
    case DisplayDue(_) =>
    case PowerCut(deleted, order, sizes, service) => CutIsOk(t.m.store, deleted, order);
  }

  lemma MachineryKeepsOk(m: Machine, h: Happening)
    requires MachineOk(m) && (h.TimeWritten? || (h.TimedOut? && m.armed))
    ensures h.TimeWritten? ==> MachineOk(WriteTime(m, h.saved))
    ensures h.TimedOut? ==> MachineOk(Timeout(m, h.undeleted))
  {
    hide MachineOk, Timeout, WriteTime;
    HappeningKeepsOk(m, h);
  }

  lemma CutIsOk(store: map<Item, bytes>, deleted: nat, order: seq<Item>)
    requires StoreSane(store) && deleted <= 4 && forall item | item in store :: item in order
    ensures var m := Boot(Surviving(store, Undeleted(deleted)), order);
            MachineOk(m) && StoreMatches(m) && StoreSane(m.store)
  {
    hide Boot, MachineOk, StoreMatches, Undeleted;
    BootLands(Surviving(store, Undeleted(deleted)), order);
  }

  // ---------- stored settings ----------

  /** Every storage call of the event succeeds. */
  predicate StoresWork(ev: Event) {
    match ev
    case Link(h) => StorageWorks(h)
    case ClockWritten(_, _, saved) => saved
    case StateTimedOut(undeleted) => undeleted == {}
    case NotificationSent(undeleted) => undeleted == {}
    case EcpWritten(_, w) => w.undeleted == {}
    case PacketReceived(_, _, w, _) => w.undeleted == {}
    case _ => true
  }

  /** What a step does to the store: entries stay sane in any case, and stay equal to memory while storage works. */
  ghost predicate StoreKept(a: Machine, b: Machine, works: bool) {
    (StoreSane(a.store) ==> StoreSane(b.store)) && (StoreMatches(a) && works ==> StoreMatches(b))
  }

  lemma {:induction false} StoreSaneAfter(m: Machine, h: Happening)
    requires StoreSane(m.store) && Possible(m, h)
    ensures StoreSane(After(m, h).store)
  {
    hide AskConfiguring, SwapSessionKey, Secure, Disconnect, SyncEstablished, SyncTerminated, UpdateComplete;
    match h
    case AddrWritten(value, saved) =>
      if !AddrRejected(value) { SetKeepsSane(m.(addr := value % 0x8000), Addr, saved); }
    case ApKeyWritten(key, saved) => SetKeepsSane(m.(apKey := SwapSessionKey(key)), ApKey, saved);
    case RspKeyWritten(key, saved) => SetKeepsSane(m.(rspKey := SwapSessionKey(key)), RspKey, saved);
    case TimeWritten(saved) => SetKeepsSane(m, AbsTime, saved);
    case ConnectedTo =>
    case TimedOut(undeleted) =>
    case UnassociatedBy(undeleted) =>
    case ResetBy(undeleted) =>
    case _ => LinkKeepsStore(m, h);
  }

  lemma SetKeepsSane(m: Machine, item: Item, saved: bool)
    requires StoreSane(m.store)
    requires item == Addr ==> Low(m.addr) != ESL_ADDR_BROADCAST
    requires item == ApKey ==> |m.apKey| == EAD_KEY_MATERIAL_LEN
    requires item == RspKey ==> |m.rspKey| == EAD_KEY_MATERIAL_LEN
    ensures StoreSane(AskConfiguring(SetItem(m, item, saved)).store)
  {
    var s := SetItem(m, item, saved);
    EnterKeepsItems(s, Configuring);
    hide AskConfiguring;
    match item
    case Addr => Le16RoundTrip(m.addr);
    case ApKey =>
    case RspKey =>
    case AbsTime =>
  }

  lemma HappeningStore(m: Machine, h: Happening)
    requires Possible(m, h)
    ensures StoreKept(m, After(m, h), StorageWorks(h))
  {
    hide After, StoreSane, StoreMatches;
    if StoreSane(m.store) { StoreSaneAfter(m, h); }
    if StoreMatches(m) && StorageWorks(h) { HappeningKeepsStore(m, h); }
  }

  lemma OnMachineStore(m: Machine, busy: bool, cmd: bytes, undeleted: set<Item>)
    requires |cmd| >= 2
    ensures StoreKept(m, OnMachine(m, busy, cmd, undeleted), undeleted == {})
  {
    hide StoreSane, StoreMatches, UpdateComplete, FactoryReset, Acts;
    HappeningStore(m, UpdateCompleted);
    HappeningStore(m, SyncBitCleared);
    HappeningStore(m, ResetBy(undeleted));
  }

  lemma {:induction false} WalkStore(s: Walked, c: Config, mem: bytes, n: nat, cur: nat, tlv: int, w: World,
                                     readings: Readings)
    requires Fitting(s.t.e, c) && |mem| >= n + 17 && ReadingsOk(readings)
    ensures StoreKept(s.t.m, Walk(s, c, mem, n, cur, tlv, w, readings).t.m, w.undeleted == {})
    decreases n - cur
  {
    hide Walk, WalkStep, Fitting, CommandAt, ReadingsOk, StoreSane, StoreMatches, OnMachine;
    WalkEnds(s, c, mem, n, cur, tlv, w, readings);
    if cur < n {
      WalkUnfolds(s, c, mem, n, cur, tlv, w, readings);
      WalkStepOnMachine(s, c, mem, cur, tlv, w, readings);
      var cmd := CommandAt(mem, cur);
      OnMachineStore(s.t.m, s.t.busy, cmd, w.undeleted);
      if cur + |cmd| <= n {
        WalkStore(WalkStep(s, c, mem, cur, tlv, w, readings), c, mem, n, cur + |cmd|, tlv + 1, w, readings);
      }
    }
  }

  /** After every event, also one that cuts the deletions short, memory and store agree. */
  lemma StepStore(t: Tag, c: Config, ev: Event)
    requires Fitting(t.e, c) && Enabled(t, c, ev)
    requires StoreSane(t.m.store)
    ensures StoreKept(t.m, Step(t, c, ev).m, StoresWork(ev))
  {
    hide Command, Walk, Boot, LedWorker, After, Fitting, WriteTime, ResetLeds, Timeout, Unassociate, OnMachine;
    hide StoreSane, StoreMatches, HeaderOk, Surviving, Undeleted, ReadingsOk;
    match ev
    case Link(h) => HappeningStore(t.m, h);
    case ClockWritten(_, _, saved) => TimedStore(t.m, TimeWritten(saved));
    case StateTimedOut(undeleted) => TimedStore(t.m, TimedOut(undeleted));
    case NotificationSent(undeleted) => TimedStore(t.m, UnassociatedBy(undeleted));
    case EcpWritten(cmd, w) =>
      CommandOnMachine(t, c, cmd, FromEcp, w);
      OnMachineStore(t.m, t.busy, cmd, w.undeleted);
    case PacketReceived(plain, tail, w, readings) =>
      WalkStore(Walked(t.(rsp := []), -1, []), c, plain[2..] + tail, |plain| - 2, 1, -1, w, readings);
      RenewKeepsItems(Parse(t, c, plain, tail, w, readings).t.m);
    case LedDue(_, _) =>
    case DisplayDue(_) =>
    case PowerCut(deleted, order, _, _) => CutIsOk(t.m.store, deleted, order);
  }

  lemma TimedStore(m: Machine, h: Happening)
    requires h.TimeWritten? || (h.TimedOut? && m.armed) || h.UnassociatedBy?
    ensures h.TimeWritten? ==> StoreKept(m, WriteTime(m, h.saved), h.saved)
    ensures h.TimedOut? ==> StoreKept(m, Timeout(m, h.undeleted), h.undeleted == {})
    ensures h.UnassociatedBy? ==> StoreKept(m, Unassociate(m, h.undeleted), h.undeleted == {})
  {
    hide StoreKept, WriteTime, Timeout, Unassociate;
    HappeningStore(m, h);
  }

  lemma RenewKeepsItems(m: Machine)
    ensures SameItems(m, RenewUnsynced(m)) && (StoreMatches(m) <==> StoreMatches(RenewUnsynced(m)))
  {
  }

  // ---------- the timer ----------

  /** A synchronized tag has its synchronization timer running, and an updating one has none. */
  ghost predicate TimersOk(m: Machine) {
    && (m.phase == Synchronized ==> m.armed && m.mode == UnsyncedTimeout)
    && (m.phase == Updating ==> !m.armed)
  }

  lemma HappeningKeepsTimers(m: Machine, h: Happening)
    requires TimersOk(m) && Possible(m, h)
    ensures TimersOk(After(m, h))
  {
    hide SwapSessionKey, Surviving, NoKey, SetItem, AskConfiguring, Low;
    match h
    case AddrWritten(value, saved) => ItemSetKeepsTimers(m.(addr := value % 0x8000), Addr, saved);
    case ApKeyWritten(key, saved) => ItemSetKeepsTimers(m.(apKey := SwapSessionKey(key)), ApKey, saved);
    case RspKeyWritten(key, saved) => ItemSetKeepsTimers(m.(rspKey := SwapSessionKey(key)), RspKey, saved);
    case TimeWritten(saved) => ItemSetKeepsTimers(m, AbsTime, saved);
    case TimedOut(_) =>
    case UnassociatedBy(_) =>
    case ResetBy(_) =>
    case ConnectedTo =>
    case SyncBitCleared =>
    case _ => LinkKeepsTimers(m, h);
  }

  lemma LinkKeepsTimers(m: Machine, h: Happening)
    requires TimersOk(m) && Possible(m, h)
    requires h.Secured? || h.Disconnected? || h.Synced? || h.SyncLost? || h.UpdateCompleted?
    ensures TimersOk(After(m, h))
  {
    hide Unassociate, WriteAddr, WriteApKey, WriteRspKey, WriteTime;
    match h
    case Secured(ok) =>
    case Disconnected(reason) =>
    case Synced =>
    case SyncLost =>
    case UpdateCompleted =>
  }

  lemma ItemSetKeepsTimers(m: Machine, item: Item, saved: bool)
    requires TimersOk(m)
    ensures TimersOk(AskConfiguring(SetItem(m, item, saved)))
  {
    hide Stored;
  }

  lemma OnMachineKeepsTimers(m: Machine, busy: bool, cmd: bytes, undeleted: set<Item>)
    requires |cmd| >= 2 && TimersOk(m)
    ensures var n := OnMachine(m, busy, cmd, undeleted); TimersOk(n) && (n.phase == Updating ==> m.phase == Updating)
  {
    hide TimersOk, Acts;
    HappeningKeepsTimers(m, UpdateCompleted);
    HappeningKeepsTimers(m, SyncBitCleared);
    HappeningKeepsTimers(m, ResetBy(undeleted));
  }

  lemma {:induction false} WalkKeepsTimers(s: Walked, c: Config, mem: bytes, n: nat, cur: nat, tlv: int, w: World,
                                           readings: Readings)
    requires Fitting(s.t.e, c) && |mem| >= n + 17 && ReadingsOk(readings)
    requires TimersOk(s.t.m) && s.t.m.phase != Updating
    ensures var m := Walk(s, c, mem, n, cur, tlv, w, readings).t.m; TimersOk(m) && m.phase != Updating
    decreases n - cur
  {
    hide Walk, WalkStep, Fitting, CommandAt, ReadingsOk, OnMachine, TimersOk;
    WalkEnds(s, c, mem, n, cur, tlv, w, readings);
    if cur < n {
      WalkUnfolds(s, c, mem, n, cur, tlv, w, readings);
      WalkStepOnMachine(s, c, mem, cur, tlv, w, readings);
      var cmd := CommandAt(mem, cur);
      OnMachineKeepsTimers(s.t.m, s.t.busy, cmd, w.undeleted);
      if cur + |cmd| <= n {
        WalkKeepsTimers(WalkStep(s, c, mem, cur, tlv, w, readings), c, mem, n, cur + |cmd|, tlv + 1, w, readings);
      }
    }
  }

  lemma StepKeepsTimers(t: Tag, c: Config, ev: Event)
    requires Fitting(t.e, c) && Enabled(t, c, ev) && TimersOk(t.m)
    ensures TimersOk(Step(t, c, ev).m)
  {
    hide Command, Walk, Load, LedWorker, After, Fitting, WriteTime, ResetLeds, OnMachine, HeaderOk, ReadingsOk;
    hide Surviving, Timeout;
    match ev
    case Link(h) => HappeningKeepsTimers(t.m, h);
    case ClockWritten(_, _, saved) => TimedKeepsTimers(t.m, TimeWritten(saved));
    case StateTimedOut(undeleted) => TimedKeepsTimers(t.m, TimedOut(undeleted));
    case NotificationSent(undeleted) =>
    case EcpWritten(cmd, w) =>
      CommandOnMachine(t, c, cmd, FromEcp, w);
      OnMachineKeepsTimers(t.m, t.busy, cmd, w.undeleted);
    case PacketReceived(plain, tail, w, readings) =>
      WalkKeepsTimers(Walked(t.(rsp := []), -1, []), c, plain[2..] + tail, |plain| - 2, 1, -1, w, readings);
    case LedDue(_, _) =>
    case DisplayDue(_) =>
    case PowerCut(deleted, order, _, _) => BootTimers(Surviving(t.m.store, Undeleted(deleted)), order);
  }

  lemma TimedKeepsTimers(m: Machine, h: Happening)
    requires TimersOk(m) && (h.TimeWritten? || (h.TimedOut? && m.armed))
    ensures h.TimeWritten? ==> TimersOk(WriteTime(m, h.saved))
    ensures h.TimedOut? ==> TimersOk(Timeout(m, h.undeleted))
  {
    hide TimersOk, Timeout, WriteTime;
    HappeningKeepsTimers(m, h);
  }

  lemma BootTimers(store: map<Item, bytes>, order: seq<Item>)
    ensures TimersOk(Boot(store, order))
  {
    LoadKeepsPhase(Blank(store), order);
    hide Load, NoKey;
  }

  lemma LoadItemKeepsPhase(m: Machine, item: Item)
    ensures LoadItem(m, item).phase == m.phase
  {
    hide GetLe16;
  }

  lemma {:induction false} LoadKeepsPhase(m: Machine, order: seq<Item>)
    ensures Load(m, order).phase == m.phase
  {
    hide LoadItem;
    if order != [] {
      LoadKeepsPhase(m, order[..|order| - 1]);
      LoadItemKeepsPhase(Load(m, order[..|order| - 1]), order[|order| - 1]);
    }
  }

  // ---------- runs ----------

  ghost predicate Legal(t: Tag, c: Config, evs: seq<Event>)
    requires Fitting(t.e, c)
    decreases |evs|
  {
    evs == [] || (Enabled(t, c, evs[0]) && (StepKeepsSlots(t, c, evs[0]); Legal(Step(t, c, evs[0]), c, evs[1..])))
  }

  ghost function Final(t: Tag, c: Config, evs: seq<Event>): Tag
    requires Fitting(t.e, c) && Legal(t, c, evs)
    decreases |evs|
  {
    if evs == [] then t else StepKeepsSlots(t, c, evs[0]); Final(Step(t, c, evs[0]), c, evs[1..])
  }

  /** No packet of the run strands the tag. */
  ghost predicate NoneStrands(t: Tag, c: Config, evs: seq<Event>)
    requires Fitting(t.e, c) && Legal(t, c, evs)
    decreases |evs|
  {
    evs == [] || (!Stranding(t, evs[0]) && (StepKeepsSlots(t, c, evs[0]); NoneStrands(Step(t, c, evs[0]), c, evs[1..])))
  }

  /** The machine's invariant holds in every state of the run. */
  ghost predicate AlwaysOk(t: Tag, c: Config, evs: seq<Event>)
    requires Fitting(t.e, c) && Legal(t, c, evs)
    decreases |evs|
  {
    MachineOk(t.m)
    && (evs == [] || (StepKeepsSlots(t, c, evs[0]); AlwaysOk(Step(t, c, evs[0]), c, evs[1..])))
  }

  /** Over every run whatever, no slot waits with nothing scheduled, and what is stored can be loaded. */
  lemma {:induction false} RunKeepsSlots(t: Tag, c: Config, evs: seq<Event>)
    requires Fitting(t.e, c) && Legal(t, c, evs) && SlotsPending(t.e) && StoreSane(t.m.store)
    ensures var f := Final(t, c, evs); Fitting(f.e, c) && SlotsPending(f.e) && StoreSane(f.m.store)
    decreases |evs|
  {
    hide Step, Enabled, StoreSane, StoreMatches, SlotsPending, Fitting;
    if evs != [] {
      StepKeepsSlots(t, c, evs[0]);
      StepStore(t, c, evs[0]);
      RunKeepsSlots(Step(t, c, evs[0]), c, evs[1..]);
    }
  }

  /** While storage works, the stored items are the set bits, with the bytes that are in memory. */
  lemma {:induction false} RunKeepsStore(t: Tag, c: Config, evs: seq<Event>)
    requires Fitting(t.e, c) && Legal(t, c, evs) && StoreSane(t.m.store) && StoreMatches(t.m)
    requires forall ev | ev in evs :: StoresWork(ev)
    ensures StoreMatches(Final(t, c, evs).m)
    decreases |evs|
  {
    hide Step, Enabled, StoreSane, StoreMatches, SlotsPending, Fitting, StoresWork;
    if evs != [] {
      StepKeepsSlots(t, c, evs[0]);
      StepStore(t, c, evs[0]);
      assert evs[0] in evs;
      RunKeepsStore(Step(t, c, evs[0]), c, evs[1..]);
    }
  }

  /** After any run, power lost with `deleted` of the four deletions done: the tag comes back unsynchronized
      when all four items were stored and none is deleted, and unassociated otherwise. */
  lemma PowerCutLands(t: Tag, c: Config, evs: seq<Event>, deleted: nat, order: seq<Item>, sizes: seq<nat>,
                      service: bool)
    requires Fitting(t.e, c) && Legal(t, c, evs) && SlotsPending(t.e) && StoreSane(t.m.store)
    requires Enabled(Final(t, c, evs), c, PowerCut(deleted, order, sizes, service))
    ensures Fitting(Final(t, c, evs).e, c)
    ensures var before := Final(t, c, evs).m;
            var after := Step(Final(t, c, evs), c, PowerCut(deleted, order, sizes, service)).m;
            && after.store.Keys == before.store.Keys * Undeleted(deleted)
            && after.phase == (if deleted == 0 && before.store.Keys == ALL_ITEMS then Unsynchronized else Unassociated)
            && StoreMatches(after) && MachineOk(after)
  {
    hide Legal, StoreMatches, MachineOk, SlotsPending, Undeleted;
    RunKeepsSlots(t, c, evs);
    var before := Final(t, c, evs).m;
    assert StoreSane(Surviving(before.store, Undeleted(deleted)));
    BootLands(Surviving(before.store, Undeleted(deleted)), order);
    FirstDeletionUnprovisions(before.store.Keys, deleted);
  }

  /** In every state of every run, stranding packets or not, a synchronized tag has its synchronization timer running:
      without packets it does not stay synchronized. */
  lemma {:induction false} RunKeepsTimers(t: Tag, c: Config, evs: seq<Event>)
    requires Fitting(t.e, c) && Legal(t, c, evs) && TimersOk(t.m)
    ensures TimersOk(Final(t, c, evs).m)
    decreases |evs|
  {
    hide Step, Enabled, Fitting, TimersOk;
    if evs != [] {
      StepKeepsSlots(t, c, evs[0]);
      StepKeepsTimers(t, c, evs[0]);
      RunKeepsTimers(Step(t, c, evs[0]), c, evs[1..]);
    }
  }

  /** MachineOk, which beyond the placement of the tag ties the synchronization timer to the four items, holds in
      every state of a run: if and only if no packet of the run strands the tag. A stranded tag is still well
      placed; what takes it out of its phase is the timer, for which see Placement.RunPlacedIff. */
  lemma {:induction false} RunOkIff(t: Tag, c: Config, evs: seq<Event>)
    requires Fitting(t.e, c) && Legal(t, c, evs) && MachineOk(t.m) && StoreSane(t.m.store)
    ensures AlwaysOk(t, c, evs) <==> NoneStrands(t, c, evs)
    decreases |evs|
  {
    hide Step, Enabled, StoreSane, StoreMatches, SlotsPending, Fitting, MachineOk, Stranding;
    if evs != [] {
      var n := Step(t, c, evs[0]);
      StepKeepsSlots(t, c, evs[0]);
      StepStore(t, c, evs[0]);
      StepOkIff(t, c, evs[0]);
      if MachineOk(n.m) {
        RunOkIff(n, c, evs[1..]);
      }
    }
  }

  /** Where every run begins. */
  lemma BootIsOk(store: map<Item, bytes>, c: Config, order: seq<Item>, sizes: seq<nat>, service: bool)
    requires StoreSane(store) && (forall item | item in store :: item in order)
    requires 1 <= c.imageMax <= 255 && |sizes| == c.imageMax
    ensures var t := Restarted(store, c, order, sizes, service);
            TagOk(t, c) && StoreSane(t.m.store) && StoreMatches(t.m) && TimersOk(t.m)
  {
    hide Boot, MachineOk, StoreMatches, TimersOk;
    BootTimers(store, order);
    BootLands(store, order);
  }

  // ---------- what a stranding packet does, and other surprises ----------

  /** Complete the update, then reset. */
  function StrandingPacket(addr: u16): (plain: bytes)
    ensures |plain| == 7
  {
    [6, BT_DATA_ESL, GroupId(addr), OP_UPDATE_COMPLETE, Low(addr), OP_FACTORY_RESET, Low(addr)]
  }

  /** There is a stranding packet for every address. */
  lemma StrandingExists(t: Tag, tail: bytes, w: World, readings: Readings)
    requires Low(t.m.addr) != ESL_ADDR_BROADCAST && !t.busy && |tail| >= 17
    ensures Stranding(t, PacketReceived(StrandingPacket(t.m.addr), tail, w, readings))
  {
    var plain := StrandingPacket(t.m.addr);
    var mem, id := plain[2..] + tail, Low(t.m.addr);
    assert mem[0] == GroupId(t.m.addr) && mem[1] == OP_UPDATE_COMPLETE && mem[2] == id;
    assert mem[3] == OP_FACTORY_RESET && mem[4] == id;
    assert Strands(mem, 5, 3, id, false, true);
    assert Strands(mem, 5, 1, id, false, false);
  }

  /** A stranded tag is unassociated with the synchronization timer running; when that fires, the tag goes to
      Unsynchronized without any of the four items. */
  lemma StrandedTimesOut(t: Tag, c: Config, ev: Event, undeleted: set<Item>)
    requires Fitting(t.e, c) && Enabled(t, c, ev) && MachineOk(t.m) && Stranding(t, ev)
    ensures var n := Step(t, c, ev);
            && n.m.phase == Unassociated && Fitting(n.e, c) && Enabled(n, c, StateTimedOut(undeleted))
            && var f := Step(n, c, StateTimedOut(undeleted)).m; f.phase == Unsynchronized && !Provisioned(f)
  {
    hide Parse, Fitting, Strands, HeaderOk;
    StepKeepsSlots(t, c, ev);
    ParseOnMachine(t, c, ev.plain, ev.tail, ev.w, ev.readings);
  }

  /** Losing the link during an update leaves the tag unsynchronized with no timer at all. */
  lemma LinkLossStopsTheClock(m: Machine)
    requires MachineOk(m) && (m.phase == Synchronized || m.phase == Unsynchronized)
    ensures var n := Disconnect(Secure(m, true), OtherReason); n.phase == Unsynchronized && !n.synced && !n.armed
  {
  }

  /** Link loss of a provisioned tag in any state starts no timer and stops none. */
  lemma LinkLossStartsNoTimer(m: Machine)
    requires MachineOk(m) && m.phase != Unassociated
    ensures var n := Disconnect(m, OtherReason); n.phase == Unsynchronized && n.armed == m.armed && n.mode == m.mode
  {
  }

  /** Unassociate over PAwR clears the synchronized bit and nothing else of the machine; no notification
      follows it, so the tag stays provisioned and in Synchronized. */
  lemma PawrUnassociateOnlyClearsTheBit(t: Tag, c: Config, w: World)
    requires Fitting(t.e, c) && ReadingOk(w.reading) && !t.busy && Low(t.m.addr) != ESL_ADDR_BROADCAST
    ensures var n := Command(t, c, [OP_UNASSOCIATE, Low(t.m.addr)], FromPawr, w);
            n.m == t.m.(synced := false) && n.inFlight == t.inFlight
  {
    hide Fitting, Low, Encode, Accumulate, RefreshBasic;
    assert EcpLen(OP_UNASSOCIATE) == 2;
  }
}
