/** The tag's state machine, its provisioning bits and its stored settings (esl.c, esl_settings.c), as
    functions from state to state. The class in module EslTag changes its fields to match. */
module TagMachine {
  import opened Bytes
  import opened Ead

  datatype Phase = Unassociated | Configuring | Configured | Synchronized | Updating | Unsynchronized

  datatype TimeoutMode = UnsyncedTimeout | UnassociatedTimeout

  /** Provisioned items: the four low bits of configuring_state, and the settings keys below "esl/". */
  datatype Item = Addr | ApKey | RspKey | AbsTime

  datatype Reason = LocalHostTerminated | AuthFailure | OtherReason

  const ALL_ITEMS: set<Item> := {Addr, ApKey, RspKey, AbsTime}
  const UNASSOCIATED_ADDR: u16 := 0x8000
  const ESL_ADDR_BROADCAST: byte := 0xFF

  function NoKey(): (k: bytes)
    ensures |k| == EAD_KEY_MATERIAL_LEN
  {
    seq(EAD_KEY_MATERIAL_LEN, _ => 0)
  }

  datatype Machine = Machine(
    phase: Phase,
    bits: set<Item>,          // configuring_state
    complete: bool,           // ESL_UPDATE_COMPLETE_SET_BIT
    synced: bool,             // ESL_SYNCHRONIZED of basic_state
    mode: TimeoutMode,
    armed: bool,              // esl_state_timeout_work is scheduled
    renew: bool,              // esl_sm_timeout_update_needed
    subscribed: bool,         // a sync transfer was subscribed to since boot or the last unassociate
    addr: u16,
    apKey: bytes,
    rspKey: bytes,
    store: map<Item, bytes>)

  function Provisioned(m: Machine): bool {
    Addr in m.bits && ApKey in m.bits && RspKey in m.bits && AbsTime in m.bits
  }

  // ---------- transitions and their entry actions ----------

  /** bt_esl_state_transition */
  function Enter(m: Machine, phase: Phase): Machine {
    match phase
    case Unassociated => m.(phase := Unassociated)
    case Configuring => m.(phase := Configuring)
    case Configured => m.(phase := Configured, subscribed := true)
    case Synchronized =>
      var s := m.(phase := Synchronized, synced := true);
      if m.renew then s.(mode := UnsyncedTimeout, armed := true) else s
    case Updating => m.(phase := Updating, armed := false)
    case Unsynchronized =>
      var s := m.(phase := Unsynchronized, synced := false);
      if m.renew then s.(mode := UnassociatedTimeout, armed := true) else s
  }

  /** esl_is_configuring_state: despite its name it moves the machine to Configuring */
  function AskConfiguring(m: Machine): Machine {
    if Provisioned(m) then Enter(m, Configuring) else m
  }

  // ---------- stored settings ----------

  function Stored(m: Machine, item: Item): bytes {
    match item
    case Addr => PutLe16(m.addr)
    case ApKey => m.apKey
    case RspKey => m.rspKey
    case AbsTime => [1]
  }

  /** The length esl_settings_set insists on. */
  function StoredLen(item: Item): nat {
    match item
    case Addr => 2
    case ApKey => EAD_KEY_MATERIAL_LEN
    case RspKey => EAD_KEY_MATERIAL_LEN
    case AbsTime => 1
  }

  /** Set the bit, then save, when provisioning data is kept and the storage call succeeds. */
  function SetItem(m: Machine, item: Item, saved: bool): Machine {
    var s := m.(bits := m.bits + {item});
    if saved then s.(store := s.store[item := Stored(s, item)]) else s
  }

  // ---------- characteristic writes ----------

  function AddrRejected(value: u16): bool { Low(value) == ESL_ADDR_BROADCAST }

  function WriteAddr(m: Machine, value: u16, saved: bool): Machine {
    if AddrRejected(value) then m
    else AskConfiguring(SetItem(m.(addr := value % 0x8000), Addr, saved))
  }

  function WriteApKey(m: Machine, key: bytes, saved: bool): Machine
    requires |key| == EAD_KEY_MATERIAL_LEN
  {
    AskConfiguring(SetItem(m.(apKey := SwapSessionKey(key)), ApKey, saved))
  }

  function WriteRspKey(m: Machine, key: bytes, saved: bool): Machine
    requires |key| == EAD_KEY_MATERIAL_LEN
  {
    AskConfiguring(SetItem(m.(rspKey := SwapSessionKey(key)), RspKey, saved))
  }

  function WriteTime(m: Machine, saved: bool): Machine {
    AskConfiguring(SetItem(m, AbsTime, saved))
  }

  // ---------- connection, synchronization, timeouts ----------

  function Connect(m: Machine): Machine { m.(complete := false) }

  function Secure(m: Machine, ok: bool): Machine {
    if ok && (m.phase == Unsynchronized || m.phase == Synchronized) then Enter(m, Updating) else m
  }

  function Disconnect(m: Machine, reason: Reason): Machine {
    if reason == LocalHostTerminated || (reason == AuthFailure && m.synced) then m
    else if Provisioned(m) then Enter(AskConfiguring(m).(renew := false), Unsynchronized)
    else if m.phase == Configuring || m.phase == Unassociated then Enter(m, Unassociated)
    else m
  }

  function SyncEstablished(m: Machine): Machine {
    if m.phase != Synchronized then Enter(m.(renew := true), Synchronized) else m
  }

  function SyncTerminated(m: Machine): Machine {
    Enter(m.(renew := true), Unsynchronized).(synced := false)
  }

  function UpdateComplete(m: Machine): Machine {
    var s := m.(complete := true);
    if s.phase == Updating && s.synced then Enter(s.(renew := true), Synchronized)
    else if Provisioned(s) then Enter(AskConfiguring(s), Configured)
    else s
  }

  function Surviving(store: map<Item, bytes>, undeleted: set<Item>): map<Item, bytes> {
    map item | item in store && item in undeleted :: store[item]
  }

  /** bt_esl_unassociate; `undeleted` are the settings whose deletion fails */
  function Unassociate(m: Machine, undeleted: set<Item>): Machine {
    Enter(m.(addr := UNASSOCIATED_ADDR, apKey := NoKey(), rspKey := NoKey(), mode := UnassociatedTimeout, renew := true,
             bits := {}, complete := false, subscribed := false,
             store := Surviving(m.store, undeleted)),
          Unassociated)
  }

  function FactoryReset(m: Machine, undeleted: set<Item>): Machine {
    if m.phase == Synchronized then m else Unassociate(m, undeleted)
  }

  function Timeout(m: Machine, undeleted: set<Item>): Machine {
    var s := m.(armed := false);
    match m.mode
    case UnsyncedTimeout => Enter(s.(renew := true), Unsynchronized)
    case UnassociatedTimeout => Unassociate(s, undeleted)
  }

  /** After any packet that decrypts, whatever it held */
  function RenewUnsynced(m: Machine): Machine { m.(mode := UnsyncedTimeout, armed := true) }

  // ---------- boot ----------

  predicate Loadable(store: map<Item, bytes>, item: Item) {
    item in store && |store[item]| == StoredLen(item)
  }

  function Blank(store: map<Item, bytes>): Machine {
    Machine(Unassociated, {}, false, false, UnassociatedTimeout, false, true, false,
            UNASSOCIATED_ADDR, NoKey(), NoKey(), store)
  }

  /** esl_settings_set for one stored entry */
  function LoadItem(m: Machine, item: Item): Machine {
    if !Loadable(m.store, item) then m
    else
      var s := m.(bits := m.bits + {item});
      match item
      case Addr => s.(addr := GetLe16(m.store[Addr]))
      case ApKey => s.(apKey := m.store[ApKey])
      case RspKey => s.(rspKey := m.store[RspKey])
      case AbsTime => s
  }

  function Load(m: Machine, order: seq<Item>): Machine {
    if order == [] then m else LoadItem(Load(m, order[..|order| - 1]), order[|order| - 1])
  }

  /** bt_esl_init, with the entries loaded in some order */
  function Boot(store: map<Item, bytes>, order: seq<Item>): Machine {
    var m := Load(Blank(store), order);
    if Provisioned(m) then Enter(AskConfiguring(m), Unsynchronized) else m
  }

  // ---------- invariants ----------

  /** The tag is in Unassociated exactly when an item is missing, and not marked synchronized in Unsynchronized. */
  ghost predicate WellPlaced(m: Machine) {
    (m.phase == Unassociated <==> !Provisioned(m)) && (m.phase == Unsynchronized ==> !m.synced)
  }

  /** That, and what else a tag has between two events even after a packet that strands it. */
  ghost predicate Settled(m: Machine) {
    && WellPlaced(m)
    && (m.subscribed ==> Provisioned(m))
    && |m.apKey| == |m.rspKey| == EAD_KEY_MATERIAL_LEN
    && Low(m.addr) != ESL_ADDR_BROADCAST
  }

  /** And the synchronization timer runs only on a tag with all four items. */
  ghost predicate MachineOk(m: Machine) {
    Settled(m) && (m.armed && m.mode == UnsyncedTimeout ==> Provisioned(m))
  }

  /** What is stored is what is set, with the bytes that are in memory. */
  ghost predicate StoreMatches(m: Machine) {
    && m.store.Keys == m.bits
    && forall item | item in m.store :: m.store[item] == Stored(m, item)
  }

  /** Everything that can happen to the machine alone, between two looks at it. */
  datatype Happening =
    | ConnectedTo
    | Secured(ok: bool)
    | Disconnected(reason: Reason)
    | AddrWritten(value: u16, saved: bool)
    | ApKeyWritten(key: bytes, saved: bool)
    | RspKeyWritten(key: bytes, saved: bool)
    | TimeWritten(saved: bool)
    | Synced
    | SyncLost
    | UpdateCompleted
    | TimedOut(undeleted: set<Item>)
    | UnassociatedBy(undeleted: set<Item>)
    | ResetBy(undeleted: set<Item>)
    | SyncBitCleared  // OP_UNASSOCIATE itself, before its notification is out

  /** Sync callbacks come only for a subscription made since the last unassociate; a timeout needs a
      scheduled work item; a key has the length of the characteristic. */
  predicate Possible(m: Machine, h: Happening) {
    match h
    case Synced => m.subscribed
    case SyncLost => m.subscribed
    case TimedOut(_) => m.armed
    case ApKeyWritten(key, _) => |key| == EAD_KEY_MATERIAL_LEN
    case RspKeyWritten(key, _) => |key| == EAD_KEY_MATERIAL_LEN
    case _ => true
  }

  function After(m: Machine, h: Happening): Machine
    requires Possible(m, h)
  {
    match h
    case ConnectedTo => Connect(m)
    case Secured(ok) => Secure(m, ok)
    case Disconnected(reason) => Disconnect(m, reason)
    case AddrWritten(value, saved) => WriteAddr(m, value, saved)
    case ApKeyWritten(key, saved) => WriteApKey(m, key, saved)
    case RspKeyWritten(key, saved) => WriteRspKey(m, key, saved)
    case TimeWritten(saved) => WriteTime(m, saved)
    case Synced => SyncEstablished(m)
    case SyncLost => SyncTerminated(m)
    case UpdateCompleted => UpdateComplete(m)
    case TimedOut(undeleted) => Timeout(m, undeleted)
    case UnassociatedBy(undeleted) => Unassociate(m, undeleted)
    case ResetBy(undeleted) => FactoryReset(m, undeleted)
    case SyncBitCleared => m.(synced := false)
  }

  lemma ItemSetKeepsOk(m: Machine, item: Item, saved: bool)
    requires MachineOk(m)
    ensures MachineOk(AskConfiguring(SetItem(m, item, saved)))
  {
    hide Stored;
  }

  lemma UnassociateIsOk(m: Machine, undeleted: set<Item>)
    ensures MachineOk(Unassociate(m, undeleted))
  {
    hide Surviving;
  }

  lemma LinkKeepsOk(m: Machine, h: Happening)
    requires MachineOk(m) && Possible(m, h)
    requires h.Secured? || h.Disconnected? || h.Synced? || h.SyncLost? || h.UpdateCompleted?
    ensures MachineOk(After(m, h))
  {
    hide Unassociate, WriteAddr, WriteApKey, WriteRspKey, WriteTime;
    match h
    case Secured(ok) =>
    case Disconnected(reason) =>
    case Synced =>
    case SyncLost =>
    case UpdateCompleted =>
  }

  lemma HappeningKeepsOk(m: Machine, h: Happening)
    requires MachineOk(m) && Possible(m, h)
    ensures MachineOk(After(m, h))
  {
    hide Unassociate, SetItem, AskConfiguring;
    match h
    case AddrWritten(value, saved) => ItemSetKeepsOk(m.(addr := if AddrRejected(value) then m.addr
                                                        else value % 0x8000), Addr, saved);
    case ApKeyWritten(key, saved) => ItemSetKeepsOk(m.(apKey := SwapSessionKey(key)), ApKey, saved);
    case RspKeyWritten(key, saved) => ItemSetKeepsOk(m.(rspKey := SwapSessionKey(key)), RspKey, saved);
    case TimeWritten(saved) => ItemSetKeepsOk(m, AbsTime, saved);
    case TimedOut(undeleted) => UnassociateIsOk(m.(armed := false), undeleted);
    case UnassociatedBy(undeleted) => UnassociateIsOk(m, undeleted);
    case ResetBy(undeleted) => UnassociateIsOk(m, undeleted);
    case ConnectedTo =>
    case SyncBitCleared =>
    case _ => LinkKeepsOk(m, h);
  }

  /** Every storage call that the step makes succeeds. */
  predicate StorageWorks(h: Happening) {
    match h
    case AddrWritten(_, saved) => saved
    case ApKeyWritten(_, saved) => saved
    case RspKeyWritten(_, saved) => saved
    case TimeWritten(saved) => saved
    case TimedOut(undeleted) => undeleted == {}
    case UnassociatedBy(undeleted) => undeleted == {}
    case ResetBy(undeleted) => undeleted == {}
    case _ => true
  }

  lemma ItemSetKeepsStore(m: Machine, m': Machine, item: Item)
    requires StoreMatches(m)
    requires m'.bits == m.bits && m'.store == m.store
    requires forall other | other != item :: Stored(m', other) == Stored(m, other)
    ensures StoreMatches(AskConfiguring(SetItem(m', item, true)))
  {
    var s := SetItem(m', item, true);
    EnterKeepsItems(s, Configuring);
    forall other | other in s.store ensures s.store[other] == Stored(s, other) {
      hide SetItem, AskConfiguring, SwapSessionKey;
      if other != item {
        assert Stored(s, other) == Stored(m', other);
      }
    }
  }

  predicate SameItems(m: Machine, n: Machine) {
    n.store == m.store && n.bits == m.bits && n.addr == m.addr && n.apKey == m.apKey && n.rspKey == m.rspKey
  }

  /** The state machine's own moves touch neither the items nor the store. */
  lemma EnterKeepsItems(m: Machine, phase: Phase)
    ensures SameItems(m, Enter(m, phase)) && SameItems(m, AskConfiguring(m))
  {
    match phase
    case Unassociated =>
    case Configuring =>
    case Configured =>
    case Synchronized =>
    case Updating =>
    case Unsynchronized =>
  }

  lemma LinkKeepsStore(m: Machine, h: Happening)
    requires Possible(m, h)
    requires h.Secured? || h.Disconnected? || h.Synced? || h.SyncLost? || h.UpdateCompleted? || h.SyncBitCleared?
    ensures SameItems(m, After(m, h))
  {
    hide Unassociate, WriteAddr, WriteApKey, WriteRspKey, WriteTime, Timeout, FactoryReset, Enter, AskConfiguring;
    match h
    case Secured(ok) => EnterKeepsItems(m, Updating);
    case Disconnected(reason) =>
      EnterKeepsItems(m, Unassociated);
      EnterKeepsItems(AskConfiguring(m).(renew := false), Unsynchronized);
    case Synced => EnterKeepsItems(m.(renew := true), Synchronized);
    case SyncLost => EnterKeepsItems(m.(renew := true), Unsynchronized);
    case UpdateCompleted =>
      var s := m.(complete := true);
      EnterKeepsItems(s.(renew := true), Synchronized);
      EnterKeepsItems(s, Configuring);
      EnterKeepsItems(AskConfiguring(s), Configured);
    case SyncBitCleared =>
  }

  lemma HappeningKeepsStore(m: Machine, h: Happening)
    requires StoreMatches(m) && Possible(m, h) && StorageWorks(h)
    ensures StoreMatches(After(m, h))
  {
    hide SetItem, AskConfiguring;
    match h
    case AddrWritten(value, saved) => ItemSetKeepsStore(m, m.(addr := value % 0x8000), Addr);
    case ApKeyWritten(key, saved) => ItemSetKeepsStore(m, m.(apKey := SwapSessionKey(key)), ApKey);
    case RspKeyWritten(key, saved) => ItemSetKeepsStore(m, m.(rspKey := SwapSessionKey(key)), RspKey);
    case TimeWritten(saved) => ItemSetKeepsStore(m, m, AbsTime);
    case TimedOut(undeleted) => assert Surviving(m.store, {}) == map[];
    case UnassociatedBy(undeleted) => assert Surviving(m.store, {}) == map[];
    case ResetBy(undeleted) => assert Surviving(m.store, {}) == map[];
    case ConnectedTo =>
    case _ => LinkKeepsStore(m, h);
  }

  // ---------- boot ----------

  /** A store whose entries are as they are saved, with no broadcast address. */
  ghost predicate StoreSane(store: map<Item, bytes>) {
    && (forall item | item in store :: |store[item]| == StoredLen(item))
    && (Addr in store ==> Low(GetLe16(store[Addr])) != ESL_ADDR_BROADCAST)
    && (AbsTime in store ==> store[AbsTime] == [1])
  }

  /** The items other than this one have the same bytes in memory. */
  predicate SameElsewhere(a: Machine, b: Machine, item: Item) {
    && (item != Addr ==> a.addr == b.addr)
    && (item != ApKey ==> a.apKey == b.apKey)
    && (item != RspKey ==> a.rspKey == b.rspKey)
  }

  lemma StoredElsewhere(a: Machine, b: Machine, item: Item)
    requires SameElsewhere(a, b, item)
    ensures forall other | other != item :: Stored(a, other) == Stored(b, other)
  {
    hide Stored;
    StoredIs(a);
    StoredIs(b);
    forall other | other != item ensures Stored(a, other) == Stored(b, other) {
      match other case Addr => case ApKey => case RspKey => case AbsTime =>
    }
  }

  lemma LoadOne(m: Machine, item: Item)
    requires StoreSane(m.store) && Low(m.addr) != ESL_ADDR_BROADCAST && |m.apKey| == |m.rspKey| == EAD_KEY_MATERIAL_LEN
    ensures var l := LoadItem(m, item);
            && l == m.(bits := l.bits, addr := l.addr, apKey := l.apKey, rspKey := l.rspKey)
            && l.bits == m.bits + (if item in m.store then {item} else {})
            && Low(l.addr) != ESL_ADDR_BROADCAST && |l.apKey| == |l.rspKey| == EAD_KEY_MATERIAL_LEN
            && (item in m.store ==> Stored(l, item) == m.store[item])
            && SameElsewhere(l, m, item)
  {
    hide PutLe16, GetLe16, Low;
    match item
    case Addr => if Addr in m.store { Put16(m.store[Addr]); }
    case ApKey =>
    case RspKey =>
    case AbsTime =>
  }

  lemma StoredIs(m: Machine)
    ensures Stored(m, Addr) == PutLe16(m.addr) && Stored(m, ApKey) == m.apKey
    ensures Stored(m, RspKey) == m.rspKey && Stored(m, AbsTime) == [1]
  {
  }

  lemma Put16(b: bytes)
    requires |b| == 2
    ensures PutLe16(GetLe16(b)) == b
  {
  }

  /** Loading finds every entry, in whatever order they come, and changes nothing else. */
  lemma {:induction false} LoadFinds(m: Machine, order: seq<Item>)
    requires StoreSane(m.store) && m.bits == {}
    requires Low(m.addr) != ESL_ADDR_BROADCAST && |m.apKey| == |m.rspKey| == EAD_KEY_MATERIAL_LEN
    ensures var l := Load(m, order);
            && l == m.(bits := l.bits, addr := l.addr, apKey := l.apKey, rspKey := l.rspKey)
            && (forall item :: item in l.bits <==> item in order && item in m.store)
            && Low(l.addr) != ESL_ADDR_BROADCAST && |l.apKey| == |l.rspKey| == EAD_KEY_MATERIAL_LEN
            && forall item | item in l.bits :: Stored(l, item) == m.store[item]
  {
    if order != [] {
      var before, last := order[..|order| - 1], order[|order| - 1];
      LoadFinds(m, before);
      LoadOne(Load(m, before), last);
      StoredElsewhere(LoadItem(Load(m, before), last), Load(m, before), last);
      hide LoadItem, Stored, StoreSane;
      assert order == before + [last];
    }
  }

  /** An entry of the right length. */
  predicate RightLength(store: map<Item, bytes>, item: Item) {
    item in store && |store[item]| == match item case Addr => 2 case ApKey => 24 case RspKey => 24 case AbsTime => 1
  }

  lemma LoadItemSkips(m: Machine, item: Item)
    ensures var l := LoadItem(m, item);
            && l == m.(bits := l.bits, addr := l.addr, apKey := l.apKey, rspKey := l.rspKey)
            && l.bits == m.bits + if RightLength(m.store, item) then {item} else {}
  {
    hide GetLe16;
    match item case Addr => case ApKey => case RspKey => case AbsTime =>
  }

  /** With any store at all, sane or not: exactly the entries of the right length set their items, and the rest of
      the machine is as it was. */
  lemma {:induction false} LoadSkipsBadLengths(m: Machine, order: seq<Item>)
    requires m.bits == {}
    ensures var l := Load(m, order);
            && l == m.(bits := l.bits, addr := l.addr, apKey := l.apKey, rspKey := l.rspKey)
            && forall item :: item in l.bits <==> item in order && RightLength(m.store, item)
  {
    hide LoadItem, RightLength;
    if order != [] {
      var before, last := order[..|order| - 1], order[|order| - 1];
      LoadSkipsBadLengths(m, before);
      LoadItemSkips(Load(m, before), last);
      assert order == before + [last];
    }
  }

  /** A boot lands in Unsynchronized when all four items are stored and in Unassociated otherwise; memory
      then holds what was stored, and the store is untouched. */
  lemma BootLands(store: map<Item, bytes>, order: seq<Item>)
    requires StoreSane(store) && forall item | item in store :: item in order
    ensures var m := Boot(store, order);
            && m.phase == (if store.Keys == ALL_ITEMS then Unsynchronized else Unassociated)
            && MachineOk(m) && StoreMatches(m) && m.store == store
  {
    var l := Load(Blank(store), order);
    LoadFinds(Blank(store), order);
    assert l.bits == store.Keys;
    assert Provisioned(l) <==> store.Keys == ALL_ITEMS by {
      AllItems(l.bits);
    }
    hide Load, LoadItem;
    assert StoreMatches(l);
  }

  lemma AllItems(bits: set<Item>)
    ensures bits == ALL_ITEMS <==> Addr in bits && ApKey in bits && RspKey in bits && AbsTime in bits
  {
    forall item | item in ALL_ITEMS ensures item == Addr || item == ApKey || item == RspKey || item == AbsTime {
    }
    if Addr in bits && ApKey in bits && RspKey in bits && AbsTime in bits {
      forall item ensures item in bits <==> item in ALL_ITEMS {
        match item case Addr => case ApKey => case RspKey => case AbsTime =>
      }
    }
  }

  lemma SavedIsSane(store: map<Item, bytes>, a: Machine, b: Machine)
    requires MachineOk(a) && MachineOk(b)
    requires forall i | i in store :: store[i] == Stored(a, i) || store[i] == Stored(b, i)
    ensures StoreSane(store)
  {
    forall i | i in store ensures |store[i]| == StoredLen(i) {
      match i case Addr => case ApKey => case RspKey => case AbsTime =>
    }
  }

  /** A save cut before or after the storage call: the next boot lands in Unsynchronized exactly when all
      four items are stored. */
  lemma CutSaveLands(m: Machine, m': Machine, item: Item, done: bool, order: seq<Item>)
    requires MachineOk(m) && StoreMatches(m) && MachineOk(m') && forall i | i in m.store || i == item :: i in order
    ensures var store := if done then m.store[item := Stored(m', item)] else m.store;
            && store.Keys == m.store.Keys + (if done then {item} else {})
            && Boot(store, order).phase == (if store.Keys == ALL_ITEMS then Unsynchronized else Unassociated)
            && StoreMatches(Boot(store, order))
  {
    var store := if done then m.store[item := Stored(m', item)] else m.store;
    SavedIsSane(store, m, m');
    BootLands(store, order);
  }

  const DELETE_ORDER: seq<Item> := [Addr, ApKey, RspKey, AbsTime]

  function Undeleted(deleted: nat): set<Item>
    requires deleted <= 4
  {
    set i | i in DELETE_ORDER[deleted..]
  }

  /** What is left after each of them: the address goes first, then the two keys, and the time last. */
  lemma UndeletedIs()
    ensures Undeleted(0) == ALL_ITEMS && Undeleted(1) == {ApKey, RspKey, AbsTime}
    ensures Undeleted(2) == {RspKey, AbsTime} && Undeleted(3) == {AbsTime} && Undeleted(4) == {}
  {
    assert DELETE_ORDER[0..] == [Addr, ApKey, RspKey, AbsTime] && DELETE_ORDER[1..] == [ApKey, RspKey, AbsTime];
    assert DELETE_ORDER[2..] == [RspKey, AbsTime] && DELETE_ORDER[3..] == [AbsTime] && DELETE_ORDER[4..] == [];
  }

  /** The settings that esl_settings_delete_provisioned_data has not deleted after `deleted` of its steps: as
      soon as one is gone, not all four are left. */
  lemma FirstDeletionUnprovisions(keys: set<Item>, deleted: nat)
    requires deleted <= 4
    ensures keys * Undeleted(deleted) == ALL_ITEMS <==> deleted == 0 && keys == ALL_ITEMS
  {
    AllItems(keys);
    AllItems(keys * Undeleted(deleted));
    if deleted == 0 {
      assert DELETE_ORDER[0..] == DELETE_ORDER;
      assert DELETE_ORDER[0] == Addr && DELETE_ORDER[1] == ApKey && DELETE_ORDER[2] == RspKey && DELETE_ORDER[3] ==
             AbsTime;
    } else {
      assert Addr !in Undeleted(deleted);
    }
  }
}
