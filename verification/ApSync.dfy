/** The access point's sync buffers (esl_client.c): one per group, filled by a push, handed to the controller
    on request, answered by responses, emptied by a dump. */
module ApSync {
  import opened Bytes
  import opened Ead
  import opened Modular

  datatype Status = Empty | ReadyToPush | Pushed | RespFull

  datatype RspBuf = RspBuf(key: bytes, data: bytes, len: nat, slot: nat, status: Status)

  datatype SyncBuf = SyncBuf(data: bytes, status: Status, rsp: seq<RspBuf>)

  /** What the controller is given for one subevent. */
  datatype Handed = Handed(group: nat, data: bytes)

  const EBUSY: int := -16

  // ---------- which groups a request takes ----------

  /** The i-th group that a request visits. */
  function Visited(start: nat, i: nat, groups: nat): (g: nat)
    requires groups > 0
    ensures g < groups
  {
    (start + i) % groups
  }

  /** How far behind the start of the request a group is. */
  function Distance(start: nat, g: nat, groups: nat): (d: nat)
    requires groups > 0
    ensures d < groups
  {
    (g - start) % groups
  }

  /** The groups taken while the first `count` are visited, in visiting order; each one only the first time. */
  function Picks(bufs: seq<SyncBuf>, start: nat, count: nat): (p: seq<nat>)
    requires bufs != []
    ensures forall g | g in p :: g < |bufs|
  {
    if count == 0 then []
    else
      var before, g := Picks(bufs, start, count - 1), Visited(start, count - 1, |bufs|);
      if bufs[g].status == ReadyToPush && g !in before then before + [g] else before
  }

  /** A request takes exactly the ready groups of its window, which wraps around. */
  lemma {:induction false} PicksAre(bufs: seq<SyncBuf>, start: nat, count: nat, g: nat)
    requires bufs != [] && g < |bufs|
    ensures g in Picks(bufs, start, count) <==> bufs[g].status == ReadyToPush && Distance(start, g, |bufs|) < count
  {
    if count > 0 {
      var n := |bufs|;
      PicksAre(bufs, start, count - 1, g);
      DistanceOfVisited(start, count - 1, n);
      VisitedAtDistance(start, g, n);
      if count - 1 < n { SmallMod(count - 1, n); }
      hide Distance, Visited;
      var before := Picks(bufs, start, count - 1);
      assert forall v :: g in before + [v] <==> g in before || g == v;
    }
  }

  predicate InOrder(p: seq<nat>, start: nat, groups: nat)
    requires groups > 0
  {
    forall a, b | 0 <= a < b < |p| :: Distance(start, p[a], groups) < Distance(start, p[b], groups)
  }

  /** Each group is taken once, and in the order of the distances from the start. */
  lemma {:induction false} PicksInOrder(bufs: seq<SyncBuf>, start: nat, count: nat)
    requires bufs != []
    ensures InOrder(Picks(bufs, start, count), start, |bufs|)
  {
    hide Distance, Visited;
    if count > 0 {
      var n, g := |bufs|, Visited(start, count - 1, |bufs|);
      var before := Picks(bufs, start, count - 1);
      PicksInOrder(bufs, start, count - 1);
      PicksAre(bufs, start, count - 1, g);
      forall a | 0 <= a < |before| ensures Distance(start, before[a], n) < count - 1 {
        assert before[a] in before;
        PicksAre(bufs, start, count - 1, before[a]);
      }
    }
  }

  lemma DistanceOfVisited(start: nat, i: nat, n: nat)
    requires n > 0
    ensures Distance(start, Visited(start, i, n), n) == i % n
  {
    var v := (start + i) % n;
    assert v - start == i + (-((start + i) / n)) * n by {
      assert start + i == (start + i) / n * n + v;
    }
    ModShift(i, -((start + i) / n), n);
  }

  lemma VisitedAtDistance(start: nat, g: nat, n: nat)
    requires n > 0 && g < n
    ensures Visited(start, Distance(start, g, n), n) == g
  {
    var d := (g - start) % n;
    assert start + d == g + (-((g - start) / n)) * n by {
      assert g - start == (g - start) / n * n + d;
    }
    ModShift(g, -((g - start) / n), n);
    assert g % n == g by { SmallMod(g, n); }
  }

  // ---------- the operations, on values ----------

  function MarkPushed(bufs: seq<SyncBuf>, groups: seq<nat>): (r: seq<SyncBuf>)
    ensures |r| == |bufs|
  {
    seq(|bufs|, i requires 0 <= i < |bufs| => if i in groups then bufs[i].(status := Pushed) else bufs[i])
  }

  function Batch(bufs: seq<SyncBuf>, groups: seq<nat>): seq<Handed>
    requires forall g | g in groups :: g < |bufs|
  {
    seq(|groups|, i requires 0 <= i < |groups| => assert groups[i] in groups; Handed(groups[i], bufs[groups[i]].data))
  }

  predicate Accepts(b: SyncBuf) { b.status == Empty || b.status == Pushed }

  /** A response as pawr_response stores it and the worker then checks and opens it. */
  function Answered(b: SyncBuf, x: Cipher, slot: nat, air: bytes): (n: SyncBuf)
    requires slot < |b.rsp| && AD_HEADER_LEN <= |air| <= |b.rsp[slot].data|
    ensures |n.rsp| == |b.rsp|
  {
    var r := b.rsp[slot].(data := air + b.rsp[slot].data[|air|..], len := |air|, slot := slot);
    var filed :=
      if |air| - 1 != air[0] || air[1] != BT_DATA_ENCRYPTED_AD_DATA then r
      else
        match x.open(r.key, air[AD_HEADER_LEN..])
        case None => r.(status := RespFull)
        case Some(plain) =>
          if |plain| <= |air| then r.(status := RespFull, data := plain + r.data[|plain|..], len := |plain|)
          else r.(status := RespFull);
    b.(status := RespFull, rsp := b.rsp[slot := filed])
  }

  function Dumped(b: SyncBuf): SyncBuf {
    b.(status := Empty,
       rsp := seq(|b.rsp|, i requires 0 <= i < |b.rsp| =>
                    if b.rsp[i].len != 0 then b.rsp[i].(len := 0, status := Empty) else b.rsp[i]))
  }

  /** A composed response frame, sealed with the key on file for the slot, is recovered to the last byte behind
      its two-byte header. */
  lemma ResponseRecovered(b: SyncBuf, x: Cipher, slot: nat, randomizer: bytes, payload: bytes)
    requires Sound(x) && |payload| <= ESL_SYNC_PKT_PAYLOAD_MAX_LEN
    requires slot < |b.rsp| && |b.rsp[slot].data| == ESL_ENCRYPTED_DATA_MAX_LEN
    ensures var air := Frame(x, b.rsp[slot].key, randomizer, payload);
            && AD_HEADER_LEN <= |air| <= ESL_ENCRYPTED_DATA_MAX_LEN
            && var n := Answered(b, x, slot, air);
               && n.status == RespFull && n.rsp[slot].status == RespFull && n.rsp[slot].slot == slot
               && n.rsp[slot].len == |payload| + 2 && n.rsp[slot].data[..n.rsp[slot].len] == Plain(payload)
               && |n.rsp[slot].data| == ESL_ENCRYPTED_DATA_MAX_LEN
               && n.data == b.data && forall j: nat | j < |b.rsp| && j != slot :: n.rsp[j] == b.rsp[j]
  {
    FrameOpens(x, b.rsp[slot].key, randomizer, payload);
    hide Sound, Frame;
  }

  // ---------- the ledger ----------

  datatype Entry = Accepted(group: nat, frame: bytes) | HandedOver(group: nat, frame: bytes)

  /** The buffers, and everything accepted and handed over so far. */
  datatype Ap = Ap(bufs: seq<SyncBuf>, log: seq<Entry>)

  datatype Action =
    | Push(group: nat, frame: bytes)
    | Request(start: byte, count: byte, ok: bool)
    | Response(group: nat, slot: nat, air: bytes)
    | Dump(group: nat)

  predicate Fits(a: Ap, act: Action) {
    match act
    case Push(g, _) => g < |a.bufs|
    case Request(_, _, _) => a.bufs != []
    case Response(g, slot, air) =>
      g < |a.bufs| && slot < |a.bufs[g].rsp| && AD_HEADER_LEN <= |air| <= |a.bufs[g].rsp[slot].data|
    case Dump(g) => g < |a.bufs|
  }

  function Do(x: Cipher, a: Ap, act: Action): Ap
    requires Fits(a, act)
  {
    match act
    case Push(g, frame) =>
      if Accepts(a.bufs[g]) then
        Ap(a.bufs[g := a.bufs[g].(status := ReadyToPush, data := frame)], a.log + [Accepted(g, frame)])
      else a
    case Request(start, count, ok) =>
      var p := Picks(a.bufs, start, count);
      if ok then Ap(MarkPushed(a.bufs, p), a.log + Logged(Batch(a.bufs, p))) else a
    case Response(g, slot, air) => a.(bufs := a.bufs[g := Answered(a.bufs[g], x, slot, air)])
    case Dump(g) => a.(bufs := a.bufs[g := Dumped(a.bufs[g])])
  }

  function Logged(batch: seq<Handed>): seq<Entry> {
    seq(|batch|, i requires 0 <= i < |batch| => HandedOver(batch[i].group, batch[i].data))
  }

  function AcceptedFor(log: seq<Entry>, g: nat): seq<bytes> {
    if log == [] then []
    else
      var e := log[|log| - 1];
      AcceptedFor(log[..|log| - 1], g) + if e.Accepted? && e.group == g then [e.frame] else []
  }

  function HandedFor(log: seq<Entry>, g: nat): seq<bytes> {
    if log == [] then []
    else
      var e := log[|log| - 1];
      HandedFor(log[..|log| - 1], g) + if e.HandedOver? && e.group == g then [e.frame] else []
  }

  /** h is what is left of a when some elements are dropped: every element of h is a different element of a,
      in the same order. */
  predicate Among<T(==)>(h: seq<T>, a: seq<T>) {
    h == []
    || (a != [] && ((h[|h| - 1] == a[|a| - 1] && Among(h[..|h| - 1], a[..|a| - 1])) || Among(h, a[..|a| - 1])))
  }

  /** What was handed over is among what was accepted; when ready, the buffer holds the frame accepted last, which
      is not handed over yet. */
  ghost predicate Account(acc: seq<bytes>, han: seq<bytes>, ready: bool, data: bytes) {
    && Among(han, acc)
    && (ready ==> acc != [] && acc[|acc| - 1] == data && Among(han, acc[..|acc| - 1]))
  }

  ghost predicate Balanced(a: Ap, g: nat) {
    g < |a.bufs|
    && Account(AcceptedFor(a.log, g), HandedFor(a.log, g), a.bufs[g].status == ReadyToPush, a.bufs[g].data)
  }

  lemma LogOne(log: seq<Entry>, e: Entry, g: nat)
    ensures AcceptedFor(log + [e], g) == AcceptedFor(log, g) + if e.Accepted? && e.group == g then [e.frame] else []
    ensures HandedFor(log + [e], g) == HandedFor(log, g) + if e.HandedOver? && e.group == g then [e.frame] else []
  {
    assert (log + [e])[..|log|] == log;
  }

  lemma AmongGrows<T>(h: seq<T>, a: seq<T>, x: T)
    requires Among(h, a)
    ensures Among(h, a + [x]) && Among(h + [x], a + [x])
  {
    assert (a + [x])[..|a|] == a && (h + [x])[..|h|] == h;
  }

  /** An account sees a frame accepted. */
  lemma AccountAccepts(acc: seq<bytes>, han: seq<bytes>, ready: bool, data: bytes, frame: bytes)
    requires Account(acc, han, ready, data)
    ensures Account(acc + [frame], han, true, frame)
  {
    hide Among;
    AmongGrows(han, acc, frame);
    assert (acc + [frame])[..|acc|] == acc;
  }

  /** Or the ready one handed over. */
  lemma AccountHands(acc: seq<bytes>, han: seq<bytes>, data: bytes, other: bytes)
    requires Account(acc, han, true, data)
    ensures Account(acc, han + [data], false, other)
  {
    hide Among;
    AmongGrows(han, acc[..|acc| - 1], data);
    assert acc[..|acc| - 1] + [data] == acc;
  }

  /** Or the ready one dropped. */
  lemma AccountDrops(acc: seq<bytes>, han: seq<bytes>, ready: bool, data: bytes, other: bytes)
    requires Account(acc, han, ready, data)
    ensures Account(acc, han, false, other)
  {
  }

  /** Logging a batch of different groups hands each group's frame over once, and accepts nothing. */
  lemma {:induction false} LogBatch(log: seq<Entry>, batch: seq<Handed>, g: nat)
    requires forall i, j | 0 <= i < j < |batch| :: batch[i].group != batch[j].group
    ensures AcceptedFor(log + Logged(batch), g) == AcceptedFor(log, g)
    ensures (forall h | h in batch :: h.group != g) ==> HandedFor(log + Logged(batch), g) == HandedFor(log, g)
    ensures forall h | h in batch && h.group == g :: HandedFor(log + Logged(batch), g) == HandedFor(log, g) + [h.data]
  {
    if batch == [] {
      assert log + Logged(batch) == log;
    } else {
      var before, last := batch[..|batch| - 1], batch[|batch| - 1];
      LogBatch(log, before, g);
      assert log + Logged(batch) == (log + Logged(before)) + [HandedOver(last.group, last.data)];
      LogOne(log + Logged(before), HandedOver(last.group, last.data), g);
      forall h | h in batch ensures h in before || h == last {
      }
      if last.group == g {
        assert forall h | h in before :: h.group != g;
      }
    }
  }

  // ---------- every run ----------

  lemma {:induction false} BatchFor(bufs: seq<SyncBuf>, start: nat, count: nat, log: seq<Entry>, g: nat)
    requires bufs != [] && g < |bufs|
    ensures var (p, n) := (Picks(bufs, start, count), log + Logged(Batch(bufs, Picks(bufs, start, count))));
            && AcceptedFor(n, g) == AcceptedFor(log, g)
            && HandedFor(n, g) == HandedFor(log, g) + if g in p then [bufs[g].data] else []
  {
    hide Distance, Visited, Picks, AcceptedFor, HandedFor, Logged;
    var p := Picks(bufs, start, count);
    PicksInOrder(bufs, start, count);
    var batch := Batch(bufs, p);
    forall i, j | 0 <= i < j < |batch| ensures batch[i].group != batch[j].group {
      assert Distance(start, p[i], |bufs|) < Distance(start, p[j], |bufs|);
    }
    LogBatch(log, batch, g);
    if g in p {
      var i :| 0 <= i < |p| && p[i] == g;
      assert batch[i] in batch;
    }
  }

  /** Every action keeps every group's account. */
  lemma {:induction false} DoKeepsBalance(x: Cipher, a: Ap, act: Action, g: nat)
    requires Fits(a, act) && Balanced(a, g)
    ensures Balanced(Do(x, a, act), g)
  {
    hide Picks, Batch, Logged, Account, AcceptedFor, HandedFor, Distance, Answered;
    var acc, han, old_ := AcceptedFor(a.log, g), HandedFor(a.log, g), a.bufs[g];
    AccountDrops(acc, han, old_.status == ReadyToPush, old_.data, old_.data);
    assert acc + [] == acc && han + [] == han;
    match act
    case Push(q, frame) =>
      LogOne(a.log, Accepted(q, frame), g);
      AccountAccepts(acc, han, old_.status == ReadyToPush, old_.data, frame);
    case Request(start, count, ok) =>
      BatchFor(a.bufs, start, count, a.log, g);
      PicksAre(a.bufs, start, count, g);
      if old_.status == ReadyToPush {
        AccountHands(acc, han, old_.data, old_.data);
      }
    case Response(q, slot, air) => AnsweredIsFull(a.bufs[q], x, slot, air);
    case Dump(q) =>
  }

  predicate Runs(x: Cipher, a: Ap, acts: seq<Action>)
    decreases |acts|
  {
    acts == [] || (Fits(a, acts[0]) && Runs(x, Do(x, a, acts[0]), acts[1..]))
  }

  function After(x: Cipher, a: Ap, acts: seq<Action>): Ap
    requires Runs(x, a, acts)
    decreases |acts|
  {
    if acts == [] then a else After(x, Do(x, a, acts[0]), acts[1..])
  }

  /** Every run keeps every group's account. */
  lemma {:induction false} RunKeepsBalance(x: Cipher, a: Ap, acts: seq<Action>, g: nat)
    requires Runs(x, a, acts) && Balanced(a, g)
    ensures Balanced(After(x, a, acts), g)
    decreases |acts|
  {
    hide Balanced, Do, Fits;
    if acts != [] {
      DoKeepsBalance(x, a, acts[0], g);
      RunKeepsBalance(x, Do(x, a, acts[0]), acts[1..], g);
    }
  }

  /** At most once: over every run from empty buffers, the frames that the controller was given for a group are
      among those accepted for it, byte for byte and in order, none of them twice. */
  lemma DeliveredAtMostOnce(x: Cipher, bufs: seq<SyncBuf>, acts: seq<Action>, g: nat)
    requires Runs(x, Ap(bufs, []), acts) && g < |bufs| && bufs[g].status == Empty
    ensures var log := After(x, Ap(bufs, []), acts).log; Among(HandedFor(log, g), AcceptedFor(log, g))
  {
    hide Runs, After;
    RunKeepsBalance(x, Ap(bufs, []), acts, g);
  }

  /** Until a granted request covers it, or a response or dump comes for its group, a frame stays ready; the
      granted request hands it over. */
  lemma {:induction false} ReadyUntilHanded(x: Cipher, a: Ap, act: Action, g: nat)
    requires Fits(a, act) && g < |a.bufs| && a.bufs[g].status == ReadyToPush
    ensures var n := Do(x, a, act);
            var covered := act.Request? && act.ok && Distance(act.start, g, |a.bufs|) < act.count;
            var cut := (act.Response? || act.Dump?) && act.group == g;
            && (n.bufs[g].status == ReadyToPush <==> !covered && !cut)
            && (n.bufs[g].status == ReadyToPush ==> n.bufs[g] == a.bufs[g])
            && HandedFor(n.log, g) == HandedFor(a.log, g) + if covered then [a.bufs[g].data] else []
  {
    hide Picks, Batch, Logged, Distance, AcceptedFor, HandedFor, Answered;
    match act
    case Push(q, frame) => LogOne(a.log, Accepted(q, frame), g);
    case Request(start, count, ok) =>
      BatchFor(a.bufs, start, count, a.log, g);
      PicksAre(a.bufs, start, count, g);
    case Response(q, slot, air) => AnsweredIsFull(a.bufs[q], x, slot, air);
    case Dump(q) =>
  }

  lemma AnsweredIsFull(b: SyncBuf, x: Cipher, slot: nat, air: bytes)
    requires slot < |b.rsp| && AD_HEADER_LEN <= |air| <= |b.rsp[slot].data|
    ensures Answered(b, x, slot, air).status == RespFull && Answered(b, x, slot, air).data == b.data
  {
  }

  /** A late response, legitimate or not, to a group whose new frame is not handed over yet: no request takes
      the frame any more and no push is accepted until the dump, which forgets it. */
  lemma LateResponseLosesTheFrame(x: Cipher, a: Ap, g: nat, slot: nat, air: bytes, start: byte, count: byte,
                                  frame: bytes)
    requires Fits(a, Response(g, slot, air)) && a.bufs[g].status == ReadyToPush
    ensures var late := Do(x, a, Response(g, slot, air));
            && Do(x, late, Push(g, frame)) == late
            && HandedFor(Do(x, late, Request(start, count, true)).log, g) == HandedFor(late.log, g)
            && Do(x, late, Dump(g)).bufs[g].status == Empty
  {
    hide Picks, Batch, Logged, Distance, AcceptedFor, HandedFor, Answered;
    AnsweredIsFull(a.bufs[g], x, slot, air);
    var late := Do(x, a, Response(g, slot, air));
    BatchFor(late.bufs, start, count, late.log, g);
    PicksAre(late.bufs, start, count, g);
  }

  // ---------- what each action does, and what a group goes through ----------

  /** A push is accepted if and only if the group's buffer is empty or was handed over; the frame then replaces what
      is in the buffer and is ready. Otherwise nothing changes. No other group is concerned. */
  lemma PushAcceptedIff(x: Cipher, a: Ap, g: nat, frame: bytes)
    requires g < |a.bufs|
    ensures var n := Do(x, a, Push(g, frame));
            var free := a.bufs[g].status == Empty || a.bufs[g].status == Pushed;
            && n.log == a.log + (if free then [Accepted(g, frame)] else [])
            && |n.bufs| == |a.bufs| && (forall q: nat | q < |a.bufs| && q != g :: n.bufs[q] == a.bufs[q])
            && n.bufs[g] == if free then SyncBuf(frame, ReadyToPush, a.bufs[g].rsp) else a.bufs[g]
  {
  }

  /** A granted request turns exactly the ready groups of its window to pushed and leaves their frames in place; a
      refused one changes nothing. */
  lemma RequestIs(x: Cipher, a: Ap, start: byte, count: byte, ok: bool)
    requires a.bufs != []
    ensures var n := Do(x, a, Request(start, count, ok));
            && |n.bufs| == |a.bufs| && (!ok ==> n == a)
            && forall g: nat | g < |a.bufs| ::
                 n.bufs[g] == if ok && a.bufs[g].status == ReadyToPush && (g - start) % |a.bufs| < count
                              then a.bufs[g].(status := Pushed) else a.bufs[g]
  {
    forall g: nat | g < |a.bufs| ensures
      g in Picks(a.bufs, start, count) <==> a.bufs[g].status == ReadyToPush && (g - start) % |a.bufs| < count {
      PicksAre(a.bufs, start, count, g);
    }
    hide Picks, Batch, Logged;
  }

  /** What happened to a group's log from one state to a later one. */
  predicate LogGrew(a: Ap, n: Ap, g: nat, accepted: seq<bytes>, handed: seq<bytes>) {
    && AcceptedFor(n.log, g) == AcceptedFor(a.log, g) + accepted
    && HandedFor(n.log, g) == HandedFor(a.log, g) + handed
  }

  lemma PushLogs(x: Cipher, a: Ap, g: nat, frame: bytes)
    requires g < |a.bufs| && (a.bufs[g].status == Empty || a.bufs[g].status == Pushed)
    ensures LogGrew(a, Do(x, a, Push(g, frame)), g, [frame], [])
  {
    hide AcceptedFor, HandedFor;
    LogOne(a.log, Accepted(g, frame), g);
  }

  lemma RequestLogs(x: Cipher, a: Ap, g: nat, start: byte, count: byte)
    requires g < |a.bufs| && a.bufs[g].status == ReadyToPush && (g - start) % |a.bufs| < count
    ensures LogGrew(a, Do(x, a, Request(start, count, true)), g, [], [a.bufs[g].data])
  {
    hide AcceptedFor, HandedFor, Picks, Batch, Logged;
    BatchFor(a.bufs, start, count, a.log, g);
    PicksAre(a.bufs, start, count, g);
  }

  lemma LogsAdd(a: Ap, b: Ap, d: Ap, g: nat, acc: seq<bytes>, han: seq<bytes>, acc': seq<bytes>, han': seq<bytes>)
    requires LogGrew(a, b, g, acc, han) && LogGrew(b, d, g, acc', han')
    ensures LogGrew(a, d, g, acc + acc', han + han')
  {
  }

  lemma ThreeActs(x: Cipher, a: Ap, p: Action, q: Action, r: Action)
    requires Fits(a, p) && Fits(Do(x, a, p), q) && Fits(Do(x, Do(x, a, p), q), r)
    ensures Runs(x, a, [p, q, r]) && After(x, a, [p, q, r]) == Do(x, Do(x, Do(x, a, p), q), r)
  {
    hide Do, Fits;
    var b := Do(x, a, p);
    var d := Do(x, b, q);
    assert [p, q, r][1..] == [q, r] && [q, r][1..] == [r] && [r][1..] == [];
    assert Runs(x, d, [r]) && After(x, d, [r]) == Do(x, d, r);
    assert Runs(x, b, [q, r]) && After(x, b, [q, r]) == After(x, d, [r]);
  }

  /** A frame pushed, handed over and followed by another push: both are accepted, the first is handed over once, and
      the second is ready. No response is waited for. */
  lemma PushedGroupAcceptsAgain(x: Cipher, a: Ap, g: nat, first: bytes, second: bytes, start: byte, count: byte)
    requires g < |a.bufs| && (a.bufs[g].status == Empty || a.bufs[g].status == Pushed)
    requires (g - start) % |a.bufs| < count
    ensures var acts := [Push(g, first), Request(start, count, true), Push(g, second)];
            && Runs(x, a, acts)
            && var n := After(x, a, acts);
               && LogGrew(a, n, g, [first, second], [first])
               && |n.bufs| == |a.bufs| && n.bufs[g] == SyncBuf(second, ReadyToPush, a.bufs[g].rsp)
  {
    hide LogGrew, Do, Runs, After;
    var b := Do(x, a, Push(g, first));
    PushAcceptedIff(x, a, g, first);
    PushLogs(x, a, g, first);
    var d := Do(x, b, Request(start, count, true));
    RequestIs(x, b, start, count, true);
    RequestLogs(x, b, g, start, count);
    PushAcceptedIff(x, d, g, second);
    PushLogs(x, d, g, second);
    ThreeActs(x, a, Push(g, first), Request(start, count, true), Push(g, second));
    LogsAdd(a, b, d, g, [first], [], [], [first]);
    LogsAdd(a, d, Do(x, d, Push(g, second)), g, [first] + [], [] + [first], [second], []);
    assert [first] + [] + [second] == [first, second] && [] + [first] + [] == [first];
  }

  /** What a response leaves. The group always counts as answered and the response always lies in its slot, but the
      slot counts as answered only when length and type are those of an encrypted frame, and holds the plaintext only
      when the key on file opens it. */
  lemma AnsweredIs(b: SyncBuf, x: Cipher, slot: nat, air: bytes)
    requires Sound(x) && slot < |b.rsp| && AD_HEADER_LEN <= |air| <= |b.rsp[slot].data|
    ensures var (n, was) := (Answered(b, x, slot, air), b.rsp[slot]);
            var (r, legit, inside) := (n.rsp[slot], |air| - 1 == air[0] && air[1] == 0x31, x.open(was.key, air[2..]));
            && n.status == RespFull && n.data == b.data
            && (forall j: nat | j < |b.rsp| && j != slot :: n.rsp[j] == b.rsp[j])
            && r.slot == slot && r.key == was.key && r.status == (if legit then RespFull else was.status)
            && r.len <= |r.data| == |was.data|
            && r.data[..r.len] == if legit && inside.Some? then inside.value else air
  {
  }

  /** After a dump the group is empty and so is every slot that held something; keys stay on file. */
  lemma DumpedIs(b: SyncBuf)
    ensures var n := Dumped(b);
            && n.status == Empty && n.data == b.data && |n.rsp| == |b.rsp|
            && forall i: nat | i < |b.rsp| ::
                 && n.rsp[i].len == 0 && n.rsp[i].key == b.rsp[i].key && n.rsp[i].data == b.rsp[i].data
                 && n.rsp[i].status == if b.rsp[i].len != 0 then Empty else b.rsp[i].status
  {
  }
}
