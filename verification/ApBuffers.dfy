/** The access point's buffers as the source keeps them: an array of per-group structures and the transmit
    slots that a batch is copied into. */
module ApBuffers {
  import opened Bytes
  import opened Ead
  import opened ApSync

  lemma PicksGrow(bufs: seq<SyncBuf>, start: nat, i: nat, count: nat)
    requires bufs != [] && i <= count
    ensures |Picks(bufs, start, i)| <= |Picks(bufs, start, count)|
    decreases count
  {
    if i < count { PicksGrow(bufs, start, i, count - 1); }
  }

  lemma PicksStep(bufs: seq<SyncBuf>, start: nat, i: nat)
    requires bufs != []
    ensures var (p, g) := (Picks(bufs, start, i), (start + i) % |bufs|);
            && MarkPushed(bufs, p)[g] == (if g in p then bufs[g].(status := Pushed) else bufs[g])
            && Picks(bufs, start, i + 1) == (if bufs[g].status == ReadyToPush && g !in p then p + [g] else p)
            && (g !in p ==> MarkPushed(bufs, p + [g]) == MarkPushed(bufs, p)[g := bufs[g].(status := Pushed)])
  {
  }

  lemma NothingPicked(bufs: seq<SyncBuf>, start: nat)
    requires bufs != []
    ensures Picks(bufs, start, 0) == [] && MarkPushed(bufs, []) == bufs
  {
  }

  lemma PicksReady(bufs: seq<SyncBuf>, start: nat, count: nat)
    requires bufs != []
    ensures forall g | g in Picks(bufs, start, count) :: g < |bufs| && bufs[g].status == ReadyToPush
  {
    forall g | g in Picks(bufs, start, count) ensures bufs[g].status == ReadyToPush { PicksAre(bufs, start, count, g); }
  }

  /** A frame in its buffer, which is zero to begin with. */
  function Padded(frame: bytes): (b: bytes)
    requires |frame| <= ESL_ENCRYPTED_DATA_MAX_LEN
    ensures |b| == ESL_ENCRYPTED_DATA_MAX_LEN
  {
    frame + seq(ESL_ENCRYPTED_DATA_MAX_LEN - |frame|, _ => 0)
  }

  class AccessPoint {
    const syncBuf: array<SyncBuf>
    const subevents: array<nat>   // subevent_data_params: the group of each transmit slot
    const slotData: array<bytes>  // subevent_bufs
    const cipher: Cipher
    const apKey: bytes

    constructor (groups: nat, txSlots: nat, cipher: Cipher, apKey: bytes, rspKeys: seq<bytes>)
      requires groups > 0
      ensures fresh(syncBuf) && fresh(subevents) && fresh(slotData)
      ensures syncBuf.Length == groups && subevents.Length == slotData.Length == txSlots
      ensures forall g: nat | g < groups :: syncBuf[g].status == Empty && |syncBuf[g].rsp| == |rspKeys|
    {
      var rsp := seq(|rspKeys|, i requires 0 <= i < |rspKeys| =>
                       RspBuf(rspKeys[i], seq(ESL_ENCRYPTED_DATA_MAX_LEN, _ => 0), 0, 0, Empty));
      syncBuf := new SyncBuf[groups](_ => SyncBuf([], Empty, rsp));
      subevents := new nat[txSlots](_ => 0);
      slotData := new bytes[txSlots](_ => []);
      this.cipher := cipher;
      this.apKey := apKey;
    }

    ghost predicate Valid()
      reads this
    {
      syncBuf.Length > 0 && subevents.Length == slotData.Length
    }

    /** esl_c_push_sync_to_controller; `fault` is what the controller returns. The transmit slots must hold the
        ready groups of the window. */
    method PushSyncToController(start: byte, count: byte, fault: int) returns (err: int, handed: seq<Handed>)
      requires Valid() && |Picks(syncBuf[..], start, count)| <= subevents.Length
      modifies syncBuf, subevents, slotData
      ensures var picks := Picks(old(syncBuf[..]), start, count);
              && err == (if picks == [] then 0 else fault)
              && syncBuf[..] == (if err == 0 then MarkPushed(old(syncBuf[..]), picks) else old(syncBuf[..]))
              && handed == (if err == 0 then Batch(old(syncBuf[..]), picks) else [])
    {
      hide Picks, MarkPushed;
      ghost var before := syncBuf[..];
      NothingPicked(before, start);
      var n := 0;
      for i: nat := 0 to count
        invariant n <= subevents.Length && subevents[..n] == Picks(before, start, i)
        invariant forall k | 0 <= k < n :: subevents[k] < |before| && slotData[k] == before[subevents[k]].data
        invariant syncBuf[..] == MarkPushed(before, subevents[..n])
      {
        PicksGrow(before, start, i + 1, count);
        PicksStep(before, start, i);
        var current := (start + i) % syncBuf.Length;
        assert syncBuf[..][current] == syncBuf[current];
        if syncBuf[current].status != ReadyToPush {
          continue;
        }
        subevents[n] := current;
        slotData[n] := syncBuf[current].data;
        syncBuf[current] := syncBuf[current].(status := Pushed);
        n := n + 1;
      }
      PicksReady(before, start, count);
      assert forall k | 0 <= k < n :: subevents[k] == subevents[..n][k];
      err, handed := 0, [];
      if n > 0 {
        err := fault;
        if err != 0 {
          assert forall k | 0 <= k < n :: subevents[..n][k] in subevents[..n];
          Restore(n, before);
        } else {
          var to, what := subevents[..n], slotData[..n];
          handed := seq(n, k requires 0 <= k < n => Handed(to[k], what[k]));
        }
      }
    }

    /** The loop that takes a refused batch back. */
    method Restore(n: nat, ghost before: seq<SyncBuf>)
      requires Valid() && n <= subevents.Length
      requires |before| == syncBuf.Length && syncBuf[..] == MarkPushed(before, subevents[..n])
      requires forall k | 0 <= k < n :: subevents[k] < |before| && before[subevents[k]].status == ReadyToPush
      modifies syncBuf
      ensures syncBuf[..] == before
    {
      for k := 0 to n
        invariant forall g | 0 <= g < |before| ::
                    syncBuf[g] == if g in subevents[..n] && g !in subevents[..k] then before[g].(status := Pushed)
                                  else before[g]
      {
        assert subevents[..n][k] == subevents[k];
        assert subevents[..k + 1] == subevents[..k] + [subevents[k]];
        syncBuf[subevents[k]] := syncBuf[subevents[k]].(status := ReadyToPush);
      }
    }

    /** What a push composes for a group; an empty payload is sealed behind two bytes of the group's last frame. */
    function Composed(group: nat, payload: bytes, randomizer: bytes): bytes
      requires group < syncBuf.Length && |payload| <= ESL_SYNC_PKT_PAYLOAD_MAX_LEN
      requires |syncBuf[group].data| <= ESL_ENCRYPTED_DATA_MAX_LEN
      reads this, syncBuf
    {
      Sealed(cipher, apKey, randomizer, Laid(payload, Padded(syncBuf[group].data)[7..9]))
    }

    /** esl_c_push_sync_buf */
    method PushSyncBuf(payload: bytes, randomizer: bytes, group: nat) returns (err: int)
      requires Valid() && Sound(cipher) && group < syncBuf.Length && |syncBuf[group].data| <= ESL_ENCRYPTED_DATA_MAX_LEN
      requires |payload| <= ESL_SYNC_PKT_PAYLOAD_MAX_LEN && |randomizer| == EAD_RANDOMIZER_LEN
      modifies syncBuf
      ensures var was := Ap(old(syncBuf[..]), []);
              var now := Do(cipher, was, Push(group, old(Composed(group, payload, randomizer))));
              && syncBuf[..] == now.bufs
              && err == if now.log == [] then EBUSY else 0
      ensures payload != [] && err == 0 ==> syncBuf[group].data == Frame(cipher, apKey, randomizer, payload)
    {
      hide Sound;
      err := 0;
      if syncBuf[group].status == Empty || syncBuf[group].status == Pushed {
        syncBuf[group] := syncBuf[group].(status := ReadyToPush);
        var frame := new byte[ESL_ENCRYPTED_DATA_MAX_LEN](_ => 0);
        CopyInto(frame, 0, syncBuf[group].data);
        assert frame[..] == Padded(syncBuf[group].data);
        assert frame[7..9] == frame[..][7..9];
        var len := ComposeAdData(cipher, frame, payload, randomizer, apKey);
        syncBuf[group] := syncBuf[group].(data := frame[..len]);
      } else {
        err := EBUSY;
      }
    }

    /** pawr_response and, as its work item, esl_ap_resp_fill_buf_work_fn */
    method PawrResponse(group: nat, slot: nat, air: bytes)
      requires Valid() && group < syncBuf.Length && slot < |syncBuf[group].rsp|
      requires |air| != 1 && |air| <= |syncBuf[group].rsp[slot].data|
      modifies syncBuf
      ensures syncBuf[..] == if air == [] then old(syncBuf[..])
                             else old(syncBuf[..])[group := Answered(old(syncBuf[group]), cipher, slot, air)]
    {
      if |air| == 0 {
        return;
      }
      var b := syncBuf[group];
      var r := b.rsp[slot];
      r := r.(data := air + r.data[|air|..], len := |air|);
      b := b.(rsp := b.rsp[slot := r], status := RespFull);
      r := r.(slot := slot);
      if r.len - 1 == r.data[0] && r.data[1] == BT_DATA_ENCRYPTED_AD_DATA {
        r := r.(status := RespFull);
        assert r.data[AD_HEADER_LEN..r.len] == air[AD_HEADER_LEN..];
        match cipher.open(r.key, r.data[AD_HEADER_LEN..r.len])
        case None =>
        case Some(plain) =>
          if |plain| <= |air| {
            r := r.(data := plain + r.data[|plain|..], len := |plain|);
          }
      }
      assert b.rsp[slot := r] == old(syncBuf[group]).rsp[slot := r];
      syncBuf[group] := b.(rsp := b.rsp[slot := r]);
    }

    /** esl_c_dump_resp_buf */
    method DumpRespBuf(group: nat)
      requires Valid() && group < syncBuf.Length
      modifies syncBuf
      ensures syncBuf[..] == old(syncBuf[..])[group := Dumped(old(syncBuf[group]))]
    {
      ghost var was := syncBuf[group];
      for idx := 0 to |syncBuf[group].rsp|
        invariant syncBuf[group] == was.(rsp := syncBuf[group].rsp) && |syncBuf[group].rsp| == |was.rsp|
        invariant forall j: nat | j < |was.rsp| ::
                    syncBuf[group].rsp[j] == if j < idx then Dumped(was).rsp[j] else was.rsp[j]
        invariant forall g: nat | g < syncBuf.Length && g != group :: syncBuf[g] == old(syncBuf[g])
      {
        var r := syncBuf[group].rsp[idx];
        if r.len != 0 {
          syncBuf[group] := syncBuf[group].(rsp := syncBuf[group].rsp[idx := r.(len := 0, status := Empty)]);
        }
      }
      assert syncBuf[group].rsp == Dumped(was).rsp;
      syncBuf[group] := syncBuf[group].(status := Empty);
    }
  }
}
