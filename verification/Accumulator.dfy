/** The response buffer of a packet (esl.c, ecp_response_handler): at most 48 bytes, always whole TLVs, and a
    rollback that takes exactly the last one. */
module Accumulator {
  import opened Bytes
  import opened Tlv
  import opened Ead
  import opened TagMachine
  import opened Responses
  import opened Elements
  import opened TagRules
  import opened TagRun

  /** Whole TLVs within 48 bytes; `last` is the length of the final one. */
  ghost predicate Accumulated(rsp: bytes, last: nat) {
    && |rsp| <= ESL_SYNC_PKT_PAYLOAD_MAX_LEN && Split(rsp).Some?
    && var ts := Split(rsp).value; ts != [] ==> last == |ts[|ts| - 1]|
  }

  /** The TLVs after one more: appended when there is room in 48 bytes, otherwise the last one gives way to the error
      Capacity Limit. */
  function Appended(ts: seq<bytes>, tlv: bytes): seq<bytes> {
    if |Flat(ts)| + |tlv| <= 48 then ts + [tlv]
    else (if ts == [] then [] else ts[..|ts| - 1]) + [[0x00, 0x07]]
  }

  /** One response: the buffer's TLVs become Appended of them. A rollback happens only when this packet
      has put something into the buffer, so that `last` is never left over from an earlier one. */
  lemma {:induction false} OneResponse(rsp: bytes, last: nat, tlv: bytes)
    requires Accumulated(rsp, last) && WellFramed(tlv)
    ensures var (r, l) := Accumulate(rsp, last, tlv);
            && Accumulated(r, l) && r != []
            && Split(r) == Some(Appended(Split(rsp).value, tlv))
            && (|rsp| + |tlv| > ESL_SYNC_PKT_PAYLOAD_MAX_LEN ==> rsp != [] && last <= |rsp|)
  {
    hide Flat, Split, Accumulate, Appended, AllWellFramed, WellFramed, Accumulated;
    var ts := Contents(rsp, last);
    AppendedFlat(ts, last, tlv);
    WholeAgain(Appended(ts, tlv), Accumulate(rsp, last, tlv).1);
    SplitEmpty();
  }

  lemma Contents(rsp: bytes, last: nat) returns (ts: seq<bytes>)
    requires Accumulated(rsp, last)
    ensures AllWellFramed(ts) && rsp == Flat(ts) && Split(rsp) == Some(ts) && |rsp| <= ESL_SYNC_PKT_PAYLOAD_MAX_LEN
    ensures ts != [] ==> last == |ts[|ts| - 1]|
  {
    ts := Split(rsp).value;
    FlatSplit(rsp);
  }

  lemma WholeAgain(ts: seq<bytes>, last: nat)
    requires AllWellFramed(ts) && ts != [] && last == |ts[|ts| - 1]| && |Flat(ts)| <= ESL_SYNC_PKT_PAYLOAD_MAX_LEN
    ensures Accumulated(Flat(ts), last) && Split(Flat(ts)) == Some(ts)
  {
    SplitFlat(ts);
  }

  lemma SplitEmpty()
    ensures Split([]) == Some([]) && Flat([]) == []
  {
  }

  lemma AppendedFlat(ts: seq<bytes>, last: nat, tlv: bytes)
    requires AllWellFramed(ts) && WellFramed(tlv) && |Flat(ts)| <= ESL_SYNC_PKT_PAYLOAD_MAX_LEN
    requires ts != [] ==> last == |ts[|ts| - 1]|
    ensures var (out, (r, l)) := (Appended(ts, tlv), Accumulate(Flat(ts), last, tlv));
            && AllWellFramed(out) && out != [] && r == Flat(out) && l == |out[|out| - 1]|
            && r != [] && |r| <= ESL_SYNC_PKT_PAYLOAD_MAX_LEN
            && (|Flat(ts)| + |tlv| > ESL_SYNC_PKT_PAYLOAD_MAX_LEN ==> ts != [] && last <= |Flat(ts)|)
  {
    hide Flat;
    SplitEmpty();
    FlatSnoc(ts, tlv);
    if ts != [] {
      var before, final := ts[..|ts| - 1], ts[|ts| - 1];
      FlatSnoc(before, final);
      FlatSnoc(before, [OP_ERR, ERR_CAP_LIMIT]);
      assert before + [final] == ts;
      assert Flat(ts)[..|Flat(ts)| - |final|] == Flat(before);
      assert forall t | t in before :: t in ts;
      assert final in ts;
    }
  }

  lemma ExecuteKeepsBuffer(t: Tag, c: Config, cmd: bytes, w: World)
    requires Fitting(t.e, c) && WellFramed(cmd)
    ensures var n := Execute(t, c, cmd, w); n.rsp == t.rsp && n.last == t.last
  {
    hide UpdateComplete, Unassociate, Fitting, NoImages, Operate, WellFramed, Execute;
    ExecuteCases(t, c, cmd, w);
  }

  /** What the PAwR path appends is the whole of what the ECP path answers. */
  ghost predicate AppendsAnswer(before: Tag, pawr: Tag, ecp: Tag) {
    && Split(before.rsp).Some? && WellFramed(ecp.rsp)
    && Accumulated(pawr.rsp, pawr.last) && pawr.rsp != []
    && Split(pawr.rsp) == Some(Appended(Split(before.rsp).value, ecp.rsp))
  }

  lemma RespondAppends(t: Tag, before: Tag, reading: Reading)
    requires ReadingOk(reading) && Accumulated(before.rsp, before.last) && t.rsp == before.rsp && t.last == before.last
    ensures AppendsAnswer(before, Respond(t, FromPawr, reading), Respond(t, FromEcp, reading))
  {
    hide Encode, Accumulate, RefreshBasic, BasicByte, Split, Appended, WellFramed;
    var s := if t.resp.BasicState? then t.(e := RefreshBasic(t.e)) else t;
    OneResponse(s.rsp, s.last, Encode(s.resp, BasicByte(s), reading));
  }

  /** A command in a packet leaves in the buffer, behind what is there, the answer that the same command would
      get over a connection. */
  lemma CommandAppends(t: Tag, c: Config, cmd: bytes, w: World)
    requires Fitting(t.e, c) && |cmd| >= 2 && ReadingOk(w.reading) && Accumulated(t.rsp, t.last)
    ensures ToMe(t, cmd[1]) ==> AppendsAnswer(t, Command(t, c, cmd, FromPawr, w), Command(t, c, cmd, FromEcp, w))
  {
    hide Respond, Execute, Fitting, Accumulated, ToMe, AppendsAnswer;
    var s := t.(resp := BasicState, respNeeded := true, unassociateAfter := false);
    RespondAppends(s.(resp := Failed(ERR_INV_PARAMS)), t, w.reading);
    RespondAppends(s.(resp := Failed(ERR_INV_OPCODE)), t, w.reading);
    RespondAppends(s.(resp := Failed(ERR_RETRY), busy := false), t, w.reading);
    if |cmd| == EcpLen(cmd[0]) {
      ExecuteKeepsBuffer(s, c, cmd, w);
      RespondAppends(Execute(s, c, cmd, w), t, w.reading);
    }
  }

  // ---------- the whole packet ----------

  /** The answer that the command at cur would get over a connection. */
  ghost function Answer(s: Walked, c: Config, mem: bytes, cur: nat, w: World, readings: Readings): bytes
    requires Fitting(s.t.e, c) && cur + 17 <= |mem| && ReadingsOk(readings)
  {
    Command(s.t, c, CommandAt(mem, cur), FromEcp, w.(reading := readings(|s.dispatched|))).rsp
  }

  /** The answers to the commands dispatched along a walk, one by one. */
  ghost function Answers(s: Walked, c: Config, mem: bytes, n: nat, cur: nat, tlv: int, w: World,
                         readings: Readings): seq<bytes>
    requires Fitting(s.t.e, c) && |mem| >= n + 17 && ReadingsOk(readings)
    decreases n - cur
  {
    if cur >= n then []
    else
      var cmd, next := CommandAt(mem, cur), WalkStep(s, c, mem, cur, tlv, w, readings);
      var here := if ToMe(s.t, cmd[1]) then [Answer(s, c, mem, cur, w, readings)] else [];
      WalkStepFits(s, c, mem, cur, tlv, w, readings);
      here + if cur + |cmd| <= n then Answers(next, c, mem, n, cur + |cmd|, tlv + 1, w, readings) else []
  }

  /** The TLVs left of all the answers, in order. */
  function Kept(ts: seq<bytes>, answers: seq<bytes>): seq<bytes>
    decreases |answers|
  {
    if answers == [] then ts else Kept(Appended(ts, answers[0]), answers[1..])
  }

  /** What holds of the buffer all along a packet; once a command was dispatched it is not empty. */
  ghost predicate Answering(s: Walked) {
    && Accumulated(s.t.rsp, s.t.last)
    && (s.dispatched != [] ==> s.t.rsp != [])
    && (s.slot != -1 ==> s.dispatched != [])
  }

  lemma StepAnswers(s: Walked, c: Config, mem: bytes, cur: nat, tlv: int, w: World, readings: Readings)
    requires Fitting(s.t.e, c) && cur + 17 <= |mem| && ReadingsOk(readings) && Answering(s)
    ensures var (cmd, next) := (CommandAt(mem, cur), WalkStep(s, c, mem, cur, tlv, w, readings));
            && Answering(next)
            && Split(s.t.rsp).Some? && Split(next.t.rsp).Some?
            && Split(next.t.rsp).value ==
                 if ToMe(s.t, cmd[1]) then Appended(Split(s.t.rsp).value, Answer(s, c, mem, cur, w, readings))
                 else Split(s.t.rsp).value
  {
    hide Command, Fitting, Split, Appended, ToMe;
    CommandAppends(s.t, c, CommandAt(mem, cur), w.(reading := readings(|s.dispatched|)));
  }

  lemma AnswersUnfold(s: Walked, c: Config, mem: bytes, n: nat, cur: nat, tlv: int, w: World, readings: Readings)
    requires Fitting(s.t.e, c) && |mem| >= n + 17 && ReadingsOk(readings)
    ensures cur >= n ==> Answers(s, c, mem, n, cur, tlv, w, readings) == []
    ensures cur < n ==>
              var (cmd, next) := (CommandAt(mem, cur), WalkStep(s, c, mem, cur, tlv, w, readings));
              && Fitting(next.t.e, c)
              && var rest := if cur + |cmd| <= n then Answers(next, c, mem, n, cur + |cmd|, tlv + 1, w, readings)
                             else [];
                 Answers(s, c, mem, n, cur, tlv, w, readings) ==
                   (if ToMe(s.t, cmd[1]) then [Answer(s, c, mem, cur, w, readings)] else []) + rest
  {
    hide Command, CommandAt, WellFramed, WalkStep, Fitting, ToMe, Answer, SlotsPending, ReadingsOk;
    if cur < n {
      WalkStepFits(s, c, mem, cur, tlv, w, readings);
    }
  }

  lemma KeptUnfolds(ts: seq<bytes>, answer: bytes, rest: seq<bytes>)
    ensures Kept(ts, [answer] + rest) == Kept(Appended(ts, answer), rest) && Kept(ts, []) == ts
  {
    assert ([answer] + rest)[1..] == rest;
  }

  lemma {:induction false} WalkAnswers(s: Walked, c: Config, mem: bytes, n: nat, cur: nat, tlv: int, w: World,
                                       readings: Readings)
    requires Fitting(s.t.e, c) && |mem| >= n + 17 && ReadingsOk(readings) && Answering(s)
    ensures var r := Walk(s, c, mem, n, cur, tlv, w, readings);
            && Answering(r) && Split(s.t.rsp).Some?
            && Split(r.t.rsp) == Some(Kept(Split(s.t.rsp).value, Answers(s, c, mem, n, cur, tlv, w, readings)))
    decreases n - cur
  {
    hide Walk, WalkStep, Fitting, CommandAt, ReadingsOk, Accumulated, Answer, ToMe, Answers, Appended, Kept, Split;
    WalkEnds(s, c, mem, n, cur, tlv, w, readings);
    AnswersUnfold(s, c, mem, n, cur, tlv, w, readings);
    SplitKnown(s.t);
    var ts := Split(s.t.rsp).value;
    KeptUnfolds(ts, [], []);
    if cur < n {
      WalkUnfolds(s, c, mem, n, cur, tlv, w, readings);
      StepAnswers(s, c, mem, cur, tlv, w, readings);
      var cmd, next := CommandAt(mem, cur), WalkStep(s, c, mem, cur, tlv, w, readings);
      var answer := Answer(s, c, mem, cur, w, readings);
      var rest := if cur + |cmd| <= n then Answers(next, c, mem, n, cur + |cmd|, tlv + 1, w, readings) else [];
      assert [] + rest == rest;
      KeptUnfolds(ts, answer, rest);
      KeptUnfolds(Split(next.t.rsp).value, answer, rest);
      if cur + |cmd| <= n {
        WalkAnswers(next, c, mem, n, cur + |cmd|, tlv + 1, w, readings);
      }
    }
  }

  lemma SplitKnown(t: Tag)
    requires Accumulated(t.rsp, t.last)
    ensures Split(t.rsp).Some?
  {
  }

  /** For any packet, well formed or not, and whatever an earlier one left in `last`: a response is given exactly
      when a slot is chosen; it is not empty, fits, and consists of the answers that are left of all. */
  lemma ResponsesAreWhole(t: Tag, c: Config, plain: bytes, tail: bytes, w: World, readings: Readings)
    requires Fitting(t.e, c) && |plain| >= 2 && |tail| >= 17 && ReadingsOk(readings)
    ensures var (r, start) := (Parse(t, c, plain, tail, w, readings), Walked(t.(rsp := []), -1, []));
            && (r.slot != -1 <==> r.response.Some?)
            && (r.response.Some? ==>
                  && 1 <= |r.response.value| <= ESL_SYNC_PKT_PAYLOAD_MAX_LEN
                  && Split(r.response.value) ==
                       Some(Kept([], Answers(start, c, plain[2..] + tail, |plain| - 2, 1, -1, w, readings))))
  {
    hide Walk, Fitting, ReadingsOk, HeaderOk, Answers, Kept;
    SplitEmpty();
    WalkAnswers(Walked(t.(rsp := []), -1, []), c, plain[2..] + tail, |plain| - 2, 1, -1, w, readings);
  }
}
