/** Commands and responses of the ESL Control Point share one framing: the high nibble of the first
    byte gives the length (sections 3.10.2 and 3.10.3 of the ESL Service). */
module Tlv {
  import opened Bytes

  /** ECP_LEN: opcode byte and one more, plus the parameters counted by the nibble */
  function EcpLen(op: byte): (n: nat)
    ensures 2 <= n <= 17
  {
    op / 16 + 2
  }

  predicate WellFramed(t: bytes) {
    |t| >= 2 && |t| == EcpLen(t[0])
  }

  predicate AllWellFramed(ts: seq<bytes>) {
    forall t | t in ts :: WellFramed(t)
  }

  function Flat(ts: seq<bytes>): bytes {
    if ts == [] then [] else ts[0] + Flat(ts[1..])
  }

  /** Decoding by the length nibble alone; None when the last TLV is cut short. */
  function Split(b: bytes): Option<seq<bytes>> {
    if b == [] then Some([])
    else if EcpLen(b[0]) > |b| then None
    else match Split(b[EcpLen(b[0])..])
      case None => None
      case Some(rest) => Some([b[..EcpLen(b[0])]] + rest)
  }

  lemma {:induction false} SplitFlat(ts: seq<bytes>)
    requires AllWellFramed(ts)
    ensures Split(Flat(ts)) == Some(ts)
  {
    if ts != [] {
      var t, rest := ts[0], ts[1..];
      assert AllWellFramed(rest) by {
        assert forall u | u in rest :: u in ts;
      }
      SplitFlat(rest);
      assert t in ts;
      assert Flat(ts) == t + Flat(rest);
      assert Flat(ts)[0] == t[0];
      assert Flat(ts)[..|t|] == t && Flat(ts)[|t|..] == Flat(rest);
      assert [t] + rest == ts;
    }
  }

  lemma {:induction false} FlatSplit(b: bytes)
    requires Split(b).Some?
    ensures AllWellFramed(Split(b).value) && Flat(Split(b).value) == b
  {
    if b != [] {
      var n := EcpLen(b[0]);
      FlatSplit(b[n..]);
      var rest := Split(b[n..]).value;
      assert b[..n][0] == b[0];
      assert ([b[..n]] + rest)[1..] == rest;
      assert b[..n] + b[n..] == b;
    }
  }

  lemma {:induction false} FlatSnoc(ts: seq<bytes>, t: bytes)
    ensures Flat(ts + [t]) == Flat(ts) + t
  {
    if ts == [] {
      assert ts + [t] == [t];
      assert Flat([t]) == t + Flat([t][1..]);
    } else {
      FlatSnoc(ts[1..], t);
      assert (ts + [t])[0] == ts[0] && (ts + [t])[1..] == ts[1..] + [t];
    }
  }
}
