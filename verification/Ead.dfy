/** Encrypted Advertising Data frames (esl_common.c): what the access point and the tag put on the air,
    and what the other side gets out of it. The cipher is a parameter. */
module Ead {
  import opened Bytes

  const AD_HEADER_LEN: nat := 2
  const EAD_RANDOMIZER_LEN: nat := 5
  const EAD_SESSION_KEY_LEN: nat := 16
  const EAD_KEY_MATERIAL_LEN: nat := 24
  const ESL_SYNC_PKT_PAYLOAD_MAX_LEN: nat := 48
  const ESL_ENCRYPTED_DATA_MAX_LEN: nat := 61
  /** Randomizer and MIC around a plaintext */
  const EAD_OVERHEAD: nat := 9
  const BT_DATA_ESL: byte := 0x34
  const BT_DATA_ENCRYPTED_AD_DATA: byte := 0x31
  const EINVAL: int := -22

  /** bt_ead_encrypt and bt_ead_decrypt; `seal` takes key material, randomizer and plaintext. */
  datatype Cipher = Cipher(seal: (bytes, bytes, bytes) -> bytes, open: (bytes, bytes) -> Option<bytes>)

  ghost predicate Sound(c: Cipher) {
    && (forall k, r, p :: |c.seal(k, r, p)| == |p| + EAD_OVERHEAD && c.open(k, c.seal(k, r, p)) == Some(p))
    && (forall k, x :: c.open(k, x).Some? ==> |x| == |c.open(k, x).value| + EAD_OVERHEAD)
  }

  /** The ESL payload behind its own two-byte AD header. */
  function Plain(payload: bytes): bytes
    requires |payload| <= 254
  {
    [|payload| + 1, BT_DATA_ESL] + payload
  }

  function Frame(c: Cipher, key: bytes, randomizer: bytes, payload: bytes): bytes
    requires |payload| <= ESL_SYNC_PKT_PAYLOAD_MAX_LEN
  {
    [|payload| + 12, BT_DATA_ENCRYPTED_AD_DATA] + c.seal(key, randomizer, Plain(payload))
  }

  /** esl_generate_ad_data_header: writes the randomizer and the ESL AD header, nothing for an empty payload */
  method GenerateAdDataHeader(randomizer: bytes, adData: array<byte>, at: nat, payloadLen: byte) returns (len: int)
    requires |randomizer| == EAD_RANDOMIZER_LEN && at + 7 <= adData.Length && payloadLen < 0xff
    modifies adData
    ensures len == if payloadLen == 0 then EINVAL else 7 + payloadLen
    ensures payloadLen == 0 ==> adData[..] == old(adData[..])
    ensures payloadLen != 0 ==>
              && adData[..] == old(adData[..at]) + (randomizer + [payloadLen + 1, BT_DATA_ESL]) + old(adData[at + 7..])
              && adData[at + 5..at + 7] == [payloadLen + 1, BT_DATA_ESL] && adData[at + 7..] == old(adData[at + 7..])
  {
    if payloadLen == 0 {
      return EINVAL;
    }
    CopyInto(adData, at, randomizer);
    adData[at + EAD_RANDOMIZER_LEN] := payloadLen + 1;
    adData[at + EAD_RANDOMIZER_LEN + 1] := BT_DATA_ESL;
    HeaderLaid(old(adData[..]), at, randomizer, payloadLen + 1, BT_DATA_ESL);
    len := EAD_RANDOMIZER_LEN + AD_HEADER_LEN + payloadLen;
  }

  lemma HeaderLaid(before: bytes, at: nat, randomizer: bytes, len: byte, kind: byte)
    requires |randomizer| == EAD_RANDOMIZER_LEN && at + 7 <= |before|
    ensures var laid := before[..at] + randomizer + before[at + 5..];
            var after := laid[at + 5 := len][at + 6 := kind];
            && after == before[..at] + (randomizer + [len, kind]) + before[at + 7..]
            && after[at + 5..at + 7] == [len, kind] && after[at + 7..] == before[at + 7..]
  {
    var after := before[..at] + (randomizer + [len, kind]) + before[at + 7..];
    assert before[at + 5..][2..] == before[at + 7..];
    assert (before[..at] + randomizer + before[at + 5..])[at + 5 := len][at + 6 := kind] == after;
  }

  /** memcpy into a buffer */
  method CopyInto(a: array<byte>, at: nat, data: bytes)
    requires at + |data| <= a.Length
    modifies a
    ensures a[..] == old(a[..at]) + data + old(a[at + |data|..])
  {
    for i := 0 to |data|
      invariant forall k | 0 <= k < a.Length :: a[k] == if at <= k < at + i then data[k - at] else old(a[k])
    {
      a[at + i] := data[i];
    }
  }

  /** The plaintext that is sealed: for an empty payload the header is not written, so its place holds whatever
      the buffer held. */
  function Laid(payload: bytes, stale: bytes): bytes
    requires |payload| <= 254
  {
    if payload == [] then stale else Plain(payload)
  }

  /** A composed frame around a plaintext. */
  function Sealed(c: Cipher, key: bytes, randomizer: bytes, plain: bytes): bytes
    requires |plain| <= ESL_SYNC_PKT_PAYLOAD_MAX_LEN + 2
  {
    [|plain| + 10, BT_DATA_ENCRYPTED_AD_DATA] + c.seal(key, randomizer, plain)
  }

  /** esl_compose_ad_data: the payload and its header are laid out in the caller's buffer, then sealed in place. */
  method ComposeAdData(c: Cipher, out: array<byte>, payload: bytes, randomizer: bytes, key: bytes)
    returns (outLen: byte)
    requires Sound(c) && out.Length == ESL_ENCRYPTED_DATA_MAX_LEN
    requires |payload| <= ESL_SYNC_PKT_PAYLOAD_MAX_LEN && |randomizer| == EAD_RANDOMIZER_LEN
    modifies out
    ensures outLen == |payload| + 13 <= ESL_ENCRYPTED_DATA_MAX_LEN
    ensures out[..outLen] == Sealed(c, key, randomizer, Laid(payload, old(out[7..9])))
    ensures payload != [] ==> out[..outLen] == Frame(c, key, randomizer, payload)
  {
    hide Sound, Laid;
    var n := |payload|;
    CopyInto(out, AD_HEADER_LEN + EAD_RANDOMIZER_LEN + AD_HEADER_LEN, payload);
    ghost var laid := out[..];
    assert laid[9..9 + n] == payload && laid[7..9] == old(out[7..9]);
    var _ := GenerateAdDataHeader(randomizer, out, AD_HEADER_LEN, n);
    assert out[7..9] == (if n == 0 then laid[7..9] else [n + 1, BT_DATA_ESL]) && out[9..] == laid[9..];
    TailSlice(out[..], laid, n);
    var plain := out[AD_HEADER_LEN + EAD_RANDOMIZER_LEN..AD_HEADER_LEN + EAD_RANDOMIZER_LEN + AD_HEADER_LEN + n];
    LaidIs(out[..], payload, old(out[7..9]));
    SealedLen(c, key, randomizer, plain);
    CopyInto(out, AD_HEADER_LEN, c.seal(key, randomizer, plain));
    if n != 0 {
      FrameIsSealed(c, key, randomizer, payload, old(out[7..9]));
    }
    outLen := 11 + (n + AD_HEADER_LEN);
    out[0] := outLen - 1;
    out[1] := BT_DATA_ENCRYPTED_AD_DATA;
    assert out[..outLen] == [n + 12, BT_DATA_ENCRYPTED_AD_DATA] + c.seal(key, randomizer, plain);
  }

  lemma TailSlice(a: bytes, b: bytes, n: nat)
    requires |a| == |b| && 9 + n <= |a| && a[9..] == b[9..]
    ensures a[9..9 + n] == b[9..9 + n]
  {
    assert a[9..9 + n] == a[9..][..n] && b[9..9 + n] == b[9..][..n];
  }

  lemma LaidIs(a: bytes, payload: bytes, stale: bytes)
    requires 9 + |payload| <= |a| && |payload| <= ESL_SYNC_PKT_PAYLOAD_MAX_LEN && a[9..9 + |payload|] == payload
    requires a[7..9] == if payload == [] then stale else [|payload| + 1, BT_DATA_ESL]
    ensures a[7..9 + |payload|] == Laid(payload, stale)
  {
    assert a[7..9 + |payload|] == a[7..9] + a[9..9 + |payload|];
  }

  lemma FrameIsSealed(c: Cipher, key: bytes, randomizer: bytes, payload: bytes, stale: bytes)
    requires payload != [] && |payload| <= ESL_SYNC_PKT_PAYLOAD_MAX_LEN
    ensures |Laid(payload, stale)| == |payload| + 2
    ensures Sealed(c, key, randomizer, Laid(payload, stale)) == Frame(c, key, randomizer, payload)
  {
  }

  lemma SealedLen(c: Cipher, key: bytes, randomizer: bytes, plain: bytes)
    requires Sound(c)
    ensures |c.seal(key, randomizer, plain)| == |plain| + EAD_OVERHEAD
  {
  }

  /** What a receiver finds behind the outer header: the plaintext the sender laid out. */
  function Opened(c: Cipher, key: bytes, air: bytes): Option<bytes>
    requires |air| >= AD_HEADER_LEN
  {
    c.open(key, air[AD_HEADER_LEN..])
  }

  lemma FrameOpens(c: Cipher, key: bytes, randomizer: bytes, payload: bytes)
    requires Sound(c) && |payload| <= ESL_SYNC_PKT_PAYLOAD_MAX_LEN
    ensures var f := Frame(c, key, randomizer, payload);
            && |f| == |payload| + 13 <= ESL_ENCRYPTED_DATA_MAX_LEN
            && |f| == f[0] + 1 && f[1] == BT_DATA_ENCRYPTED_AD_DATA
            && Opened(c, key, f) == Some(Plain(payload))
  {
    var f := Frame(c, key, randomizer, payload);
    assert f[AD_HEADER_LEN..] == c.seal(key, randomizer, Plain(payload));
  }

  /** A frame on the air, in numbers: its length and type, and sealed inside it the payload's own length and type. */
  lemma FrameIs(c: Cipher, key: bytes, randomizer: bytes, payload: bytes)
    requires |payload| <= 48
    ensures Frame(c, key, randomizer, payload) ==
              [|payload| + 12, 0x31] + c.seal(key, randomizer, [|payload| + 1, 0x34] + payload)
  {
  }

  // ---------- key material on its way from the access point to the tag ----------

  function Reversed(b: bytes): (r: bytes)
    ensures |r| == |b|
  {
    seq(|b|, i requires 0 <= i < |b| => b[|b| - 1 - i])
  }

  /** sys_mem_swap on the session key; the initialization vector stays */
  function SwapSessionKey(key: bytes): (r: bytes)
    requires |key| == EAD_KEY_MATERIAL_LEN
    ensures |r| == |key|
  {
    Reversed(key[..EAD_SESSION_KEY_LEN]) + key[EAD_SESSION_KEY_LEN..]
  }

  /** The access point reverses the session key before writing it, the tag reverses what it is given: both
      sides end with the same key. */
  lemma SwapsCancel(key: bytes)
    requires |key| == EAD_KEY_MATERIAL_LEN
    ensures SwapSessionKey(SwapSessionKey(key)) == key
  {
    var wire := SwapSessionKey(key);
    assert wire[..EAD_SESSION_KEY_LEN] == Reversed(key[..EAD_SESSION_KEY_LEN]);
    assert Reversed(wire[..EAD_SESSION_KEY_LEN]) == key[..EAD_SESSION_KEY_LEN];
    assert wire[EAD_SESSION_KEY_LEN..] == key[EAD_SESSION_KEY_LEN..];
  }
}
