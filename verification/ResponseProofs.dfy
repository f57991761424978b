/** What the response translation promises its caller. */
module ResponseProofs {
  import opened Bytes
  import opened Layout
  import opened Requests
  import opened Responses

  // ---------------------------------------------------------------- memory

  // The translation copies the payload: its size check passed.
  predicate Copies(mem: seq<byte>, size: u32)
    requires |mem| >= RESP_HEADER_SIZE && (HasTail(mem) ==> |mem| >= 24)
  {
    Carries(mem) && size >= Wrap32(NeededSize(mem))
  }

  // Every range of the response that is read, with mem what memory holds there.
  function Reads(mem: seq<byte>, size: u32): seq<Range>
    requires |mem| >= RESP_HEADER_SIZE && (HasTail(mem) ==> |mem| >= 24)
  {
    [Range(8, 12), Range(12, 16)]
    + (if MadeKey(mem) then [Range(16, 20)] else [])
    + (if HasTail(mem) then [Range(20, 24)] else [])
    + (if !Copies(mem, size) then []
       else if MadeKey(mem) then [Range(20, 20 + PayloadSize(mem))]
       else if CmdIdOf(mem) == FW_GET_PUBLIC_KEY then [Range(24, 28), Range(28, 28 + PayloadSize(mem))]
       else [Range(24, 24 + PayloadSize(mem))])
  }

  // Every range of the caller's buffer that is written.
  function Writes(mem: seq<byte>, size: u32): seq<Range>
    requires |mem| >= RESP_HEADER_SIZE && (HasTail(mem) ==> |mem| >= 24)
  {
    [Range(8, 12)]
    + (if CodeOf(mem) == RESPONSE_SUCCESS && !Listed(CmdIdOf(mem)) then [] else [Range(4, 8)])
    + (if !Copies(mem, size) then []
       else if CmdIdOf(mem) == FW_GET_PUBLIC_KEY then
         [Range(12, 16), Range(16, 20), Range(20, 24), Range(24, 24 + PayloadSize(mem)),
          Range(24 + PayloadSize(mem), 28 + PayloadSize(mem))]
       else [Range(12, 16), Range(16, 16 + PayloadSize(mem))])
  }

  predicate Agree(a: seq<byte>, b: seq<byte>, g: Range)
  {
    g.lo <= g.hi <= |a| && g.hi <= |b| && a[g.lo..g.hi] == b[g.lo..g.hi]
  }

  lemma AgreedWord(a: seq<byte>, b: seq<byte>, off: nat)
    requires Agree(a, b, Range(off, off + 4))
    ensures U32At(a, off) == U32At(b, off)
  {
    var v, w := a[off..off + 4], b[off..off + 4];
    assert U32At(v, 0) == U32At(a, off) && U32At(w, 0) == U32At(b, off);
  }

  // The lists are those of the translation: it depends on no response byte that is not
  // in Reads,
  lemma ReadsFrame(resp: seq<byte>, resp': seq<byte>, caller: seq<byte>, size: u32)
    requires Ready(resp, caller, size) && Ready(resp', caller, size)
    requires forall k :: 0 <= k < |Reads(resp, size)| ==> Agree(resp, resp', Reads(resp, size)[k])
    ensures Translation(resp, caller, size) == Translation(resp', caller, size)
  {
    hide U32At, Overwrite, LengthAndResult, HalPayload, FailureResult;
    var r := Reads(resp, size);
    assert Agree(resp, resp', r[0]) && Agree(resp, resp', r[1]);
    AgreedWord(resp, resp', 8);
    AgreedWord(resp, resp', 12);
    if HasTail(resp) {
      assert Agree(resp, resp', r[2]);
      AgreedWord(resp, resp', 20);
    }
    if MadeKey(resp) {
      assert Agree(resp, resp', r[2]);
      AgreedWord(resp, resp', 16);
    }
    if Copies(resp, size) {
      assert Agree(resp, resp', r[3]);
      SafePayload(resp, size);
      if CmdIdOf(resp) == FW_GET_PUBLIC_KEY {
        assert Agree(resp, resp', r[4]);
      }
    }
  }

  // and the caller's bytes in Writes come out the same whatever was there, all others
  // as they were.
  lemma WritesFrame(resp: seq<byte>, caller: seq<byte>, caller': seq<byte>, size: u32)
    requires Ready(resp, caller, size) && |caller| == |caller'|
    ensures var w := Writes(resp, size);
            var out, out' := Translation(resp, caller, size).rsp, Translation(resp, caller', size).rsp;
            && |out| == |out'| == |caller|
            && forall i :: 0 <= i < |caller| ==> if Within(i, w) then out[i] == out'[i] else out[i] == caller[i]
  {
    hide U32At, LengthAndResult, HalPayload, ParseReply;
    if Copies(resp, size) {
      SafePayload(resp, size);
    }
    var w := Writes(resp, size);
    var (lo, hi) := WrittenSpan(resp, size);
    forall i | 0 <= i < |caller| ensures Within(i, w) <==> lo <= i < hi {
      InWrites(resp, size, i);
    }
  }

  // The written ranges lie side by side.
  function WrittenSpan(resp: seq<byte>, size: u32): (nat, nat)
    requires |resp| >= RESP_HEADER_SIZE && (HasTail(resp) ==> |resp| >= 24)
  {
    (if CodeOf(resp) == RESPONSE_SUCCESS && !Listed(CmdIdOf(resp)) then 8 else 4,
     if Copies(resp, size) then NeededSize(resp) else 12)
  }

  lemma InWrites(resp: seq<byte>, size: u32, i: nat)
    requires |resp| >= RESP_HEADER_SIZE && (HasTail(resp) ==> |resp| >= 24)
    ensures Within(i, Writes(resp, size)) <==> WrittenSpan(resp, size).0 <= i < WrittenSpan(resp, size).1
  {
    hide U32At, PayloadSize;
    var w, span := Writes(resp, size), WrittenSpan(resp, size);
    if span.0 <= i < span.1 {
      assert w[0].lo <= i < w[0].hi || (span.0 == 4 && w[1].lo <= i < w[1].hi)
          || (Copies(resp, size) && (w[2].lo <= i < w[2].hi || w[3].lo <= i < w[3].hi))
          || (Copies(resp, size) && CmdIdOf(resp) == FW_GET_PUBLIC_KEY
              && (w[4].lo <= i < w[4].hi || w[5].lo <= i < w[5].hi || w[6].lo <= i < w[6].hi));
    }
  }

  // The buffer sizing is sufficient exactly under Safe.  A caller buffer of 16 bytes
  // and lengths whose sums do not wrap are enough.
  lemma BufferSizing(mem: seq<byte>, size: u32)
    requires |mem| >= 24 && |mem| >= size + 8 && HAL_RSP_SIZE <= size && size + 8 < U32_RANGE
    ensures Inside(Reads(mem, size), size + 8) && Inside(Writes(mem, size), size) <==> Safe(mem, size)
    ensures size >= 16 && (Carries(mem) ==> NeededSize(mem) < U32_RANGE) ==> Safe(mem, size)
  {
    var r, w := Reads(mem, size), Writes(mem, size);
    if HasTail(mem) {
      assert r[2] == Range(20, 24);
    }
    if Copies(mem, size) {
      if MadeKey(mem) {
        assert r[3] == Range(20, 20 + PayloadSize(mem));
        assert w[3] == Range(16, 16 + PayloadSize(mem));
      } else if CmdIdOf(mem) == FW_GET_PUBLIC_KEY {
        assert r[4] == Range(28, 28 + PayloadSize(mem));
        assert w[6] == Range(24 + PayloadSize(mem), 28 + PayloadSize(mem));
      } else {
        assert r[3] == Range(24, 24 + PayloadSize(mem));
        assert w[3] == Range(16, 16 + PayloadSize(mem));
      }
    }
  }

  // A reply that is not safe for the smallest caller buffers: the verdict of a verify
  // response lies beyond the response buffer allocated for a 12-byte caller buffer.
  lemma TwelveBytesAreNotEnough()
    ensures exists mem: seq<byte> {:trigger Reads(mem, 12)} ::
      |mem| == 24 && HasTail(mem) && !Inside(Reads(mem, 12), 20)
  {
    var mem: seq<byte> := Zeros(8) + Le32(FW_VERIFY_DATA) + Zeros(12);
    assert mem[8..12] == Le32(FW_VERIFY_DATA) && mem[12..16] == Le32(RESPONSE_SUCCESS);
    WordInField(mem, 8, FW_VERIFY_DATA);
    WordInField(mem, 12, RESPONSE_SUCCESS);
    assert Reads(mem, 12)[2] == Range(20, 24);
  }

  // ---------------------------------------------------------------- the firmware's layout

  function ReplyHeader(cmdId: u32, code: u32, outputSize: u32): (h: seq<byte>)
    ensures |h| == RESP_HEADER_SIZE
  {
    Le32(1) + Le32(CLASS_KEY_MASTER) + Le32(cmdId) + Le32(code) + Le32(outputSize)
  }

  lemma HeaderFields(cmdId: u32, code: u32, outputSize: u32, rest: seq<byte>)
    ensures var m := ReplyHeader(cmdId, code, outputSize) + rest;
            CmdIdOf(m) == cmdId && CodeOf(m) == code && U32At(m, 16) == outputSize && m[20..] == rest
  {
    var m := ReplyHeader(cmdId, code, outputSize) + rest;
    assert m[8..12] == Le32(cmdId) && m[12..16] == Le32(code) && m[16..20] == Le32(outputSize);
    WordInField(m, 8, cmdId);
    WordInField(m, 12, code);
    WordInField(m, 16, outputSize);
  }

  // A word at the front of what follows the header.
  lemma TailWord(m: seq<byte>, n: u32, rest: seq<byte>)
    requires |m| >= 20 && m[20..] == Le32(n) + rest
    ensures |m| == 24 + |rest| && U32At(m, 20) == n && m[24..] == rest
  {
    assert m[20..24] == m[20..][..4] == Le32(n);
    WordInField(m, 20, n);
    assert m[24..] == m[20..][4..];
  }

  // The bytes a reply declares itself to have.
  function DeclaredSize(reply: seq<byte>): nat
    requires |reply| >= RESP_HEADER_SIZE && (HasTail(reply) ==> |reply| >= 24)
  {
    if MadeKey(reply) then 20 + PayloadSize(reply)
    else if !HasTail(reply) then 20
    else if CmdIdOf(reply) == FW_GET_PUBLIC_KEY then 28 + PayloadSize(reply)
    else if CmdIdOf(reply) == FW_SIGN_DATA then 24 + PayloadSize(reply)
    else 24
  }

  // The reply holds all it declares.
  predicate Complete(reply: seq<byte>)
  {
    |reply| >= RESP_HEADER_SIZE && (HasTail(reply) ==> |reply| >= 24) && |reply| >= DeclaredSize(reply)
  }

  // ---------------------------------------------------------------- what the caller reads

  ghost predicate Ready(resp: seq<byte>, caller: seq<byte>, size: u32)
  {
    HAL_RSP_SIZE <= size <= |caller| && |resp| == size + 8 < U32_RANGE && Safe(resp, size)
  }

  // The two words in front of every answer with a length.
  lemma AnswerWords(caller: seq<byte>, length: u32, result: u32, payload: seq<byte>)
    requires |caller| >= 12 + |payload|
    ensures var out := Overwrite(caller, 4, LengthAndResult(length, result) + payload);
            && U32At(out, 4) == length && U32At(out, 8) == result && out[12..12 + |payload|] == payload
            && out[..4] == caller[..4] && out[12 + |payload|..] == caller[12 + |payload|..]
  {
    var d := LengthAndResult(length, result) + payload;
    var out := Overwrite(caller, 4, d);
    OverwriteAt(caller, 4, d);
    assert out[4..8] == out[4..4 + |d|][..4] == Le32(length);
    assert out[8..12] == out[4..4 + |d|][4..8] == Le32(result);
    assert out[12..12 + |payload|] == out[4..4 + |d|][8..] == payload;
    WordInField(out, 4, length);
    WordInField(out, 8, result);
  }

  predicate Listed(fwId: u32)
  {
    fwId in {FW_GEN_KEY, FW_IMPORT_KEY, FW_GET_PUBLIC_KEY, FW_SIGN_DATA, FW_VERIFY_DATA}
  }

  // The client's command that a firmware command id answers.
  function Answers(fwId: u32): u32
  {
    if fwId == FW_SIGN_DATA then KM_SIGN_DATA
    else if fwId == FW_VERIFY_DATA then KM_VERIFY_DATA
    else fwId
  }

  lemma ParseKeyBlob(id: u32, out: seq<byte>, b: seq<byte>, n: nat)
    requires id in {KM_GENERATE_KEYPAIR, KM_IMPORT_KEYPAIR} && n == 16 + |b| < U32_RANGE && n <= |out|
    requires U32At(out, 4) == n - 8 && U32At(out, 8) == KM_RESULT_SUCCESS
    requires out[12..n] == HalPayload(FwKeyBlob(b))
    ensures ParseHal(id, out[..n]) == Some(HalKeyBlob(b))
  {
    var o := out[..n];
    assert o[12..16] == out[12..n][..4] == Le32(|b|) && o[16..16 + |b|] == out[12..n][4..] == b;
    WordInField(o, 12, |b|);
    assert U32At(o, 4) == U32At(out, 4) && U32At(o, 8) == U32At(out, 8);
  }

  lemma ParseSignature(out: seq<byte>, s: seq<byte>, n: nat)
    requires n == 16 + |s| < U32_RANGE && n <= |out|
    requires U32At(out, 4) == n - 8 && U32At(out, 8) == KM_RESULT_SUCCESS
    requires out[12..n] == HalPayload(FwSignature(s))
    ensures ParseHal(KM_SIGN_DATA, out[..n]) == Some(HalSignature(s))
  {
    var o := out[..n];
    assert o[12..16] == out[12..n][..4] == Le32(|s|) && o[16..16 + |s|] == out[12..n][4..] == s;
    WordInField(o, 12, |s|);
    assert U32At(o, 4) == U32At(out, 4) && U32At(o, 8) == U32At(out, 8);
  }

  lemma ParsePublicKey(out: seq<byte>, m: seq<byte>, e: seq<byte>, n: nat)
    requires n == 24 + |m| + |e| < U32_RANGE && n <= |out|
    requires U32At(out, 4) == n - 8 && U32At(out, 8) == KM_RESULT_SUCCESS
    requires out[12..n] == HalPayload(FwPublicKey(m, e))
    ensures ParseHal(KM_GET_KEYPAIR_PUBLIC, out[..n]) == Some(HalPublicKey(KEY_TYPE_RSA, m, e))
  {
    var o, p := out[..n], out[12..n];
    PublicKeyLayout(p, m, e);
    assert o[12..16] == p[..4] && o[16..20] == p[4..8] && o[20..24] == p[8..12];
    assert o[24..24 + |m|] == p[12..12 + |m|] && o[24 + |m|..24 + |m| + |e|] == p[12 + |m|..];
    WordInField(o, 12, KEY_TYPE_RSA);
    WordInField(o, 16, |m|);
    WordInField(o, 20, |e|);
    assert U32At(o, 4) == U32At(out, 4) && U32At(o, 8) == U32At(out, 8);
  }

  lemma PublicKeyLayout(p: seq<byte>, m: seq<byte>, e: seq<byte>)
    requires |m| < U32_RANGE && |e| < U32_RANGE && p == HalPayload(FwPublicKey(m, e))
    ensures |p| == 12 + |m| + |e|
    ensures p[..4] == Le32(KEY_TYPE_RSA) && p[4..8] == Le32(|m|) && p[8..12] == Le32(|e|)
    ensures p[12..12 + |m|] == m && p[12 + |m|..] == e
  {
  }

  // The whole response round trip: a caller who reads its buffer by the HAL layout,
  // up to the reported length, finds the firmware's reply; everything after that
  // length, and the response id, is as it was.
  lemma ResponseRoundTrip(id: u32, resp: seq<byte>, caller: seq<byte>, size: u32)
    requires Ready(resp, caller, size)
    requires CodeOf(resp) == RESPONSE_SUCCESS ==> Listed(CmdIdOf(resp)) && id == Answers(CmdIdOf(resp))
    requires Translation(resp, caller, size).result == Success
    ensures var a := Translation(resp, caller, size);
            && ParseReply(resp).Some? && a.length <= size
            && ParseHal(id, a.rsp[..a.length]) == Some(HalMeaning(ParseReply(resp).value))
            && a.rsp[..4] == caller[..4] && a.rsp[a.length..] == caller[a.length..]
  {
    if Carries(resp) {
      CarriedRoundTrip(resp, caller, size);
    } else {
      StatusRoundTrip(resp, caller, size);
    }
  }

  lemma StatusRoundTrip(resp: seq<byte>, caller: seq<byte>, size: u32)
    requires Ready(resp, caller, size) && !Carries(resp)
    requires CodeOf(resp) == RESPONSE_SUCCESS ==> CmdIdOf(resp) == FW_VERIFY_DATA
    ensures var a := Translation(resp, caller, size);
            && a.result == Success && a.length == 12 && U32At(a.rsp, 4) == 4
            && a.rsp[..4] == caller[..4] && a.rsp[12..] == caller[12..]
            && ParseReply(resp).Some? && HalMeaning(ParseReply(resp).value) == HalStatus(U32At(a.rsp, 8))
            && (CodeOf(resp) != RESPONSE_SUCCESS ==> U32At(a.rsp, 8) != KM_RESULT_SUCCESS)
            && U32At(a.rsp[..12], 4) == 4 && U32At(a.rsp[..12], 8) == U32At(a.rsp, 8)
  {
    var a := Translation(resp, caller, size);
    var result := if CodeOf(resp) != RESPONSE_SUCCESS then FailureResult(CodeOf(resp))
                  else if U32At(resp, 20) != 0 then KM_RESULT_SUCCESS else KM_RESULT_FAILURE;
    assert LengthAndResult(4, result) + [] == LengthAndResult(4, result);
    AnswerWords(caller, 4, result, []);
  }

  lemma CarriedRoundTrip(resp: seq<byte>, caller: seq<byte>, size: u32)
    requires Ready(resp, caller, size) && Carries(resp)
    requires Translation(resp, caller, size).result == Success
    ensures var a := Translation(resp, caller, size);
            && ParseReply(resp).Some? && a.length <= size
            && ParseHal(Answers(CmdIdOf(resp)), a.rsp[..a.length]) == Some(HalMeaning(ParseReply(resp).value))
            && a.rsp[..4] == caller[..4] && a.rsp[a.length..] == caller[a.length..]
  {
    hide Overwrite, ParseHal, LengthAndResult;
    var a, n := Translation(resp, caller, size), NeededSize(resp);
    SafePayload(resp, size);
    var r := ParseReply(resp).value;
    AnswerWords(caller, n - 8, KM_RESULT_SUCCESS, HalPayload(r));
    match r
    case FwKeyBlob(b) => ParseKeyBlob(Answers(CmdIdOf(resp)), a.rsp, b, n);
    case FwPublicKey(m, e) => ParsePublicKey(a.rsp, m, e, n);
    case FwSignature(s) => ParseSignature(a.rsp, s, n);
  }

  // ---------------------------------------------------------------- lengths

  // Reported length and the length field in the buffer agree, on success as on the
  // too-small path, for every failure code and every listed command, modulo 2^32.
  lemma LengthsAgree(resp: seq<byte>, caller: seq<byte>, size: u32)
    requires Ready(resp, caller, size)
    requires CodeOf(resp) == RESPONSE_SUCCESS ==> Listed(CmdIdOf(resp))
    ensures var a := Translation(resp, caller, size);
            && Wrap32(U32At(a.rsp, 4) + 8) == a.length
            && (Carries(resp) ==> (U32At(a.rsp, 4) + 8 == NeededSize(resp) <==> NeededSize(resp) < U32_RANGE))
  {
    hide U32At, Overwrite, LengthAndResult, HalPayload;
    if Carries(resp) {
      var n := Wrap32(NeededSize(resp));
      if size < n {
        var field := Wrap32(n - 8);
        assert LengthAndResult(field, KM_RESULT_SUCCESS) + [] == LengthAndResult(field, KM_RESULT_SUCCESS);
        AnswerWords(caller, field, KM_RESULT_SUCCESS, []);
      } else {
        SafePayload(resp, size);
        AnswerWords(caller, n - 8, KM_RESULT_SUCCESS, HalPayload(ParseReply(resp).value));
      }
    } else {
      StatusRoundTrip(resp, caller, size);
    }
  }

  // A successful response to a command that is not listed leaves both lengths as the
  // caller had them.
  lemma UnlistedKeepsLengths(resp: seq<byte>, caller: seq<byte>, size: u32)
    requires Ready(resp, caller, size)
    requires CodeOf(resp) == RESPONSE_SUCCESS && !Listed(CmdIdOf(resp))
    ensures var a := Translation(resp, caller, size);
            a.result == Success && a.length == size && a.rsp[4..8] == caller[4..8]
  {
  }

  // What a caller buffer of each size gets of one reply of the firmware.
  function Delivered(reply: seq<byte>, size: u32): seq<byte>
    requires size + 8 < U32_RANGE
  {
    Filled(size + 8, reply)
  }

  lemma DeliveredWord(reply: seq<byte>, size1: u32, size2: u32, off: nat)
    requires size1 + 8 < U32_RANGE && size2 + 8 < U32_RANGE
    requires off + 4 <= size1 + 8 && off + 4 <= size2 + 8
    ensures U32At(Delivered(reply, size1), off) == U32At(Delivered(reply, size2), off)
  {
  }

  // What the library finds in its zeroed buffer is what the firmware sent exactly when
  // the firmware sent all that it declared.
  lemma DeliveredWhole(reply: seq<byte>, size: u32)
    requires HAL_RSP_SIZE <= size && size + 8 < U32_RANGE
    requires var r := Delivered(reply, size);
             Safe(r, size) && ParseReply(r).Some? && (Carries(r) ==> NeededSize(r) <= size)
    ensures ParseReply(Delivered(reply, size)) == ParseReply(reply) <==> Complete(reply)
  {
    hide U32At, Filled;
    var r := Delivered(reply, size);
    if |reply| >= RESP_HEADER_SIZE {
      DeliveredFront(reply, size, 8);
      DeliveredFront(reply, size, 12);
      DeliveredFront(reply, size, 16);
      if HasTail(reply) && |reply| >= 24 {
        DeliveredFront(reply, size, 20);
        if Complete(reply) && CmdIdOf(reply) == FW_GET_PUBLIC_KEY {
          DeliveredSlice(reply, size, 24, 28);
        }
      }
      if Complete(reply) && Carries(reply) {
        DeliveredSlice(reply, size, DeclaredSize(reply) - PayloadSize(reply), DeclaredSize(reply));
      }
    }
  }

  lemma DeliveredSlice(reply: seq<byte>, size: u32, lo: nat, hi: nat)
    requires size + 8 < U32_RANGE && lo <= hi <= |reply| && hi <= size + 8
    ensures Delivered(reply, size)[lo..hi] == reply[lo..hi]
  {
    var d, got := Delivered(reply, size), reply[..Min(|reply|, size + 8)];
    assert d[..|got|] == got;
    assert d[lo..hi] == d[..|got|][lo..hi] && reply[lo..hi] == got[lo..hi];
  }

  lemma DeliveredFront(reply: seq<byte>, size: u32, off: nat)
    requires size + 8 < U32_RANGE && off + 4 <= |reply| && off + 4 <= size + 8
    ensures U32At(Delivered(reply, size), off) == U32At(reply, off)
  {
    DeliveredSlice(reply, size, off, off + 4);
    AgreedWord(Delivered(reply, size), reply, off);
  }

  // The length left behind by a too-small answer is the least size that succeeds on
  // the same reply, and a retry with it succeeds and leaves it unchanged.
  lemma RetrySize(reply: seq<byte>, caller: seq<byte>, size: u32, caller': seq<byte>, size': u32)
    requires size + 8 < U32_RANGE && size' + 8 < U32_RANGE
    requires Ready(Delivered(reply, size), caller, size) && Ready(Delivered(reply, size'), caller', size')
    requires Translation(Delivered(reply, size), caller, size).result == RspBufferTooSmall
    ensures var n := Translation(Delivered(reply, size), caller, size).length;
            && size < n
            && (Translation(Delivered(reply, size'), caller', size').result == Success <==> n <= size')
            && (n <= size' ==> Translation(Delivered(reply, size'), caller', size').length == n)
  {
    hide U32At, Overwrite, HalPayload, LengthAndResult, ParseReply, Filled;
    DeliveredWord(reply, size, size', 8);
    DeliveredWord(reply, size, size', 12);
    DeliveredWord(reply, size, size', 16);
    if size >= 16 && size' >= 16 {
      DeliveredWord(reply, size, size', 20);
    }
  }

  // ---------------------------------------------------------------- the response id

  lemma RspIdOf(id: u32, code: u32)
    requires Known(id)
    ensures RspId(code) == KM_RSP_FLAG + id <==> code == FwId(id)
  {
  }
}
