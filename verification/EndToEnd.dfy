/** A client and the firmware talking through the library over a working transport. */
module EndToEnd {
  import opened Bytes
  import opened Layout
  import opened Requests
  import opened RequestProofs
  import opened Responses
  import opened ResponseProofs
  import opened Transport
  import opened Keymaster
  import opened Delivery

  // ---------------------------------------------------------------- the firmware's answer

  // The reply belongs to the command: an error, or the payload of its kind.
  predicate Suits(id: u32, r: FwReply)
  {
    match r
    case FwKeyBlob(_) => id in {KM_GENERATE_KEYPAIR, KM_IMPORT_KEYPAIR}
    case FwPublicKey(_, e) => id == KM_GET_KEYPAIR_PUBLIC && |e| == 4
    case FwSignature(_) => id == KM_SIGN_DATA
    case FwVerified(_) => id == KM_VERIFY_DATA
    case FwUnlisted => false
    case FwError(code) => Known(id) && code != RESPONSE_SUCCESS
  }

  // The caller buffer that the reply needs.
  function Takes(r: FwReply): nat
  {
    match r
    case FwKeyBlob(b) => 16 + |b|
    case FwPublicKey(m, _) => 28 + |m|
    case FwSignature(s) => 16 + |s|
    case FwVerified(_) => 16
    case _ => 12
  }

  // The response as the firmware lays it out.
  function ReplyBytes(id: u32, r: FwReply): seq<byte>
    requires Suits(id, r) && Takes(r) < U32_RANGE
  {
    match r
    case FwKeyBlob(b) => ReplyHeader(FwId(id), RESPONSE_SUCCESS, |b|) + b
    case FwPublicKey(m, e) => ReplyHeader(FwId(id), RESPONSE_SUCCESS, 8) + (Le32(|m|) + e + m)
    case FwSignature(s) => ReplyHeader(FwId(id), RESPONSE_SUCCESS, 8) + (Le32(|s|) + s)
    case FwVerified(ok) => ReplyHeader(FwId(id), RESPONSE_SUCCESS, 4) + Le32(if ok then 1 else 0)
    case FwError(code) => ReplyHeader(FwId(id), code, 0)
  }

  lemma TailParts(s: seq<byte>, e: seq<byte>, n: seq<byte>, rest: seq<byte>)
    requires s == e + n + rest
    ensures s[..|e|] == e && s[|e|..|e| + |n|] == n
  {
  }

  // The response buffer after such a reply arrived.
  function Arrived(id: u32, r: FwReply, pad: nat): seq<byte>
    requires Suits(id, r) && Takes(r) < U32_RANGE
  {
    ReplyBytes(id, r) + Zeros(pad)
  }

  lemma KeyBlobArrives(id: u32, b: seq<byte>, pad: nat)
    requires Suits(id, FwKeyBlob(b)) && 16 + |b| < U32_RANGE
    ensures var m := Arrived(id, FwKeyBlob(b), pad);
            ParseReply(m) == Some(FwKeyBlob(b)) && CmdIdOf(m) == FwId(id) && CodeOf(m) == RESPONSE_SUCCESS
            && U32At(m, 16) == |b|
  {
    var m := Arrived(id, FwKeyBlob(b), pad);
    HeaderFields(FwId(id), RESPONSE_SUCCESS, |b|, b + Zeros(pad));
    assert m == ReplyHeader(FwId(id), RESPONSE_SUCCESS, |b|) + (b + Zeros(pad));
    assert m[20..20 + |b|] == m[20..][..|b|] == b;
  }

  lemma PublicKeyArrives(id: u32, n: seq<byte>, e: seq<byte>, pad: nat)
    requires Suits(id, FwPublicKey(n, e)) && 28 + |n| < U32_RANGE
    ensures var m := Arrived(id, FwPublicKey(n, e), pad);
            ParseReply(m) == Some(FwPublicKey(n, e)) && CmdIdOf(m) == FwId(id) && CodeOf(m) == RESPONSE_SUCCESS
            && |m| >= 24 && U32At(m, 20) == |n|
  {
    hide U32At, Le32, Zeros;
    var m := Arrived(id, FwPublicKey(n, e), pad);
    var tail := e + n + Zeros(pad);
    HeaderFields(FwId(id), RESPONSE_SUCCESS, 8, Le32(|n|) + tail);
    assert m == ReplyHeader(FwId(id), RESPONSE_SUCCESS, 8) + (Le32(|n|) + tail);
    TailWord(m, |n|, tail);
    TailParts(m[24..], e, n, Zeros(pad));
    assert m[24..28] == m[24..][..4] && m[28..28 + |n|] == m[24..][4..4 + |n|];
  }

  lemma SignatureArrives(id: u32, s: seq<byte>, pad: nat)
    requires Suits(id, FwSignature(s)) && 16 + |s| < U32_RANGE
    ensures var m := Arrived(id, FwSignature(s), pad);
            ParseReply(m) == Some(FwSignature(s)) && CmdIdOf(m) == FwId(id) && CodeOf(m) == RESPONSE_SUCCESS
            && |m| >= 24 && U32At(m, 20) == |s|
  {
    var m := Arrived(id, FwSignature(s), pad);
    var tail := s + Zeros(pad);
    HeaderFields(FwId(id), RESPONSE_SUCCESS, 8, Le32(|s|) + tail);
    assert m == ReplyHeader(FwId(id), RESPONSE_SUCCESS, 8) + (Le32(|s|) + tail);
    TailWord(m, |s|, tail);
    assert m[24..24 + |s|] == m[24..][..|s|] == s;
  }

  lemma StatusArrives(id: u32, r: FwReply, pad: nat)
    requires Suits(id, r) && (r.FwVerified? || r.FwError?)
    ensures var m := Arrived(id, r, pad);
            && ParseReply(m) == Some(r) && CmdIdOf(m) == FwId(id)
            && CodeOf(m) == (if r.FwError? then r.code else RESPONSE_SUCCESS)
  {
    var m := Arrived(id, r, pad);
    match r
    case FwVerified(ok) =>
      var n := if ok then 1 else 0;
      HeaderFields(FwId(id), RESPONSE_SUCCESS, 4, Le32(n) + Zeros(pad));
      assert m == ReplyHeader(FwId(id), RESPONSE_SUCCESS, 4) + (Le32(n) + Zeros(pad));
      TailWord(m, n, Zeros(pad));
    case FwError(code) => HeaderFields(FwId(id), code, 0, Zeros(pad));
  }

  // The library's view of an arrived reply: parsed as meant, safe and needing no more
  // than the caller provided.
  lemma ReplyArrives(id: u32, r: FwReply, pad: nat, size: u32)
    requires Suits(id, r) && Takes(r) <= size && size + 8 < U32_RANGE && |Arrived(id, r, pad)| == size + 8
    ensures var m := Arrived(id, r, pad);
            && ParseReply(m) == Some(r) && Safe(m, size) && (Carries(m) ==> NeededSize(m) <= size)
            && (CodeOf(m) == RESPONSE_SUCCESS ==> Listed(CmdIdOf(m)) && Answers(CmdIdOf(m)) == id)
  {
    hide ReplyBytes, ParseReply, U32At;
    match r
    case FwKeyBlob(b) => KeyBlobArrives(id, b, pad);
    case FwPublicKey(m, e) => PublicKeyArrives(id, m, e, pad);
    case FwSignature(s) => SignatureArrives(id, s, pad);
    case FwVerified(_) => StatusArrives(id, r, pad);
    case FwError(_) => StatusArrives(id, r, pad);
  }

  lemma ReplySize(id: u32, r: FwReply)
    requires Suits(id, r) && Takes(r) < U32_RANGE
    ensures |ReplyBytes(id, r)| <= Takes(r) + 8
  {
  }

  // ---------------------------------------------------------------- the whole exchange

  // A call of a client over a transport that works, answered by the firmware with r.
  ghost predicate Works(k: u32, c: HalCommand, r: FwReply, call: Call, tail: seq<byte>)
  {
    && Encodable(c) && Fits(c, k) && call.cmd == Some(HalBytes(c) + tail)
    && SizeFits(CommandId(c), k) && RequestSize(CommandId(c), k) <= MAX_HECI_MSG_SIZE
    && call.rsp.Some? && call.rspLength.Some? && call.rspLength.value <= |call.rsp.value|
    && call.rspLength.value + 8 < U32_RANGE
    && Suits(CommandId(c), r) && Takes(r) <= call.rspLength.value
    && call.env.requestMemory && call.env.responseMemory
    && Delivers(call.env.exchange, RequestSize(CommandId(c), k))
    && call.env.exchange.reply == Some(ReplyBytes(CommandId(c), r))
  }

  // The firmware reads the client's command, and the client reads the firmware's answer.
  lemma ClientMeetsFirmware(k: u32, c: HalCommand, r: FwReply, call: Call, tail: seq<byte>)
    requires Works(k, c, r, call, tail)
    ensures var st := State(true, k);
            && Legal(st, call) && Answered(st, call)
            && var o := Step(st, call);
               && |o.events| == 1 && o.events[0].Written?
               && ParseFw(o.events[0].message).Some? && Recovers(ParseFw(o.events[0].message).value, c, k)
               && o.rsp.Some? && o.rspLength.Some? && o.rspLength.value <= |o.rsp.value|
               && ParseHal(CommandId(c), o.rsp.value[..o.rspLength.value]) == Some(HalMeaning(r))
  {
    hide Wire, Translate, HalOf, Translation, Overwrite, ReplyBytes, Received, ParseReply, ParseHal, ParseFw, HalBytes,
         U32At, Recovers, Takes;
    var st, id, size, x := State(true, k), CommandId(c), call.rspLength.value, call.env.exchange;
    var cmd := call.cmd.value;
    HalBytesUnderstood(c, tail, k);
    CommandStart(c, tail);
    AcceptedFits(cmd, k);
    RequestRoundTrip(cmd, k);
    var n := RequestSize(id, k);
    ResponseArrives(x, n, id, r, size);
    SmallestTakes(r);
    var resp := ResponseOf(x, n, size);
    TranslationWorks(resp, Overwrite(call.rsp.value, 0, Le32(RspId(CodeOf(resp)))), size);
    CallRoundTrip(st, call);
  }

  lemma SmallestTakes(r: FwReply)
    ensures Takes(r) >= 12
  {
  }

  lemma ResponseArrives(x: Exchange, n: nat, id: u32, r: FwReply, size: u32)
    requires Delivers(x, n) && Suits(id, r) && Takes(r) <= size && size + 8 < U32_RANGE
    requires x.reply == Some(ReplyBytes(id, r))
    ensures ExchangeResult(x, n, size + 8) == Success
    ensures var m := ResponseOf(x, n, size);
            && ParseReply(m) == Some(r) && Safe(m, size) && (Carries(m) ==> NeededSize(m) <= size)
            && (CodeOf(m) == RESPONSE_SUCCESS ==> Listed(CmdIdOf(m)) && Answers(CmdIdOf(m)) == id)
  {
    ReplySize(id, r);
    var b := ReplyBytes(id, r);
    var pad := size + 8 - |b|;
    assert b[..|b|] == b;
    Arrival(x, n, b, size);
    assert ResponseOf(x, n, size) == Arrived(id, r, pad);
    ReplyArrives(id, r, pad, size);
    ExchangeSucceedsIff(x, n, size + 8);
  }

  lemma TranslationWorks(resp: seq<byte>, caller: seq<byte>, size: u32)
    requires Ready(resp, caller, size) && (Carries(resp) ==> NeededSize(resp) <= size)
    ensures Translation(resp, caller, size).result == Success
  {
  }
}
