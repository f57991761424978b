/** What the result of a call says about the exchange behind it: when a success means
    that the firmware answered, and that its whole answer arrived. */
module Delivery {
  import opened Bytes
  import opened Layout
  import opened Requests
  import opened RequestProofs
  import opened Responses
  import opened ResponseProofs
  import opened Transport
  import opened Keymaster

  // ---------------------------------------------------------------- one call

  // The opaque size in force for the command of a call.
  function SizeFor(st: State, call: Call): u32
  {
    LearnCaps(st, call.env).state.keyOpaqueSize
  }

  // The size of the request that a call submits.
  function SentSize(st: State, call: Call): nat
    requires ArgumentCheck(call) == Success && Known(U32At(call.cmd.value, 0))
  {
    RequestSize(U32At(call.cmd.value, 0), SizeFor(st, call))
  }

  // The call gets as far as giving its request to the driver.
  ghost predicate Submitted(st: State, call: Call)
    requires Legal(st, call)
  {
    && ArgumentCheck(call) == Success && LearnCaps(st, call.env).result == Success
    && Submits(call.cmd.value, SizeFor(st, call), call.env)
  }

  // The response buffer of a call after its exchange.
  ghost function ResponseTo(st: State, call: Call): (r: seq<byte>)
    requires ArgumentCheck(call) == Success && Known(U32At(call.cmd.value, 0))
    ensures |r| == call.rspLength.value + 8
  {
    ResponseOf(call.env.exchange, SentSize(st, call), call.rspLength.value)
  }

  // The call succeeded, and its response buffer holds a response to its own command.
  ghost predicate Answered(st: State, call: Call)
    requires Legal(st, call)
  {
    && Step(st, call).result == Success
    && ArgumentCheck(call) == Success && Known(U32At(call.cmd.value, 0))
    && var r := ResponseTo(st, call);
       CodeOf(r) == RESPONSE_SUCCESS ==> Listed(CmdIdOf(r)) && Answers(CmdIdOf(r)) == U32At(call.cmd.value, 0)
  }

  lemma TransactSuccess(keyOpaqueSize: u32, cmd: seq<byte>, rsp: seq<byte>, size: u32, env: Env)
    requires HAL_CMD_SIZE <= |cmd| && HAL_RSP_SIZE <= size && Sound(keyOpaqueSize, cmd, rsp, size, env)
    requires Transact(keyOpaqueSize, cmd, rsp, size, env).answer.result in {Success, RspBufferTooSmall}
    ensures Submits(cmd, keyOpaqueSize, env)
    ensures var n := RequestSize(U32At(cmd, 0), keyOpaqueSize);
            var r := ResponseOf(env.exchange, n, size);
            && ExchangeResult(env.exchange, n, size + 8) == Success && size + 8 < U32_RANGE && Safe(r, size)
            && Transact(keyOpaqueSize, cmd, rsp, size, env).answer
                 == Translation(r, Overwrite(rsp, 0, Le32(RspId(CodeOf(r)))), size)
  {
    hide Wire, Translation, Translate, HalOf, Received;
    if Known(U32At(cmd, 0)) && env.requestMemory && Accepted(cmd, keyOpaqueSize) {
      AcceptedFits(cmd, keyOpaqueSize);
    }
  }

  // A submitted call ends with success or "too small" exactly when reply bytes were
  // delivered to it, or when the driver took no byte of its request: then nothing was
  // received, the call still succeeds, and the length is left as it was.  Calls that
  // submit nothing never succeed.
  lemma SucceedsIff(st: State, call: Call)
    requires Legal(st, call)
    ensures Step(st, call).result == Success ==> Submitted(st, call)
    ensures Submitted(st, call) ==>
      var o, x, n := Step(st, call), call.env.exchange, SentSize(st, call);
      && (o.result in {Success, RspBufferTooSmall} <==>
            && x.handle && x.fd > 0 && x.ioctl == 0 && x.selected > 0 && x.isSet
            && (x.written == 0 || (x.written == n && x.reply.Some?)))
      && (o.result == RspBufferTooSmall <==>
            && Delivers(x, n) && Carries(ResponseTo(st, call))
            && call.rspLength.value < Wrap32(NeededSize(ResponseTo(st, call))))
      && (NothingTaken(x) ==> !Delivers(x, n) && o.result == Success && o.rspLength == call.rspLength)
  {
    hide Wire, Translate, HalOf, Overwrite, U32At, NeededSize, Carries, CapsResult, CapsSize, Translation, Safe,
         Received;
    if ArgumentCheck(call) == Success && LearnCaps(st, call.env).result == Success {
      var cmd, k := call.cmd.value, SizeFor(st, call);
      if Submitted(st, call) {
        AcceptedFits(cmd, k);
        ExchangeOutcomes(call.env.exchange, SentSize(st, call), call.rspLength.value + 8);
        TransactOutcome(k, cmd, call.rsp.value, call.rspLength.value, call.env);
      } else if Known(U32At(cmd, 0)) && call.env.requestMemory && Accepted(cmd, k) {
        AcceptedFits(cmd, k);
      }
    }
  }

  // The answer to a request that was submitted, by what the exchange delivered.
  lemma TransactOutcome(keyOpaqueSize: u32, cmd: seq<byte>, rsp: seq<byte>, size: u32, env: Env)
    requires HAL_CMD_SIZE <= |cmd| && HAL_RSP_SIZE <= size && Sound(keyOpaqueSize, cmd, rsp, size, env)
    requires Submits(cmd, keyOpaqueSize, env)
    ensures var n := RequestSize(U32At(cmd, 0), keyOpaqueSize);
            var r, a := ResponseOf(env.exchange, n, size), Transact(keyOpaqueSize, cmd, rsp, size, env).answer;
            && (a.result == RspBufferTooSmall <==>
                  ExchangeResult(env.exchange, n, size + 8) == Success && Carries(r) && size < Wrap32(NeededSize(r)))
            && (ExchangeResult(env.exchange, n, size + 8) == Success <==> a.result in {Success, RspBufferTooSmall})
            && (NothingTaken(env.exchange) ==> a.result == Success && a.length == size && !Carries(r))
  {
    hide Wire, Translate, HalOf, Overwrite, U32At, Translation, Received;
    AcceptedFits(cmd, keyOpaqueSize);
    var n := RequestSize(U32At(cmd, 0), keyOpaqueSize);
    var r := ResponseOf(env.exchange, n, size);
    if ExchangeResult(env.exchange, n, size + 8) == Success {
      TranslationOutcome(r, Overwrite(rsp, 0, Le32(RspId(CodeOf(r)))), size);
    }
    if NothingTaken(env.exchange) {
      NothingReceived(env.exchange, n, size);
      BlankResponse(size + 8);
    }
  }

  lemma NothingReceived(x: Exchange, n: nat, size: u32)
    requires NothingTaken(x) && n > 0
    ensures ResponseOf(x, n, size) == Zeros(size + 8) && ExchangeResult(x, n, size + 8) == Success
  {
  }

  lemma TranslationOutcome(resp: seq<byte>, caller: seq<byte>, size: u32)
    requires Ready(resp, caller, size)
    ensures var a := Translation(resp, caller, size);
            && a.result in {Success, RspBufferTooSmall}
            && (a.result == RspBufferTooSmall <==> Carries(resp) && size < Wrap32(NeededSize(resp)))
            && (CodeOf(resp) == RESPONSE_SUCCESS && !Listed(CmdIdOf(resp)) ==> a.length == size)
  {
  }

  lemma BlankResponse(n: nat)
    requires n >= RESP_HEADER_SIZE
    ensures !Carries(Zeros(n)) && CodeOf(Zeros(n)) == RESPONSE_SUCCESS && CmdIdOf(Zeros(n)) == FW_GET_CAPS
  {
  }

  // What the caller of a whole call reads from its buffer is what the response buffer
  // holds, and the bytes past the reported length are untouched.  It is what the
  // firmware said exactly when the firmware's reply was complete.
  lemma CallRoundTrip(st: State, call: Call)
    requires Legal(st, call) && Answered(st, call)
    ensures var o, id := Step(st, call), U32At(call.cmd.value, 0);
            && o.state.capsObtained && call.rspLength.value + 8 < U32_RANGE
            && Delivers(call.env.exchange, SentSize(st, call))
            && o.rsp.Some? && o.rspLength.Some? && o.rspLength.value <= call.rspLength.value <= |o.rsp.value|
            && o.rspLength.value <= |call.rsp.value| == |o.rsp.value|
            && o.rsp.value[o.rspLength.value..] == call.rsp.value[o.rspLength.value..]
            && var read := ParseHal(id, o.rsp.value[..o.rspLength.value]);
               && ParseReply(ResponseTo(st, call)).Some?
               && read == Some(HalMeaning(ParseReply(ResponseTo(st, call)).value))
               && var reply := call.env.exchange.reply.value;
                  && (Complete(reply) <==> ParseReply(reply) == ParseReply(ResponseTo(st, call)))
                  && (Complete(reply) <==>
                        ParseReply(reply).Some? && read == Some(HalMeaning(ParseReply(reply).value)))
  {
    hide Transact, Sound, ParseHal, ParseReply, Translation, Overwrite, Received, CapsSize, CapsResult, U32At,
         Complete, Filled;
    var l := LearnCaps(st, call.env);
    var cmd, rsp, size, x := call.cmd.value, call.rsp.value, call.rspLength.value, call.env.exchange;
    var k := l.state.keyOpaqueSize;
    TransactSuccess(k, cmd, rsp, size, call.env);
    var r := ResponseTo(st, call);
    SoundSize(k, cmd, rsp, size, call.env);
    var marked := Overwrite(rsp, 0, Le32(RspId(CodeOf(r))));
    ResponseRoundTrip(U32At(cmd, 0), r, marked, size);
    ReportedSize(r, marked, size);
    var n := Translation(r, marked, size).length;
    OverwriteElsewhere(rsp, 0, Le32(RspId(CodeOf(r))), n, |rsp|);
    assert rsp[n..|rsp|] == rsp[n..] && marked[n..|rsp|] == marked[n..];
    AnsweredDelivers(st, call);
    ResponseIsDelivered(x, SentSize(st, call), size);
    DeliveredWhole(x.reply.value, size);
    CompleteParses(x.reply.value);
  }

  lemma AnsweredDelivers(st: State, call: Call)
    requires Legal(st, call) && Answered(st, call)
    ensures Delivers(call.env.exchange, SentSize(st, call))
  {
    hide Step, Sound;
    SucceedsIff(st, call);
    BlankResponse(call.rspLength.value + 8);
  }

  lemma CompleteParses(reply: seq<byte>)
    ensures Complete(reply) <==> ParseReply(reply).Some?
  {
  }

  lemma ResponseIsDelivered(x: Exchange, n: nat, size: u32)
    requires size + 8 < U32_RANGE
    ensures ResponseOf(x, n, size) == Delivered(if Delivers(x, n) then x.reply.value else [], size)
  {
  }

  // The library selects the response id by the response code.  The id the HAL
  // documents, command id with the top bit set, is in the buffer of a successful call
  // exactly when that code happens to be the number of the command; when the firmware
  // reports success, the id is zero.
  lemma ResponseIdIff(st: State, call: Call)
    requires Legal(st, call) && Step(st, call).result == Success
    ensures Submitted(st, call) && Step(st, call).rsp.Some? && |Step(st, call).rsp.value| >= HAL_RSP_SIZE
    ensures var id, code, out := U32At(call.cmd.value, 0), CodeOf(ResponseTo(st, call)), Step(st, call).rsp.value;
            && (U32At(out, 0) == KM_RSP_FLAG + id <==> code == FwId(id))
            && (code == RESPONSE_SUCCESS ==> U32At(out, 0) == 0)
  {
    hide Transact, Sound, Overwrite, Received, CapsSize, CapsResult, U32At;
    var cmd, rsp, size := call.cmd.value, call.rsp.value, call.rspLength.value;
    SucceedsIff(st, call);
    TransactSuccess(SizeFor(st, call), cmd, rsp, size, call.env);
    SoundSize(SizeFor(st, call), cmd, rsp, size, call.env);
    var r := ResponseTo(st, call);
    var marked := Overwrite(rsp, 0, Le32(RspId(CodeOf(r))));
    var out := Translation(r, marked, size).rsp;
    OverwriteAt(rsp, 0, Le32(RspId(CodeOf(r))));
    TranslationKeepsId(r, marked, size);
    assert out[0..4] == out[..4] == marked[..4] == marked[0..4] == Le32(RspId(CodeOf(r)));
    WordInField(out, 0, RspId(CodeOf(r)));
    RspIdOf(U32At(cmd, 0), CodeOf(r));
  }

  lemma TranslationKeepsId(resp: seq<byte>, caller: seq<byte>, size: u32)
    requires Ready(resp, caller, size)
    ensures |Translation(resp, caller, size).rsp| == |caller| && Translation(resp, caller, size).rsp[..4] == caller[..4]
  {
    hide U32At, LengthAndResult, HalPayload, ParseReply;
    if Copies(resp, size) {
      SafePayload(resp, size);
    }
  }

  lemma SoundSize(keyOpaqueSize: u32, cmd: seq<byte>, rsp: seq<byte>, size: u32, env: Env)
    requires HAL_CMD_SIZE <= |cmd| && HAL_RSP_SIZE <= size && Sound(keyOpaqueSize, cmd, rsp, size, env)
    ensures size <= |rsp| && Readable(cmd, keyOpaqueSize) && SizeFits(U32At(cmd, 0), keyOpaqueSize)
  {
  }

  lemma ReportedSize(resp: seq<byte>, caller: seq<byte>, size: u32)
    requires Ready(resp, caller, size) && Translation(resp, caller, size).result == Success
    ensures |Translation(resp, caller, size).rsp| == |caller| && 12 <= Translation(resp, caller, size).length <= size
    ensures Carries(resp) ==> NeededSize(resp) <= size
  {
    hide Overwrite, ParseReply, HalPayload, LengthAndResult, U32At;
    if Carries(resp) {
      SafePayload(resp, size);
    }
  }

  // ---------------------------------------------------------------- what success does not mean

  // A client that generates a key with opaque size zero and a buffer of 24 bytes.  Should
  // the capabilities not be known yet, caps is the exchange that asks for them.
  const READY := State(true, 0)
  const GENERATE := Generate(KEY_TYPE_RSA, 2048, 0, Zeros(8))

  function GenerateCallAfter(caps: Exchange, x: Exchange): Call
  {
    Call(Some(HalBytes(GENERATE)), Some(Zeros(24)), Some(24), Env(true, caps, true, true, x))
  }

  function GenerateCall(x: Exchange): Call
  {
    GenerateCallAfter(Sent(0, None), x)
  }

  function Sent(written: nat, reply: Option<seq<byte>>): Exchange
  {
    Exchange(true, 3, 0, written, 1, true, reply)
  }

  lemma GenerateCallLegal(caps: Exchange, x: Exchange)
    requires ExchangeResult(x, 20, 32) == Success ==> Safe(ResponseOf(x, 20, 24), 24)
    ensures var call := GenerateCallAfter(caps, x);
            && ArgumentCheck(call) == Success && U32At(call.cmd.value, 0) == KM_GENERATE_KEYPAIR
            && Legal(READY, call) && Submitted(READY, call) && SentSize(READY, call) == 20
  {
    hide U32At, HalBytes, Safe;
    HalBytesUnderstood(GENERATE, [], 0);
    CommandStart(GENERATE, []);
    assert HalBytes(GENERATE) + [] == HalBytes(GENERATE);
  }

  lemma Arrival(x: Exchange, n: nat, b: seq<byte>, size: u32)
    requires Delivers(x, n) && x.reply == Some(b) && |b| <= size + 8
    ensures ResponseOf(x, n, size) == b + Zeros(size + 8 - |b|)
  {
  }

  // Its answer to a reply that is no more than a header.
  lemma HeaderAnswered(code: u32, size: u32) returns (call: Call)
    requires size <= 8
    ensures call == GenerateCall(Sent(20, Some(ReplyHeader(FW_GEN_KEY, code, size))))
    ensures Legal(READY, call) && Submitted(READY, call) && Step(READY, call).result == Success
    ensures U32At(call.cmd.value, 0) == KM_GENERATE_KEYPAIR
    ensures var r := ResponseTo(READY, call);
            && r == call.env.exchange.reply.value + Zeros(12)
            && CmdIdOf(r) == FW_GEN_KEY && CodeOf(r) == code && U32At(r, 16) == size
  {
    hide Step, Legal, U32At, Safe, Received, HalBytes;
    var reply := ReplyHeader(FW_GEN_KEY, code, size);
    var x := Sent(20, Some(reply));
    call := GenerateCall(x);
    HeaderFields(FW_GEN_KEY, code, size, Zeros(12));
    Arrival(x, 20, reply, 24);
    SmallKeySafe(reply + Zeros(12));
    GenerateCallLegal(Sent(0, None), x);
    SucceedsIff(READY, call);
  }

  lemma SmallKeySafe(resp: seq<byte>)
    requires |resp| == 32 && CmdIdOf(resp) == FW_GEN_KEY && U32At(resp, 16) <= 8
    ensures Safe(resp, 24) && (Carries(resp) ==> NeededSize(resp) <= 24)
  {
  }

  // A successful call that answers eight key bytes of which the firmware sent none: its
  // reply ended with the header.
  lemma CutReplySucceeds()
    ensures var reply := ReplyHeader(FW_GEN_KEY, RESPONSE_SUCCESS, 8);
            var call := GenerateCall(Sent(20, Some(reply)));
            && Legal(READY, call) && Answered(READY, call) && ParseReply(reply) == None
            && var o := Step(READY, call);
               && o.rsp.Some? && o.rspLength.Some? && o.rspLength.value <= |o.rsp.value|
               && ParseHal(KM_GENERATE_KEYPAIR, o.rsp.value[..o.rspLength.value]) == Some(HalKeyBlob(Zeros(8)))
  {
    hide Step, Legal, U32At, ParseHal;
    var call := HeaderAnswered(RESPONSE_SUCCESS, 8);
    var r, reply := ResponseTo(READY, call), call.env.exchange.reply.value;
    assert r[20..28] == Zeros(8);
    CallRoundTrip(READY, call);
    HeaderFields(FW_GEN_KEY, RESPONSE_SUCCESS, 8, []);
    assert reply + [] == reply;
  }

  // A successful call of whose request the driver took nothing.
  lemma NothingTakenSucceeds()
    ensures var call := GenerateCall(Sent(0, None));
            && Legal(READY, call) && Submitted(READY, call)
            && Step(READY, call).result == Success && Step(READY, call).rspLength == Some(24)
  {
    var call := GenerateCall(Sent(0, None));
    BlankResponse(32);
    GenerateCallLegal(Sent(0, None), call.env.exchange);
    SucceedsIff(READY, call);
  }

  // A key is generated, and the response id is zero; generating it fails, and the
  // response id is the documented one, because the code for failure is 1.
  lemma ResponseIdsOfSuccessAndFailure(code: u32)
    requires code in {RESPONSE_SUCCESS, RESPONSE_FAILURE}
    ensures var call := GenerateCall(Sent(20, Some(ReplyHeader(FW_GEN_KEY, code, 0))));
            && Legal(READY, call) && Step(READY, call).result == Success
            && Step(READY, call).rsp.Some? && |Step(READY, call).rsp.value| >= HAL_RSP_SIZE
            && U32At(Step(READY, call).rsp.value, 0)
                 == if code == RESPONSE_SUCCESS then 0 else KM_RSP_FLAG + KM_GENERATE_KEYPAIR
  {
    hide Step, Legal, U32At;
    var call := HeaderAnswered(code, 0);
    ResponseIdIff(READY, call);
  }
}
