/** What a call of the library does, told by its raw inputs: the words of the command and
    of the reply, and what each call of the system gave. */
module Outcomes {
  import opened Bytes
  import opened Layout
  import opened Requests
  import opened RequestProofs
  import opened Responses
  import opened ResponseProofs
  import opened Transport
  import opened Keymaster
  import opened Protocol
  import opened Delivery

  // ---------------------------------------------------------------- raw conditions

  // The call ends with this result and does nothing else.
  ghost predicate Quiet(st: State, call: Call, result: SepResult)
    requires Legal(st, call)
  {
    Step(st, call) == Outcome(result, st, call.rsp, call.rspLength, [])
  }

  predicate GoodArguments(call: Call)
  {
    && call.cmd.Some? && call.rsp.Some? && call.rspLength.Some?
    && |call.cmd.value| >= 8 && call.rspLength.value >= 12
  }

  predicate Opens(x: Exchange)
  {
    x.handle && x.fd != -1 && x.ioctl == 0
  }

  // An exchange of n bytes over an open connection that counts as successful.
  predicate GoesThrough(x: Exchange, n: nat)
  {
    x.fd > 0 && x.selected > 0 && x.isSet && (x.written == 0 || (x.written == n && x.reply.Some?))
  }

  predicate BadParameters(cmd: seq<byte>, keyOpaqueSize: u32)
    requires |cmd| >= 8
  {
    var id, n := U32At(cmd, 0), U32At(cmd, 4);
    || (id == 1 && (n < 20 || (|cmd| >= 12 && U32At(cmd, 8) != 1)))
    || (id == 2 && (n < 16 ||
          (|cmd| >= 24 && (U32At(cmd, 16) > 4 || U32At(cmd, 12) > 256 || U32At(cmd, 20) > 256))))
    || (id == 3 && n < 4 + keyOpaqueSize)
    || (id == 6 && n < 8)
    || (id == 7 && n < 12)
  }

  predicate BadSizes(cmd: seq<byte>, keyOpaqueSize: u32)
    requires |cmd| >= 8
  {
    var id, n := U32At(cmd, 0), U32At(cmd, 4);
    || (id == 6 && n >= 8 && |cmd| >= 16 && (U32At(cmd, 12) > 256 || U32At(cmd, 8) > keyOpaqueSize))
    || (id == 7 && n >= 12 && |cmd| >= 20 &&
          (U32At(cmd, 12) > 256 || U32At(cmd, 16) > 256 || U32At(cmd, 8) > keyOpaqueSize))
  }

  function RequestLength(id: u32, keyOpaqueSize: u32): nat
  {
    if id == 1 then 20 + keyOpaqueSize
    else if id == 2 then 532
    else if id == 3 then 12 + keyOpaqueSize
    else if id == 6 then 272 + keyOpaqueSize
    else 532 + keyOpaqueSize
  }

  // Class, command id and InputSize of the request for a command, and its length.
  predicate HeadOf(m: seq<byte>, id: u32, keyOpaqueSize: u32)
  {
    && |m| == RequestLength(id, keyOpaqueSize) >= 12
    && U32At(m, 0) == 1
    && U32At(m, 4) == (if id == 6 then 5 else if id == 7 then 6 else id)
    && U32At(m, 8) == (if id == 1 then 8 else if id == 2 then 520 else if id == 3 then keyOpaqueSize
                       else if id == 6 then 260 + keyOpaqueSize else 520 + keyOpaqueSize)
  }

  // ---------------------------------------------------------------- calls that send nothing

  // Bad arguments are found before anything else happens.
  lemma ArgumentOutcomes(st: State, call: Call)
    requires !GoodArguments(call)
    ensures Legal(st, call)
    ensures call.cmd.None? || call.rsp.None? || call.rspLength.None? || |call.cmd.value| < 8 ==>
      Quiet(st, call, BadParameter)
    ensures call.cmd.Some? && call.rsp.Some? && call.rspLength.Some? && |call.cmd.value| >= 8 ==>
      Quiet(st, call, RspBufferTooSmall)
  {
  }

  // A call that does not get to know the capabilities, and why.
  lemma CapsOutcomes(st: State, call: Call)
    requires Legal(st, call) && GoodArguments(call) && !st.capsObtained
    ensures var o, x := Step(st, call), call.env.capsExchange;
            var asked := if x.fd > 0 then [Written([1, 0, 0, 0, 0, 0, 0, 0, 0, 0, 0, 0])] else [];
            && (!call.env.capsMemory ==> Quiet(st, call, OutOfMemory))
            && (call.env.capsMemory && !Opens(x) ==> Quiet(st, call, HeciConnectFailed))
            && (call.env.capsMemory && Opens(x) && !GoesThrough(x, 12) ==>
                  o == Outcome(HeciSndRcvFailed, st, call.rsp, call.rspLength, asked))
            && (call.env.capsMemory && Opens(x) && GoesThrough(x, 12) && !o.state.capsObtained ==>
                  o == Outcome(Failure, st, call.rsp, call.rspLength, asked))
  {
    hide Transact, Sound, CapsSize, CapsReply;
    var x := call.env.capsExchange;
    ExchangeOutcomes(x, 12, MAX_MTU);
    assert CAPS_REQUEST == [1, 0, 0, 0, 0, 0, 0, 0, 0, 0, 0, 0];
  }

  lemma Refusals(cmd: seq<byte>, keyOpaqueSize: u32)
    requires Readable(cmd, keyOpaqueSize) && U32At(cmd, 0) in {1, 2, 3, 6, 7}
    ensures Known(U32At(cmd, 0))
    ensures Accepted(cmd, keyOpaqueSize) <==> !BadParameters(cmd, keyOpaqueSize) && !BadSizes(cmd, keyOpaqueSize)
    ensures BadParameters(cmd, keyOpaqueSize) ==> Rejection(cmd, keyOpaqueSize) == BadParameter
    ensures BadSizes(cmd, keyOpaqueSize) ==> Rejection(cmd, keyOpaqueSize) == CmdBufferTooBig
  {
    hide U32At;
  }

  lemma RequestHead(cmd: seq<byte>, keyOpaqueSize: u32)
    requires Readable(cmd, keyOpaqueSize) && Accepted(cmd, keyOpaqueSize)
    requires SizeFits(U32At(cmd, 0), keyOpaqueSize)
    ensures Fits(HalOf(cmd, keyOpaqueSize), keyOpaqueSize)
    ensures var m := Translate(HalOf(cmd, keyOpaqueSize), keyOpaqueSize);
            WellSized(m, keyOpaqueSize) && HeadOf(Wire(m, keyOpaqueSize), U32At(cmd, 0), keyOpaqueSize)
  {
    hide Wire, HalOf, U32At;
    AcceptedFits(cmd, keyOpaqueSize);
    var m := Translate(HalOf(cmd, keyOpaqueSize), keyOpaqueSize);
    WireParses(m, keyOpaqueSize);
    WireId(m, keyOpaqueSize);
    ParsedClass(Wire(m, keyOpaqueSize));
  }

  lemma ParsedClass(r: seq<byte>)
    requires ParseFw(r).Some?
    ensures |r| >= 12 && U32At(r, 0) == 1
  {
  }

  // A call whose capabilities are known, case by case.  Only the last sends a message.
  lemma CommandOutcomes(st: State, call: Call)
    requires Legal(st, call) && GoodArguments(call) && st.capsObtained
    ensures var o, cmd, env, k := Step(st, call), call.cmd.value, call.env, st.keyOpaqueSize;
            var id := U32At(cmd, 0);
            if id !in {1, 2, 3, 6, 7} then Quiet(st, call, Failure)
            else if !env.requestMemory then Quiet(st, call, OutOfMemory)
            else if BadParameters(cmd, k) then Quiet(st, call, BadParameter)
            else if BadSizes(cmd, k) then Quiet(st, call, CmdBufferTooBig)
            else if RequestLength(id, k) > 3072 then Quiet(st, call, CmdBufferTooBig)
            else if !env.responseMemory then Quiet(st, call, OutOfMemory)
            else if !Opens(env.exchange) then Quiet(st, call, HeciConnectFailed)
            else
              && o.state == st
              && (env.exchange.fd > 0 ==>
                    |o.events| == 1 && o.events[0].Written? && HeadOf(o.events[0].message, id, k))
              && (env.exchange.fd <= 0 ==> o.events == [])
              && (!GoesThrough(env.exchange, RequestLength(id, k)) ==>
                    o.result == HeciSndRcvFailed && o.rsp == call.rsp && o.rspLength == call.rspLength)
              && (GoesThrough(env.exchange, RequestLength(id, k)) ==> o.result in {Success, RspBufferTooSmall})
  {
    hide Wire, Translate, HalOf, Overwrite, U32At, Translation, Received, Safe, HeadOf, BadParameters, BadSizes,
         Accepted, Rejection;
    var cmd, k, env := call.cmd.value, st.keyOpaqueSize, call.env;
    var id := U32At(cmd, 0);
    if id in {1, 2, 3, 6, 7} {
      Refusals(cmd, k);
      if Accepted(cmd, k) {
        RequestHead(cmd, k);
        AcceptedFits(cmd, k);
        ExchangeOutcomes(env.exchange, RequestLength(id, k), call.rspLength.value + 8);
        if env.requestMemory && env.responseMemory && RequestLength(id, k) <= 3072 {
          TransactOutcome(k, cmd, call.rsp.value, call.rspLength.value, env);
        }
      }
    }
  }

  // A call that learns the capabilities goes on as if they had been known.
  lemma FirstCommand(st: State, call: Call)
    requires Legal(st, call) && GoodArguments(call) && !st.capsObtained && Step(st, call).state.capsObtained
    ensures var o := Step(st, call);
            && Legal(o.state, call) && |o.events| >= 2
            && o.events[0] == Written([1, 0, 0, 0, 0, 0, 0, 0, 0, 0, 0, 0])
            && o.events[1] == CapsLearned(o.state.keyOpaqueSize)
            && Step(o.state, call) == o.(events := o.events[2..])
  {
    hide Transact, Sound, CapsSize, CapsReply;
    ExchangeOutcomes(call.env.capsExchange, 12, MAX_MTU);
    assert CAPS_REQUEST == [1, 0, 0, 0, 0, 0, 0, 0, 0, 0, 0, 0];
  }

  // ---------------------------------------------------------------- what the caller's buffer holds

  // The response id of a response code.
  function IdWord(code: u32): u32
  {
    if code == 1 then 0x8000_0001
    else if code == 2 then 0x8000_0002
    else if code == 3 then 0x8000_0003
    else if code == 5 then 0x8000_0006
    else if code == 6 then 0x8000_0007
    else 0
  }

  // A reply arrived for the call.
  ghost predicate Heard(st: State, call: Call)
    requires Legal(st, call)
  {
    Submitted(st, call) && Delivers(call.env.exchange, SentSize(st, call)) && |call.env.exchange.reply.value| >= 16
  }

  // The words of a reply, as far as it has them, are those of the response buffer.
  lemma HeardWords(st: State, call: Call)
    requires Legal(st, call) && Heard(st, call)
    ensures var r, reply, size := ResponseTo(st, call), call.env.exchange.reply.value, call.rspLength.value;
            && CmdIdOf(r) == U32At(reply, 8) && CodeOf(r) == U32At(reply, 12)
            && (|reply| >= 20 ==> U32At(r, 16) == U32At(reply, 16))
            && (|reply| >= 24 && size >= 16 ==> U32At(r, 20) == U32At(reply, 20))
            && (forall lo, hi :: 0 <= lo <= hi <= |reply| && hi <= size + 8 ==> r[lo..hi] == reply[lo..hi])
            && size <= |call.rsp.value| && Ready(r, Overwrite(call.rsp.value, 0, Le32(IdWord(CodeOf(r)))), size)
    ensures var r := ResponseTo(st, call);
            var a := Translation(r, Overwrite(call.rsp.value, 0, Le32(IdWord(CodeOf(r)))), call.rspLength.value);
            var o := Step(st, call);
            o.result == a.result && o.rsp == Some(a.rsp) && o.rspLength == Some(a.length)
  {
    hide Overwrite, U32At, Translation, Received, Safe, Delivered, CapsResult, CapsSize, Transact, Sound;
    var reply, size := call.env.exchange.reply.value, call.rspLength.value;
    var cmd, k := call.cmd.value, SizeFor(st, call);
    SucceedsIff(st, call);
    TransactSuccess(k, cmd, call.rsp.value, size, call.env);
    SoundSize(k, cmd, call.rsp.value, size, call.env);
    ResponseIsDelivered(call.env.exchange, SentSize(st, call), size);
    DeliveredFront(reply, size, 8);
    DeliveredFront(reply, size, 12);
    if |reply| >= 20 {
      DeliveredFront(reply, size, 16);
    }
    if |reply| >= 24 && size >= 16 {
      DeliveredFront(reply, size, 20);
    }
    forall lo, hi | 0 <= lo <= hi <= |reply| && hi <= size + 8
      ensures ResponseTo(st, call)[lo..hi] == reply[lo..hi]
    {
      DeliveredSlice(reply, size, lo, hi);
    }
  }

  lemma ThreeWords(caller: seq<byte>, id: u32, length: u32, result: u32, payload: seq<byte>)
    requires |caller| >= 12 + |payload|
    ensures Overwrite(Overwrite(caller, 0, Le32(id)), 4, LengthAndResult(length, result) + payload)
              == Le32(id) + Le32(length) + Le32(result) + payload + caller[12 + |payload|..]
  {
  }

  lemma StatusWords(caller: seq<byte>, id: u32, length: u32, result: u32)
    requires |caller| >= 12
    ensures Overwrite(Overwrite(caller, 0, Le32(id)), 4, LengthAndResult(length, result))
              == Le32(id) + Le32(length) + Le32(result) + caller[12..]
  {
  }

  lemma ResultWord(caller: seq<byte>)
    requires |caller| >= 12
    ensures Overwrite(Overwrite(caller, 0, Le32(0)), 8, Le32(0)) == Le32(0) + caller[4..8] + Le32(0) + caller[12..]
  {
  }

  // The firmware failed: twelve bytes, with a result for each code.
  lemma FailureReaches(st: State, call: Call)
    requires Legal(st, call) && Heard(st, call) && U32At(call.env.exchange.reply.value, 12) != 0
    ensures var code := U32At(call.env.exchange.reply.value, 12);
            var result := if code in {2, 5} then 1 else if code == 3 then 2 else 0xFFFF_FFFF;
            var o := Step(st, call);
            && o.result == Success && o.rspLength == Some(12) && |call.rsp.value| >= 12
            && o.rsp == Some(Le32(IdWord(code)) + Le32(4) + Le32(result) + call.rsp.value[12..])
            && ParseHal(U32At(call.cmd.value, 0), o.rsp.value[..12]) == Some(HalStatus(result))
  {
    hide Step, Legal, U32At, Overwrite, LengthAndResult;
    HeardWords(st, call);
    var code := U32At(call.env.exchange.reply.value, 12);
    var result := FailureResult(code);
    StatusWords(call.rsp.value, IdWord(code), 4, result);
    StatusRead(U32At(call.cmd.value, 0), IdWord(code), result, call.rsp.value[12..]);
  }

  lemma StatusRead(id: u32, rspId: u32, result: u32, rest: seq<byte>)
    requires result != 0
    ensures ParseHal(id, (Le32(rspId) + Le32(4) + Le32(result) + rest)[..12]) == Some(HalStatus(result))
  {
    var s := (Le32(rspId) + Le32(4) + Le32(result) + rest)[..12];
    assert s[4..8] == Le32(4) && s[8..12] == Le32(result);
    WordInField(s, 4, 4);
    WordInField(s, 8, result);
  }

  // The firmware verified a signature, or did not.
  lemma VerdictReaches(st: State, call: Call)
    requires Legal(st, call) && Heard(st, call) && |call.env.exchange.reply.value| >= 24
    requires U32At(call.env.exchange.reply.value, 12) == 0 && U32At(call.env.exchange.reply.value, 8) == 6
    ensures var result := if U32At(call.env.exchange.reply.value, 20) != 0 then 0 else 0xFFFF_FFFF;
            var o := Step(st, call);
            && o.result == Success && o.rspLength == Some(12) && |call.rsp.value| >= 12
            && o.rsp == Some(Le32(0) + Le32(4) + Le32(result) + call.rsp.value[12..])
  {
    hide Step, Legal, U32At, Overwrite, LengthAndResult;
    HeardWords(st, call);
    var result := if U32At(call.env.exchange.reply.value, 20) != 0 then 0 else 0xFFFF_FFFF;
    StatusWords(call.rsp.value, 0, 4, result);
  }

  // A success for a command that is not listed: the lengths stay.
  lemma UnlistedReaches(st: State, call: Call)
    requires Legal(st, call) && Heard(st, call)
    requires U32At(call.env.exchange.reply.value, 12) == 0
    requires U32At(call.env.exchange.reply.value, 8) !in {1, 2, 3, 5, 6}
    ensures var o := Step(st, call);
            && o.result == Success && o.rspLength == call.rspLength && |call.rsp.value| >= 12
            && o.rsp == Some(Le32(0) + call.rsp.value[4..8] + Le32(0) + call.rsp.value[12..])
  {
    hide Step, Legal, U32At, Le32, Overwrite;
    HeardWords(st, call);
    ResultWord(call.rsp.value);
  }

  // The payload does not fit: its length is told, and nothing of it.
  lemma TooSmallReaches(st: State, call: Call)
    requires Legal(st, call) && Heard(st, call) && |call.env.exchange.reply.value| >= 24
    requires Step(st, call).result == RspBufferTooSmall
    ensures var reply, o := call.env.exchange.reply.value, Step(st, call);
            var fwId := U32At(reply, 8);
            && U32At(reply, 12) == 0 && fwId in {1, 2, 3, 5} && |call.rsp.value| >= 12
            && o.rspLength == Some(Wrap32(if fwId in {1, 2} then 16 + U32At(reply, 16)
                                          else if fwId == 3 then 28 + U32At(reply, 20) else 16 + U32At(reply, 20)))
            && o.rsp == Some(Le32(0) + Le32(Wrap32(o.rspLength.value - 8)) + Le32(0) + call.rsp.value[12..])
  {
    hide Step, Legal, U32At, Overwrite, LengthAndResult;
    HeardWords(st, call);
    var field := Wrap32(Step(st, call).rspLength.value - 8);
    StatusWords(call.rsp.value, 0, field, 0);
  }

  // The payload fits and arrived: it is in the caller's buffer behind its lengths.
  lemma PayloadReaches(st: State, call: Call)
    requires Legal(st, call) && Heard(st, call) && Complete(call.env.exchange.reply.value)
    requires Carries(ResponseTo(st, call)) && Step(st, call).result == Success
    ensures var reply, rsp, o := call.env.exchange.reply.value, call.rsp.value, Step(st, call);
            var fwId := U32At(reply, 8);
            && U32At(reply, 12) == 0 && fwId in {1, 2, 3, 5}
            && (fwId in {1, 2} ==>
                  var n := U32At(reply, 16);
                  && 20 + n <= |reply| && 16 + n <= |rsp| && o.rspLength == Some(16 + n)
                  && o.rsp == Some(Le32(0) + Le32(8 + n) + Le32(0) + (Le32(n) + reply[20..20 + n]) + rsp[16 + n..]))
            && (fwId == 5 ==>
                  var n := U32At(reply, 20);
                  && 24 + n <= |reply| && 16 + n <= |rsp| && o.rspLength == Some(16 + n)
                  && o.rsp == Some(Le32(0) + Le32(8 + n) + Le32(0) + (Le32(n) + reply[24..24 + n]) + rsp[16 + n..]))
            && (fwId == 3 ==>
                  var n := U32At(reply, 20);
                  && 28 + n <= |reply| && 28 + n <= |rsp| && o.rspLength == Some(28 + n)
                  && o.rsp == Some(Le32(0) + Le32(20 + n) + Le32(0)
                                   + (Le32(1) + Le32(n) + Le32(4) + reply[28..28 + n] + reply[24..28])
                                   + rsp[28 + n..]))
  {
    hide Step, Legal, U32At, Overwrite, Le32, LengthAndResult;
    HeardWords(st, call);
    var r, size, reply := ResponseTo(st, call), call.rspLength.value, call.env.exchange.reply.value;
    SafePayload(r, size);
    var n := NeededSize(r);
    ThreeWords(call.rsp.value, 0, n - 8, 0, HalPayload(ParseReply(r).value));
  }
}
