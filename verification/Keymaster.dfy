/** The keymaster library itself: the capability state it keeps, the exchange each
    command makes, and the resources it holds meanwhile. */
module Keymaster {
  import opened Bytes
  import opened Layout
  import opened Requests
  import opened RequestProofs
  import opened RequestBuilder
  import opened Responses
  import opened ResponseWriter
  import opened Transport

  // ---------------------------------------------------------------- specification

  // The library's two static variables.
  datatype State = State(capsObtained: bool, keyOpaqueSize: u32)

  const INITIAL := State(false, 0)

  // What the outside world answers during one call: the three allocations and the two
  // exchanges it can make.
  datatype Env = Env(
    capsMemory: bool, capsExchange: Exchange, requestMemory: bool, responseMemory: bool, exchange: Exchange)

  // One call of sep_keymaster_send_cmd; None is a null pointer.
  datatype Call = Call(cmd: Option<seq<byte>>, rsp: Option<seq<byte>>, rspLength: Option<u32>, env: Env)

  datatype Outcome = Outcome(
    result: SepResult, state: State, rsp: Option<seq<byte>>, rspLength: Option<u32>, events: seq<Event>)

  const CAPS_REQUEST: seq<byte> := Header(FW_GET_CAPS, 0)

  // The capabilities buffer after the exchange.
  function CapsReply(x: Exchange): (r: seq<byte>)
    ensures |r| == MAX_MTU
  {
    Received(x, REQ_HEADER_SIZE, Zeros(MAX_MTU))
  }

  function CapsResult(available: bool, x: Exchange): SepResult
  {
    if !available then OutOfMemory
    else if ExchangeResult(x, REQ_HEADER_SIZE, MAX_MTU) != Success then ExchangeResult(x, REQ_HEADER_SIZE, MAX_MTU)
    else if CodeOf(CapsReply(x)) != RESPONSE_SUCCESS then Failure
    else Success
  }

  // Only the first capability entry counts, however many the reply declares.
  function CapsSize(x: Exchange, before: u32): u32
  {
    var r := CapsReply(x);
    if U32At(r, 24) > 0 && U32At(r, 28) == FW_KEY_TYPE_RSA then U32At(r, 40) else before
  }

  function CapsWrites(env: Env): seq<Event>
  {
    if env.capsMemory then Transport.Writes(env.capsExchange, CAPS_REQUEST) else []
  }

  datatype Learned = Learned(result: SepResult, state: State, events: seq<Event>)

  function LearnCaps(st: State, env: Env): Learned
  {
    if st.capsObtained then Learned(Success, st, [])
    else
      var x := env.capsExchange;
      var r := CapsResult(env.capsMemory, x);
      if r != Success then Learned(r, st, CapsWrites(env))
      else
        var k := CapsSize(x, st.keyOpaqueSize);
        Learned(Success, State(true, k), CapsWrites(env) + [CapsLearned(k)])
  }

  // The argument checks at the top.
  function ArgumentCheck(call: Call): SepResult
  {
    if call.cmd.None? || call.rsp.None? || call.rspLength.None? then BadParameter
    else if |call.cmd.value| < HAL_CMD_SIZE then BadParameter
    else if call.rspLength.value < HAL_RSP_SIZE then RspBufferTooSmall
    else Success
  }

  // A request goes out to the driver.
  ghost predicate Submits(cmd: seq<byte>, keyOpaqueSize: u32, env: Env)
    requires Readable(cmd, keyOpaqueSize)
  {
    && env.requestMemory && Accepted(cmd, keyOpaqueSize)
    && RequestSize(U32At(cmd, 0), keyOpaqueSize) <= MAX_HECI_MSG_SIZE && env.responseMemory
  }

  // The response buffer after the exchange.
  function ResponseOf(x: Exchange, requestSize: nat, size: u32): (r: seq<byte>)
    ensures |r| == size + 8
  {
    Received(x, requestSize, Zeros(size + 8))
  }

  // What the library relies on once the capabilities are known: a command that holds
  // what it declares, a caller buffer as large as stated, and no uint32 sum that wraps.
  ghost predicate Sound(keyOpaqueSize: u32, cmd: seq<byte>, rsp: seq<byte>, size: u32, env: Env)
    requires HAL_CMD_SIZE <= |cmd| && HAL_RSP_SIZE <= size
  {
    && Readable(cmd, keyOpaqueSize) && SizeFits(U32At(cmd, 0), keyOpaqueSize) && size <= |rsp|
    && (Submits(cmd, keyOpaqueSize, env) ==>
          var n := RequestSize(U32At(cmd, 0), keyOpaqueSize);
          && size + 8 < U32_RANGE
          && (ExchangeResult(env.exchange, n, size + 8) == Success ==> Safe(ResponseOf(env.exchange, n, size), size)))
  }

  ghost predicate Legal(st: State, call: Call)
  {
    var l := LearnCaps(st, call.env);
    ArgumentCheck(call) == Success && l.result == Success ==>
      Sound(l.state.keyOpaqueSize, call.cmd.value, call.rsp.value, call.rspLength.value, call.env)
  }

  datatype Transacted = Transacted(answer: Answer, events: seq<Event>)

  // Everything after the capabilities are known.
  ghost function Transact(keyOpaqueSize: u32, cmd: seq<byte>, rsp: seq<byte>, size: u32, env: Env): Transacted
    requires HAL_CMD_SIZE <= |cmd| && HAL_RSP_SIZE <= size && Sound(keyOpaqueSize, cmd, rsp, size, env)
  {
    var id := U32At(cmd, 0);
    if !Known(id) then Transacted(Answer(Failure, rsp, size), [])
    else if !env.requestMemory then Transacted(Answer(OutOfMemory, rsp, size), [])
    else if !Accepted(cmd, keyOpaqueSize) then Transacted(Answer(Rejection(cmd, keyOpaqueSize), rsp, size), [])
    else
      AcceptedFits(cmd, keyOpaqueSize);
      var request := Wire(Translate(HalOf(cmd, keyOpaqueSize), keyOpaqueSize), keyOpaqueSize);
      if |request| > MAX_HECI_MSG_SIZE then Transacted(Answer(CmdBufferTooBig, rsp, size), [])
      else if !env.responseMemory then Transacted(Answer(OutOfMemory, rsp, size), [])
      else
        var r := ExchangeResult(env.exchange, |request|, size + 8);
        var events := Transport.Writes(env.exchange, request);
        if r != Success then Transacted(Answer(r, rsp, size), events)
        else
          var response := ResponseOf(env.exchange, |request|, size);
          // The response id is chosen by the response code.
          Transacted(Translation(response, Overwrite(rsp, 0, Le32(RspId(CodeOf(response)))), size), events)
  }

  ghost function Step(st: State, call: Call): Outcome
    requires Legal(st, call)
  {
    if ArgumentCheck(call) != Success then Outcome(ArgumentCheck(call), st, call.rsp, call.rspLength, [])
    else
      var l := LearnCaps(st, call.env);
      if l.result != Success then Outcome(l.result, l.state, call.rsp, call.rspLength, l.events)
      else
        var t := Transact(l.state.keyOpaqueSize, call.cmd.value, call.rsp.value, call.rspLength.value, call.env);
        Outcome(t.answer.result, l.state, Some(t.answer.rsp), Some(t.answer.length), l.events + t.events)
  }

  // ---------------------------------------------------------------- implementation

  class SepKeymaster {
    var capsObtained: bool
    var keyOpaqueSize: u32
    const platform: Platform

    constructor (platform: Platform)
      ensures Current() == INITIAL && this.platform == platform
    {
      this.platform := platform;
      capsObtained, keyOpaqueSize := false, 0;
    }

    ghost function Current(): State
      reads this
    {
      State(capsObtained, keyOpaqueSize)
    }

    method GetCaps(env: Env) returns (result: SepResult)
      requires !capsObtained
      modifies this`keyOpaqueSize, platform
      ensures result == CapsResult(env.capsMemory, env.capsExchange)
      ensures keyOpaqueSize
        == if result == Success then CapsSize(env.capsExchange, old(keyOpaqueSize)) else old(keyOpaqueSize)
      ensures platform.trace == old(platform.trace) + CapsWrites(env)
      ensures platform.live == old(platform.live) && platform.open == old(platform.open)
    {
      var resp := platform.Malloc(MAX_MTU, env.capsMemory);
      if resp == null {
        return OutOfMemory;
      }
      Clear(resp, 0, MAX_MTU);
      assert resp[..] == Zeros(MAX_MTU);
      var req := new byte[REQ_HEADER_SIZE];
      PutU32(req, 0, CLASS_KEY_MASTER);
      PutU32(req, 4, FW_GET_CAPS);
      PutU32(req, 8, 0);
      assert req[..] == CAPS_REQUEST;
      result := SendReqToFw(platform, req, resp, env.capsExchange);
      if result == Success {
        if CodeOf(resp[..]) != RESPONSE_SUCCESS {
          result := Failure;
        } else {
          var numAlgs, keyType, size := U32At(resp[..], 24), U32At(resp[..], 28), U32At(resp[..], 40);
          // The entry looked at never advances.
          for i := 0 to numAlgs
            modifies this`keyOpaqueSize
            invariant keyOpaqueSize == if i > 0 && keyType == FW_KEY_TYPE_RSA then size else old(keyOpaqueSize)
          {
            if keyType == FW_KEY_TYPE_RSA {
              keyOpaqueSize := size;
            }
          }
        }
      }
      platform.Free(resp);
    }

    // Send a command, wait for the response and translate it.
    method SendCmd(cmd: array?<byte>, rsp: array?<byte>, rspLength: U32Cell?, env: Env) returns (result: SepResult)
      requires Legal(Current(), Call(Contents(cmd), Contents(rsp), Value(rspLength), env))
      modifies this, platform, rsp, rspLength
      ensures var o := Step(old(Current()), old(Call(Contents(cmd), Contents(rsp), Value(rspLength), env)));
              && result == o.result && Current() == o.state
              && Contents(rsp) == o.rsp && Value(rspLength) == o.rspLength
              && platform.trace == old(platform.trace) + o.events
      // Every block is freed exactly once and every connection closed, on every path.
      ensures platform.live == old(platform.live) && platform.open == old(platform.open)
    {
      hide Transact, Sound, CapsResult, CapsSize;
      if cmd == null || rsp == null || rspLength == null {
        return BadParameter;
      }
      if cmd.Length < HAL_CMD_SIZE {
        return BadParameter;
      }
      if rspLength.value < HAL_RSP_SIZE {
        return RspBufferTooSmall;
      }
      if !capsObtained {
        result := GetCaps(env);
        if result != Success {
          return;
        }
        capsObtained := true;
        platform.trace := platform.trace + [CapsLearned(keyOpaqueSize)];
      }
      result := Converse(cmd, rsp, rspLength, env);
    }

    // The part of SendCmd that follows the capability check.
    method Converse(cmd: array<byte>, rsp: array<byte>, rspLength: U32Cell, env: Env) returns (result: SepResult)
      requires cmd.Length >= HAL_CMD_SIZE && rspLength.value >= HAL_RSP_SIZE
      requires Sound(keyOpaqueSize, cmd[..], rsp[..], rspLength.value, env)
      modifies platform, rsp, rspLength
      ensures var t := Transact(keyOpaqueSize, old(cmd[..]), old(rsp[..]), old(rspLength.value), env);
              && Answer(result, rsp[..], rspLength.value) == t.answer
              && platform.trace == old(platform.trace) + t.events
      ensures platform.live == old(platform.live) && platform.open == old(platform.open)
    {
      hide Wire, Overwrite, Translate, HalOf, Translation, Accepted, Safe, Received, ExchangeResult,
           Transport.Writes, RspId;
      var response: array?<byte> := null;
      var request: array?<byte>;
      result, request := GenerateCmdBuf(platform, cmd[..], keyOpaqueSize, env.requestMemory);
      if result == Success {
        AcceptedFits(cmd[..], keyOpaqueSize);
        if request.Length > MAX_HECI_MSG_SIZE {
          result := CmdBufferTooBig;
        } else {
          var n := RESP_HEADER_SIZE + rspLength.value as int - HAL_RSP_SIZE;
          response := platform.Malloc(n, env.responseMemory);
          if response == null {
            result := OutOfMemory;
          } else {
            ghost var fresh0 := response[..];
            Clear(response, 0, n);
            OverwriteAll(fresh0, Zeros(n));
            result := SendReqToFw(platform, request, response, env.exchange);
            if result == Success {
              result := SetResponseCmdId(CodeOf(response[..]), rsp);
              result := SetResponseStatusAndData(response, rsp, rspLength, rspLength.value);
            }
          }
        }
      }
      if request != null {
        platform.Free(request);
      }
      if response != null {
        platform.Free(response);
      }
    }
  }
}
