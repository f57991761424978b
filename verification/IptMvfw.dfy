/** The IPT and media-vault entry points over the two global frames. */
module IptMvfw {
  import opened Bytes
  import opened Transport
  import opened Frames
  import opened FrameProofs

  class SharedFrames {
    const req: array<byte>
    const resp: array<byte>
    const platform: Platform

    constructor (platform: Platform)
      ensures this.platform == platform && fresh(req) && fresh(resp) && Valid()
      ensures req.Length == 5036 && resp.Length == 2528
    {
      this.platform := platform;
      req := new byte[REQ_SIZE];
      resp := new byte[RESP_SIZE];
    }

    ghost predicate Valid()
    {
      req.Length == REQ_SIZE && resp.Length == RESP_SIZE && req != resp
    }

    ghost function Current(): Globals
      reads req, resp
    {
      Globals(req[..], resp[..])
    }

    // Send the request frame, then receive into the response frame.  A failed send is
    // only logged.
    method ProcessCmd(h: MeiHandle, x: Exchange) returns (status: u32)
      requires Valid() && h.fd == x.fd
      modifies platform`trace, resp
      ensures status == ProcessStatus(x)
      ensures resp[..] == ReceivedInto(x, old(resp[..]))
      ensures platform.trace == old(platform.trace) + (if x.fd > 0 then [Written(req[..])] else [])
    {
      var rv := MeiSndMsg(platform, h, req, x);
      rv := MeiRcvMsg(h, resp, x);
      status := if rv < 0 then TEE_FAILURE else SUCCESS;
    }

    // The stores into both frames before an IPT exchange; c is the call they belong to.
    method FillIpt(inLength: u32, inData: seq<byte>, outLength: u32, clock: u32, ghost c: FrameCall)
      requires Valid() && Check(c) == SUCCESS && InputHeld(c) && inLength <= |inData|
      requires c.IptSend? && c == IptSend(inLength, Some(inData), Some(outLength), c.outData, clock, c.x)
      modifies req, resp
      ensures Current() == Globals(FillReq(old(req[..]), c), FillResp(old(resp[..]), c))
    {
      hide Overwrite;
      Clear(req, 0, REQ_SIZE);
      Clear(resp, 0, RESP_SIZE);
      PutU32(req, 0, IPT_SEND_MSG);
      PutU32(req, 4, SUCCESS);
      PutU32(req, 8, inLength);
      PutU32(req, 12, outLength);
      Store(req, 16, inData[..inLength]);
      PutU32(req, 16 + MAX_FROM_HOST, clock);
    }

    // The stores before a media-vault exchange.
    method FillMvfw(cmdId: u32, inLength: u32, inData: Option<seq<byte>>, outLength: Option<u32>, ghost c: FrameCall)
      requires Valid() && Check(c) == SUCCESS && InputHeld(c)
      requires cmdId == MVFW_SEND_MSG ==> c.MvfwSend? && c == MvfwSend(inLength, inData, outLength, c.outData, c.x)
      requires cmdId != MVFW_SEND_MSG ==> c.MvfwControl? && c.cmdId == cmdId
      modifies req, resp
      ensures Current() == Globals(FillReq(old(req[..]), c), FillResp(old(resp[..]), c))
    {
      hide Overwrite;
      Clear(req, 0, REQ_SIZE);
      Clear(resp, 0, RESP_SIZE);
      PutU32(req, 0, cmdId);
      PutU32(req, 4, SUCCESS);
      PutU32(resp, 0, cmdId);
      PutU32(resp, 4, SUCCESS);
      if cmdId == MVFW_SEND_MSG {
        PutU32(req, 8, inLength);
        PutU32(req, 12, outLength.value);
        Store(req, 16, inData.value[..inLength]);
        PutU32(resp, 8, outLength.value);
      }
    }

    // Copy n bytes of the response frame out, unless its length word is zero.
    method TakeOutput(n: u32, outLength: U32Cell, outData: array<byte>)
      requires Valid() && outData != resp && outData != req && n <= MAX_TO_HOST && n <= outData.Length
      requires U32At(resp[..], 8) == 0 ==> n == 0
      modifies outLength, outData
      ensures outLength.value == n && outData[..] == Overwrite(old(outData[..]), 0, resp[..][12..12 + n])
    {
      hide Overwrite;
      outLength.value := n;
      if U32At(resp[..], 8) != 0 {
        Store(outData, 0, resp[..][12..12 + n]);
      } else {
        NothingStored(outData[..], resp[..]);
      }
    }

    method IptSendMessage(inLength: u32, inData: Option<seq<byte>>, outLength: U32Cell?, outData: array?<byte>,
                          clock: u32, x: Exchange)
      returns (ret: u32)
      requires Valid() && outData != req && outData != resp
      requires Permitted(Current(), IptSend(inLength, inData, Value(outLength), Contents(outData), clock, x))
      modifies req, resp, platform, outLength, outData
      ensures var c := IptSend(inLength, inData, old(Value(outLength)), old(Contents(outData)), clock, x);
              var (g, e) := CallEffect(old(Current()), c);
              && Current() == g && ret == e.ret && Value(outLength) == e.outLength && Contents(outData) == e.outData
              && platform.trace == old(platform.trace) + e.sent
      ensures platform.live == old(platform.live) && platform.open == old(platform.open)
    {
      hide CallEffect, Overwrite, ReceivedInto, FillReq, FillResp, Cleared, U32At, Le32, Zeros, Permitted, InputHeld;
      RunCases(Current(), IptSend(inLength, inData, Value(outLength), Contents(outData), clock, x));
      if inData.None? || outLength == null || outData == null {
        return NULL_PARAM;
      }
      if inLength == 0 || inLength > MAX_FROM_HOST {
        return INVALID_PARAM;
      }
      var h := MeiConnect(platform, x);
      if h == null {
        return TEE_FAILURE;
      }
      ghost var c := IptSend(inLength, inData, Value(outLength), Contents(outData), clock, x);
      Clear(outData, 0, outLength.value);
      ClearedIs(c);
      FillIpt(inLength, inData.value, outLength.value, clock, c);
      ret := IptReply(h, outData, outLength, x, c, old(Current()));
      // The status of closing the connection replaces whatever was there.
      MeiDisconnect(platform, h);
      ret := SUCCESS;
    }

    // The IPT exchange itself and what the caller gets of its reply.
    method IptReply(h: MeiHandle, outData: array<byte>, outLength: U32Cell, x: Exchange,
                    ghost c: FrameCall, ghost g: Globals)
      returns (ret: u32)
      requires Valid() && outData != req && outData != resp && h.fd == x.fd
      requires Permitted(g, c) && Check(c) == SUCCESS && c.IptSend? && c.x == x && Connects(x)
      requires Current() == Globals(FillReq(g.req, c), FillResp(g.resp, c))
      requires Value(outLength) == c.outLength && outData[..] == Cleared(c)
      modifies resp, platform`trace, outLength, outData
      ensures var (g', e) := CallEffect(g, c);
              && Current() == g' && Value(outLength) == e.outLength && Contents(outData) == e.outData
              && platform.trace == old(platform.trace) + e.sent
    {
      hide CallEffect, Overwrite, ReceivedInto, FillReq, FillResp, Cleared, U32At, Le32, Zeros, Permitted,
           InputHeld, Check;
      RunCases(g, c);
      ret := ProcessCmd(h, x);
      if ret == SUCCESS {
        if U32At(resp[..], 4) != SUCCESS {
          ret := U32At(resp[..], 4);
        } else {
          TakeOutput(U32At(resp[..], 8) % 0x1_0000, outLength, outData);
        }
      }
    }

    // The exchange the five media-vault functions share.  Four of them pass no data.
    method MvfwCmd(cmdId: u32, inData: Option<seq<byte>>, inLength: u32, outData: array?<byte>, outLength: U32Cell?,
                   x: Exchange, ghost c: FrameCall)
      returns (ret: u32)
      requires Valid() && outData != req && outData != resp && Permitted(Current(), c)
      requires cmdId == MVFW_SEND_MSG ==>
        && inData.Some? && inLength != 0 && outData != null && outLength != null
        && c == MvfwSend(inLength, inData, Value(outLength), Contents(outData), x) && outData[..] == Cleared(c)
      requires cmdId != MVFW_SEND_MSG ==> outData == null && outLength == null && c == MvfwControl(cmdId, x)
      modifies req, resp, platform, outLength, outData
      ensures var (g, e) := CallEffect(old(Current()), c);
              && Current() == g && ret == e.ret && Value(outLength) == e.outLength && Contents(outData) == e.outData
              && platform.trace == old(platform.trace) + e.sent
      ensures platform.live == old(platform.live) && platform.open == old(platform.open)
    {
      hide CallEffect, Cleared, Permitted, Check;
      MvfwStops(Current(), c);
      if cmdId == MVFW_SEND_MSG {
        if inData.None? || inLength == 0 || inLength > MAX_FROM_HOST || outData == null || outLength == null {
          return INVALID_PARAM;
        }
      }
      ret := MvfwConnected(cmdId, inData, inLength, outData, outLength, x, c);
    }

    // The part after the argument checks.
    method MvfwConnected(cmdId: u32, inData: Option<seq<byte>>, inLength: u32, outData: array?<byte>,
                         outLength: U32Cell?, x: Exchange, ghost c: FrameCall)
      returns (ret: u32)
      requires Valid() && outData != req && outData != resp && Permitted(Current(), c) && Check(c) == SUCCESS
      requires cmdId == MVFW_SEND_MSG ==>
        && inData.Some? && inLength != 0 && outData != null && outLength != null
        && c == MvfwSend(inLength, inData, Value(outLength), Contents(outData), x) && outData[..] == Cleared(c)
      requires cmdId != MVFW_SEND_MSG ==> outData == null && outLength == null && c == MvfwControl(cmdId, x)
      modifies req, resp, platform, outLength, outData
      ensures var (g, e) := CallEffect(old(Current()), c);
              && Current() == g && ret == e.ret && Value(outLength) == e.outLength && Contents(outData) == e.outData
              && platform.trace == old(platform.trace) + e.sent
      ensures platform.live == old(platform.live) && platform.open == old(platform.open)
    {
      hide CallEffect, Cleared, Permitted, Check;
      MvfwStops(Current(), c);
      var h := MeiConnect(platform, x);
      if h == null {
        return TEE_FAILURE;
      }
      ret := MvfwExchange(cmdId, h, inData, inLength, outData, outLength, x, c);
      MeiDisconnect(platform, h);
    }

    // What happens while the connection is open.
    method MvfwExchange(cmdId: u32, h: MeiHandle, inData: Option<seq<byte>>, inLength: u32, outData: array?<byte>,
                        outLength: U32Cell?, x: Exchange, ghost c: FrameCall)
      returns (ret: u32)
      requires Valid() && outData != req && outData != resp && h.fd == x.fd
      requires Permitted(Current(), c) && Check(c) == SUCCESS && Connects(x)
      requires cmdId == MVFW_SEND_MSG ==>
        && outData != null && outLength != null
        && c == MvfwSend(inLength, inData, Value(outLength), Contents(outData), x) && outData[..] == Cleared(c)
      requires cmdId != MVFW_SEND_MSG ==> outData == null && outLength == null && c == MvfwControl(cmdId, x)
      modifies req, resp, platform`trace, outLength, outData
      ensures var (g, e) := CallEffect(old(Current()), c);
              && Current() == g && ret == e.ret && Value(outLength) == e.outLength && Contents(outData) == e.outData
              && platform.trace == old(platform.trace) + e.sent
    {
      hide CallEffect, Overwrite, FillReq, FillResp, Cleared, Permitted, InputHeld, Check, ReceivedInto;
      RunCases(Current(), c);
      FillMvfw(cmdId, inLength, inData, if outLength == null then None else Some(outLength.value), c);
      ret := MvfwReply(cmdId, h, outData, outLength, x, c, old(Current()));
    }

    // The exchange itself and what the caller gets of its reply.
    method MvfwReply(cmdId: u32, h: MeiHandle, outData: array?<byte>, outLength: U32Cell?, x: Exchange,
                     ghost c: FrameCall, ghost g: Globals)
      returns (ret: u32)
      requires Valid() && outData != req && outData != resp && h.fd == x.fd
      requires Permitted(g, c) && Check(c) == SUCCESS && c.x == x && Connects(x) && !c.IptSend?
      requires Current() == Globals(FillReq(g.req, c), FillResp(g.resp, c))
      requires c.MvfwControl? ==> cmdId != MVFW_SEND_MSG && outData == null && outLength == null
      requires c.MvfwSend? ==>
        && cmdId == MVFW_SEND_MSG && outData != null && outLength != null
        && Value(outLength) == c.outLength && outData[..] == Cleared(c)
      modifies resp, platform`trace, outLength, outData
      ensures var (g', e) := CallEffect(g, c);
              && Current() == g' && ret == e.ret && Value(outLength) == e.outLength && Contents(outData) == e.outData
              && platform.trace == old(platform.trace) + e.sent
    {
      hide CallEffect, Overwrite, ReceivedInto, FillReq, FillResp, Cleared, U32At, Le32, Zeros, Permitted,
           InputHeld, Check;
      RunCases(g, c);
      ret := ProcessCmd(h, x);
      if ret == SUCCESS {
        ret := U32At(resp[..], 4);
        if cmdId == MVFW_SEND_MSG && ret == SUCCESS {
          TakeOutput(U32At(resp[..], 8), outLength, outData);
        }
      }
    }

    method MvSepFwSendMessage(inData: Option<seq<byte>>, inLength: u32, outData: array?<byte>, outLength: U32Cell?,
                              x: Exchange)
      returns (ret: u32)
      requires Valid() && outData != req && outData != resp
      requires Permitted(Current(), MvfwSend(inLength, inData, Value(outLength), Contents(outData), x))
      modifies req, resp, platform, outLength, outData
      ensures var c := MvfwSend(inLength, inData, old(Value(outLength)), old(Contents(outData)), x);
              var (g, e) := CallEffect(old(Current()), c);
              && Current() == g && ret == e.ret && Value(outLength) == e.outLength && Contents(outData) == e.outData
              && platform.trace == old(platform.trace) + e.sent
      ensures platform.live == old(platform.live) && platform.open == old(platform.open)
    {
      hide CallEffect, Overwrite;
      if inData.None? || inLength == 0 || outData == null || outLength == null {
        RejectedUntouched(Current(), MvfwSend(inLength, inData, Value(outLength), Contents(outData), x));
        return INVALID_PARAM;
      }
      ghost var c := MvfwSend(inLength, inData, Value(outLength), Contents(outData), x);
      Clear(outData, 0, outLength.value);
      ghost var c' := MvfwSend(inLength, inData, Value(outLength), Contents(outData), x);
      ClearedTwice(Current(), c, c');
      ret := MvfwCmd(MVFW_SEND_MSG, inData, inLength, outData, outLength, x, c');
    }
  }

  lemma NothingStored(s: seq<byte>, resp: seq<byte>)
    requires |resp| >= 12
    ensures Overwrite(s, 0, resp[12..12]) == s
  {
  }

  lemma ClearedIs(c: FrameCall)
    requires !c.MvfwControl? && c.outLength.Some? && c.outData.Some? && OutputHeld(c)
    ensures Cleared(c) == Overwrite(c.outData.value, 0, Zeros(c.outLength.value))
  {
  }

  // The effect of a media-vault call that never reaches the exchange.
  lemma MvfwStops(g: Globals, c: FrameCall)
    requires Permitted(g, c)
    requires c.MvfwControl? || (
      && c.MvfwSend? && c.inData.Some? && c.inLength != 0 && c.outLength.Some? && c.outData.Some?
      && c.outData.value == Cleared(c))
    ensures Check(c) == if c.MvfwSend? && c.inLength > MAX_FROM_HOST then INVALID_PARAM else SUCCESS
    ensures Check(c) != SUCCESS ==> CallEffect(g, c) == (g, Effect(INVALID_PARAM, OutLength(c), OutData(c), []))
    ensures Check(c) == SUCCESS && !Connects(c.x) ==>
      CallEffect(g, c) == (g, Effect(TEE_FAILURE, OutLength(c), OutData(c), []))
  {
  }

  lemma RejectedUntouched(g: Globals, c: FrameCall)
    requires Permitted(g, c) && c.MvfwSend?
    requires c.inData.None? || c.inLength == 0 || c.outData.None? || c.outLength.None?
    ensures CallEffect(g, c) == (g, Effect(INVALID_PARAM, c.outLength, c.outData, []))
  {
  }

  // A call on an output buffer that is cleared already has the same effect.
  lemma ClearedTwice(g: Globals, c: FrameCall, c': FrameCall)
    requires Permitted(g, c) && c.MvfwSend?
    requires c.inData.Some? && c.inLength != 0 && c.outData.Some? && c.outLength.Some?
    requires c' == MvfwSend(c.inLength, c.inData, c.outLength, Some(Cleared(c)), c.x)
    ensures Permitted(g, c') && Cleared(c') == Cleared(c) && CallEffect(g, c') == CallEffect(g, c)
  {
  }
}
