/** The two global frames that the IPT and the media-vault calls share, and the
    exchange both make over them. */
module Frames {
  import opened Bytes
  import opened Transport

  // Sizes of the data areas, from the largest packed message of each direction.
  const MAX_FROM_HOST := 5016
  const MAX_TO_HOST := 2516
  const REQ_SIZE := 5036     // header 8, two lengths 8, data, time 4
  const RESP_SIZE := 2528    // header 8, length 4, data

  const IPT_SEND_MSG: u32 := 0x8000_0001
  const MVFW_SEND_MSG: u32 := 0x7000_0005
  const MVFW_CONTROL_IDS: set<u32> := {0x7000_0001, 0x7000_0002, 0x7000_0003, 0x7000_0004}

  const SUCCESS: u32 := 0
  const INVALID_PARAM: u32 := 1
  const NULL_PARAM: u32 := 2
  const TEE_FAILURE: u32 := 0xFFFF_FFFF

  // ---------------------------------------------------------------- one call

  // None is a null pointer.  MvfwControl stands for the four calls without data.
  datatype FrameCall =
    | IptSend(inLength: u32, inData: Option<seq<byte>>, outLength: Option<u32>, outData: Option<seq<byte>>,
              clock: u32, x: Exchange)
    | MvfwSend(inLength: u32, inData: Option<seq<byte>>, outLength: Option<u32>, outData: Option<seq<byte>>,
               x: Exchange)
    | MvfwControl(cmdId: u32, x: Exchange)

  datatype Globals = Globals(req: seq<byte>, resp: seq<byte>)

  // What the caller sees of a call, and what goes out to the driver.
  datatype Effect = Effect(ret: u32, outLength: Option<u32>, outData: Option<seq<byte>>, sent: seq<Event>)

  ghost predicate Proper(g: Globals)
  {
    |g.req| == REQ_SIZE && |g.resp| == RESP_SIZE
  }

  // Both APIs check their arguments before they touch anything but the out buffer.
  function Check(c: FrameCall): u32
  {
    match c
    case IptSend(inLength, inData, outLength, outData, _, _) =>
      if inData.None? || outLength.None? || outData.None? then NULL_PARAM
      else if inLength == 0 || inLength > MAX_FROM_HOST then INVALID_PARAM
      else SUCCESS
    case MvfwSend(inLength, inData, outLength, outData, _) =>
      if inData.None? || inLength == 0 || outData.None? || outLength.None? || inLength > MAX_FROM_HOST
      then INVALID_PARAM else SUCCESS
    case MvfwControl(_, _) => SUCCESS
  }

  // The request frame, store by store over what was there before.
  function FillReq(req: seq<byte>, c: FrameCall): (r: seq<byte>)
    requires |req| == REQ_SIZE && Check(c) == SUCCESS && InputHeld(c)
    ensures |r| == REQ_SIZE
  {
    var r0 := Overwrite(req, 0, Zeros(REQ_SIZE));
    match c
    case IptSend(n, d, out, _, clock, _) =>
      var r2 := Overwrite(Overwrite(r0, 0, Le32(IPT_SEND_MSG)), 4, Le32(SUCCESS));
      var r4 := Overwrite(Overwrite(r2, 8, Le32(n)), 12, Le32(out.value));
      Overwrite(Overwrite(r4, 16, d.value[..n]), 16 + MAX_FROM_HOST, Le32(clock))
    case MvfwSend(n, d, out, _, _) =>
      var r2 := Overwrite(Overwrite(r0, 0, Le32(MVFW_SEND_MSG)), 4, Le32(SUCCESS));
      Overwrite(Overwrite(Overwrite(r2, 8, Le32(n)), 12, Le32(out.value)), 16, d.value[..n])
    case MvfwControl(id, _) =>
      Overwrite(Overwrite(r0, 0, Le32(id)), 4, Le32(SUCCESS))
  }

  // The response frame as it is handed to the receive step.
  function FillResp(resp: seq<byte>, c: FrameCall): (r: seq<byte>)
    requires |resp| == RESP_SIZE && Check(c) == SUCCESS
    ensures |r| == RESP_SIZE
  {
    var r0 := Overwrite(resp, 0, Zeros(RESP_SIZE));
    match c
    case IptSend(_, _, _, _, _, _) => r0
    case MvfwSend(_, _, out, _, _) =>
      Overwrite(Overwrite(Overwrite(r0, 0, Le32(MVFW_SEND_MSG)), 4, Le32(SUCCESS)), 8, Le32(out.value))
    case MvfwControl(id, _) =>
      Overwrite(Overwrite(r0, 0, Le32(id)), 4, Le32(SUCCESS))
  }

  // The caller's input holds the bytes it states, its output buffer likewise.
  predicate InputHeld(c: FrameCall)
  {
    match c
    case IptSend(n, d, _, _, _, _) => d.Some? ==> n <= |d.value|
    case MvfwSend(n, d, _, _, _) => d.Some? ==> n <= |d.value|
    case MvfwControl(_, _) => true
  }

  predicate OutputHeld(c: FrameCall)
  {
    c.MvfwControl? || (c.outLength.Some? && c.outData.Some? ==> c.outLength.value <= |c.outData.value|)
  }

  // The receive step happens whatever became of the send step.
  function ReceivedInto(x: Exchange, buf: seq<byte>): (r: seq<byte>)
    ensures |r| == |buf|
  {
    if RcvStatus(x, |buf|) < 0 then buf else Overwrite(buf, 0, x.reply.value[..Min(|x.reply.value|, |buf|)])
  }

  // process_cmd's status: the send step's is only logged, and a positive or zero count
  // from the receive step is success.
  function ProcessStatus(x: Exchange): u32
  {
    if RcvStatus(x, RESP_SIZE) < 0 then TEE_FAILURE else SUCCESS
  }

  // The reply was received and reports success.
  predicate Succeeds(resp: seq<byte>, x: Exchange)
    requires |resp| == RESP_SIZE
  {
    ProcessStatus(x) == SUCCESS && U32At(resp, 4) == SUCCESS
  }

  // How many bytes a successful reply puts into the caller's buffer.
  function OutputCount(resp: seq<byte>, c: FrameCall): u32
    requires |resp| == RESP_SIZE
  {
    if c.IptSend? then U32At(resp, 8) % 0x1_0000 else U32At(resp, 8)
  }

  // The firmware keeps to the caller's buffer and to the frame.
  ghost predicate ReplyFits(g: Globals, c: FrameCall)
    requires Proper(g) && Check(c) == SUCCESS && !c.MvfwControl?
  {
    var resp := ReceivedInto(c.x, FillResp(g.resp, c));
    Connects(c.x) && Succeeds(resp, c.x) ==>
      OutputCount(resp, c) <= MAX_TO_HOST && OutputCount(resp, c) <= |c.outData.value|
  }

  ghost predicate Permitted(g: Globals, c: FrameCall)
  {
    && Proper(g) && InputHeld(c) && OutputHeld(c)
    && (c.MvfwControl? ==> c.cmdId in MVFW_CONTROL_IDS)
    && (c.IptSend? ==> c.inLength < 0x1_0000)
    && (c.IptSend? && c.outLength.Some? ==> c.outLength.value < 0x1_0000)
    && (Check(c) == SUCCESS && !c.MvfwControl? ==> ReplyFits(g, c))
  }

  function Cleared(c: FrameCall): (r: seq<byte>)
    requires !c.MvfwControl? && c.outLength.Some? && c.outData.Some? && OutputHeld(c)
    ensures |r| == |c.outData.value|
  {
    Overwrite(c.outData.value, 0, Zeros(c.outLength.value))
  }

  // The status after the exchange.  IPT overwrites every status with that of closing
  // the connection, which is always success.
  function Status(resp: seq<byte>, c: FrameCall): u32
    requires |resp| == RESP_SIZE
  {
    if c.IptSend? then SUCCESS
    else if ProcessStatus(c.x) != SUCCESS then ProcessStatus(c.x)
    else U32At(resp, 4)
  }

  ghost function CallEffect(g: Globals, c: FrameCall): (Globals, Effect)
    requires Permitted(g, c)
  {
    if Check(c) != SUCCESS then
      if c.MvfwSend? && c.inData.Some? && c.inLength != 0 && c.outData.Some? && c.outLength.Some? then
        // Too much input: found out only after the output was cleared.
        (g, Effect(Check(c), c.outLength, Some(Cleared(c)), []))
      else (g, Effect(Check(c), c.outLength, c.outData, []))
    else if !Connects(c.x) then
      (g, Effect(TEE_FAILURE, OutLength(c), if c.MvfwSend? then Some(Cleared(c)) else OutData(c), []))
    else
      var req := FillReq(g.req, c);
      var resp := ReceivedInto(c.x, FillResp(g.resp, c));
      var sent := if c.x.fd > 0 then [Written(req)] else [];
      if c.MvfwControl? then (Globals(req, resp), Effect(Status(resp, c), None, None, sent))
      else if !Succeeds(resp, c.x) then
        (Globals(req, resp), Effect(Status(resp, c), c.outLength, Some(Cleared(c)), sent))
      else
        var n := OutputCount(resp, c);
        (Globals(req, resp),
         Effect(Status(resp, c), Some(n), Some(Overwrite(Cleared(c), 0, resp[12..12 + n])), sent))
  }

  function OutLength(c: FrameCall): Option<u32>
  {
    if c.MvfwControl? then None else c.outLength
  }

  function OutData(c: FrameCall): Option<seq<byte>>
  {
    if c.MvfwControl? then None else c.outData
  }

  // The response frame as the firmware lays it out, and anything after it.
  function ReplyFrame(id: u32, status: u32, data: seq<byte>, rest: seq<byte>): seq<byte>
    requires |data| < U32_RANGE
  {
    Le32(id) + Le32(status) + Le32(|data|) + data + rest
  }

  // ---------------------------------------------------------------- history independence

  // The frame that goes out, as a value of the arguments and the clock alone.
  function Frame(c: FrameCall): seq<byte>
    requires Check(c) == SUCCESS && InputHeld(c)
  {
    match c
    case IptSend(n, d, out, _, clock, _) =>
      Le32(IPT_SEND_MSG) + Le32(SUCCESS) + Le32(n) + Le32(out.value) + Padded(d.value[..n], MAX_FROM_HOST) + Le32(clock)
    case MvfwSend(n, d, out, _, _) =>
      Le32(MVFW_SEND_MSG) + Le32(SUCCESS) + Le32(n) + Le32(out.value) + Padded(d.value[..n], MAX_FROM_HOST) + Zeros(4)
    case MvfwControl(id, _) => Le32(id) + Zeros(REQ_SIZE - 4)
  }
}
