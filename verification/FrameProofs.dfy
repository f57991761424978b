/** History independence: nothing of earlier calls shows in a call over the shared frames. */
module FrameProofs {
  import opened Bytes
  import opened Transport
  import opened Frames

  // CallEffect, case by case.
  lemma RunCases(g: Globals, c: FrameCall)
    requires Permitted(g, c)
    ensures InputHeld(c) && (!c.MvfwControl? && c.inData.Some? && Check(c) == SUCCESS ==>
      c.inLength <= |c.inData.value| && c.outLength.value <= |c.outData.value|)
    ensures Check(c) != SUCCESS ==>
      CallEffect(g, c) == (g, Effect(Check(c), OutLength(c),
        if c.MvfwSend? && c.inData.Some? && c.inLength != 0 && c.outData.Some? && c.outLength.Some?
        then Some(Cleared(c)) else OutData(c), []))
    ensures Check(c) == SUCCESS && !Connects(c.x) ==>
      CallEffect(g, c) == (g, Effect(TEE_FAILURE, OutLength(c),
        if c.MvfwSend? then Some(Cleared(c)) else OutData(c), []))
    ensures Check(c) == SUCCESS && Connects(c.x) ==>
      var req, resp := FillReq(g.req, c), ReceivedInto(c.x, FillResp(g.resp, c));
      var sent := if c.x.fd > 0 then [Written(req)] else [];
      && CallEffect(g, c).0 == Globals(req, resp)
      && (c.MvfwControl? ==> CallEffect(g, c).1 == Effect(Status(resp, c), None, None, sent))
      && (!c.MvfwControl? && !Succeeds(resp, c.x) ==>
            CallEffect(g, c).1 == Effect(Status(resp, c), c.outLength, Some(Cleared(c)), sent))
      && (!c.MvfwControl? && Succeeds(resp, c.x) ==>
            var n := OutputCount(resp, c);
            n <= MAX_TO_HOST && n <= |c.outData.value|
            && CallEffect(g, c).1
                 == Effect(Status(resp, c), Some(n), Some(Overwrite(Cleared(c), 0, resp[12..12 + n])), sent))
  {
  }

  // Whatever the request frame held before, after the stores it is Frame of the call.
  lemma RequestIsFrame(req: seq<byte>, c: FrameCall)
    requires |req| == REQ_SIZE && Check(c) == SUCCESS && InputHeld(c)
    ensures FillReq(req, c) == Frame(c)
  {
  }

  // Nor does the response frame keep anything.
  lemma ResponseForgets(resp: seq<byte>, resp': seq<byte>, c: FrameCall)
    requires |resp| == |resp'| == RESP_SIZE && Check(c) == SUCCESS
    ensures FillResp(resp, c) == FillResp(resp', c)
  {
  }

  // One call over two different pasts: same effect, and the same frames from then on.
  lemma CallForgets(g: Globals, h: Globals, c: FrameCall)
    requires Permitted(g, c) && Proper(h)
    ensures Permitted(h, c) && CallEffect(g, c).1 == CallEffect(h, c).1
    ensures Check(c) == SUCCESS && Connects(c.x) ==> CallEffect(g, c).0 == CallEffect(h, c).0
    ensures Check(c) == SUCCESS && Connects(c.x) && c.x.fd > 0 ==> CallEffect(g, c).1.sent == [Written(Frame(c))]
    ensures Proper(CallEffect(g, c).0) && Proper(CallEffect(h, c).0)
  {
    hide FillReq, FillResp, Frame, ReceivedInto, Cleared, OutputCount;
    if Check(c) == SUCCESS {
      RequestIsFrame(g.req, c);
      RequestIsFrame(h.req, c);
      ResponseForgets(g.resp, h.resp, c);
    }
  }

  ghost predicate PermittedRun(g: Globals, calls: seq<FrameCall>)
    decreases |calls|
  {
    calls == [] || (Permitted(g, calls[0]) && PermittedRun(CallEffect(g, calls[0]).0, calls[1..]))
  }

  ghost function Effects(g: Globals, calls: seq<FrameCall>): seq<Effect>
    requires PermittedRun(g, calls)
    decreases |calls|
  {
    if calls == [] then [] else [CallEffect(g, calls[0]).1] + Effects(CallEffect(g, calls[0]).0, calls[1..])
  }

  // Any interleaving of IPT and media-vault calls has the same effects, call by call,
  // from any two contents of the shared frames.
  lemma {:induction false} HistoryIndependence(g: Globals, h: Globals, calls: seq<FrameCall>)
    requires PermittedRun(g, calls) && Proper(h)
    ensures PermittedRun(h, calls) && Effects(g, calls) == Effects(h, calls)
    decreases |calls|
  {
    hide CallEffect, Permitted;
    if calls != [] {
      CallForgets(g, h, calls[0]);
      HistoryIndependence(CallEffect(g, calls[0]).0, CallEffect(h, calls[0]).0, calls[1..]);
    }
  }

  // Each effect of a run is that of its call alone, over cleared frames.
  lemma {:induction false} EffectsAlone(g: Globals, calls: seq<FrameCall>, i: nat)
    requires PermittedRun(g, calls) && Proper(g) && i < |calls|
    ensures var blank := Globals(Zeros(REQ_SIZE), Zeros(RESP_SIZE));
            |Effects(g, calls)| == |calls|
            && Permitted(blank, calls[i]) && Effects(g, calls)[i] == CallEffect(blank, calls[i]).1
    decreases |calls|
  {
    hide CallEffect, Permitted;
    var blank := Globals(Zeros(REQ_SIZE), Zeros(RESP_SIZE));
    CallForgets(g, blank, calls[0]);
    if i > 0 {
      EffectsAlone(CallEffect(g, calls[0]).0, calls[1..], i - 1);
    } else if |calls| > 1 {
      EffectsAlone(CallEffect(g, calls[0]).0, calls[1..], 0);
    }
  }

  // An IPT call reports success exactly when it gets as far as the exchange, whatever
  // the transport or the firmware said.  So its status is right exactly when the reply
  // is a success or the exchange was not reached; otherwise the caller's output is
  // cleared and its length left as it was.
  lemma IptMasksFailure(g: Globals, c: FrameCall)
    requires Permitted(g, c) && c.IptSend?
    ensures CallEffect(g, c).1.ret == SUCCESS <==> Check(c) == SUCCESS && Connects(c.x)
    ensures Check(c) == SUCCESS && Connects(c.x) && !Succeeds(ReceivedInto(c.x, FillResp(g.resp, c)), c.x) ==>
      CallEffect(g, c).1.outLength == c.outLength && CallEffect(g, c).1.outData == Some(Cleared(c))
  {
  }

  // A firmware that answers status 1, and an IPT call that reports success; the
  // media-vault call with the same arguments and the same answer reports status 1.
  lemma FailureMasked(g: Globals)
    requires Proper(g)
    ensures var x := Exchange(true, 3, 0, REQ_SIZE, 1, true, Some(ReplyFrame(IPT_SEND_MSG, 1, [], Zeros(MAX_TO_HOST))));
            var ipt := IptSend(1, Some([7]), Some(0), Some([]), 0, x);
            var mvfw := MvfwSend(1, Some([7]), Some(0), Some([]), x);
            && Permitted(g, ipt) && CallEffect(g, ipt).1.ret == SUCCESS
            && Permitted(g, mvfw) && CallEffect(g, mvfw).1.ret == 1
  {
    var f := ReplyFrame(IPT_SEND_MSG, 1, [], Zeros(MAX_TO_HOST));
    assert f[4..8] == Le32(1) && f[..RESP_SIZE] == f;
    WordInField(f, 4, 1);
    var x := Exchange(true, 3, 0, REQ_SIZE, 1, true, Some(f));
    var ipt, mvfw := IptSend(1, Some([7]), Some(0), Some([]), 0, x), MvfwSend(1, Some([7]), Some(0), Some([]), x);
    OverwriteAll(FillResp(g.resp, ipt), f);
    OverwriteAll(FillResp(g.resp, mvfw), f);
  }

  // A reply was received, and its status word is zero as far as it was received.
  predicate TakenForSuccess(x: Exchange)
  {
    x.fd > 0 && x.reply.Some? && forall i :: 4 <= i < 8 && i < |x.reply.value| ==> x.reply.value[i] == 0
  }

  // That is when a reply counts as a success: one that is cut off before its status does.
  lemma SucceedsIff(g: Globals, c: FrameCall)
    requires Proper(g) && Check(c) == SUCCESS
    ensures Succeeds(ReceivedInto(c.x, FillResp(g.resp, c)), c.x) <==> TakenForSuccess(c.x)
  {
    var resp := FillResp(g.resp, c);
    var r := ReceivedInto(c.x, resp);
    Prefilled(g.resp, c);
    if c.x.fd > 0 && c.x.reply.Some? {
      var d := c.x.reply.value;
      assert forall i :: 4 <= i < 8 ==> r[i] == if i < |d| then d[i] else 0;
      ZeroWord(r, 4);
    }
  }

  // The length in the response frame before anything is received.
  function LengthBefore(c: FrameCall): u32
    requires !c.MvfwControl? && c.outLength.Some?
  {
    if c.IptSend? then 0 else c.outLength.value
  }

  lemma Prefilled(resp: seq<byte>, c: FrameCall)
    requires |resp| == RESP_SIZE && Check(c) == SUCCESS
    ensures forall i :: 4 <= i < 8 || 12 <= i < RESP_SIZE ==> FillResp(resp, c)[i] == 0
    ensures !c.MvfwControl? ==> FillResp(resp, c)[8..12] == Le32(LengthBefore(c))
  {
    var f := FillResp(resp, c);
    assert f[4..8] == Le32(SUCCESS);
    assert f[4] == f[4..8][0] && f[5] == f[4..8][1] && f[6] == f[4..8][2] && f[7] == f[4..8][3];
  }

  lemma ZeroWord(s: seq<byte>, off: nat)
    requires off + 4 <= |s|
    ensures U32At(s, off) == 0 <==> forall i :: off <= i < off + 4 ==> s[i] == 0
  {
    assert U32At(s, off) == 0 ==> s[off] == s[off + 1] == s[off + 2] == s[off + 3] == 0;
  }

  // The bytes of d from lo to hi, as far as it has them.
  function Part(d: seq<byte>, lo: nat, hi: nat): (p: seq<byte>)
    requires lo <= hi
    ensures |p| <= hi - lo
  {
    if |d| <= lo then [] else d[lo..Min(|d|, hi)]
  }

  // The length a caller is told: the reply's length word, completed from the frame where
  // the reply ends in or before it; IPT keeps its low half.
  function ToldLength(d: seq<byte>, c: FrameCall): u32
    requires !c.MvfwControl? && c.outLength.Some?
  {
    var word := U32At(Part(d, 8, 12) + Le32(LengthBefore(c))[|Part(d, 8, 12)|..], 0);
    if c.IptSend? then word % 0x1_0000 else word
  }

  // The data of a reply, read by the firmware's layout from what it sent.
  function FrameData(d: seq<byte>): Option<seq<byte>>
  {
    if |d| >= 12 && |d| >= 12 + U32At(d, 8) then Some(d[12..12 + U32At(d, 8)]) else None
  }

  // The reply holds the data it declares, and IPT can tell its length.
  predicate Whole(d: seq<byte>, c: FrameCall)
  {
    |d| >= 12 && |d| >= 12 + U32At(d, 8) && (c.IptSend? ==> U32At(d, 8) < 0x1_0000)
  }

  // What a caller gets of any reply that counts as a success: the length as told, that
  // many bytes of which those that did not arrive are zeros, zeros up to the length asked
  // for, and no change after that.  It is the firmware's data exactly when the reply was
  // whole.
  lemma ReplyReachesCaller(g: Globals, c: FrameCall)
    requires Permitted(g, c) && !c.MvfwControl? && Check(c) == SUCCESS && Connects(c.x) && TakenForSuccess(c.x)
    ensures var d, e := c.x.reply.value, CallEffect(g, c).1;
            var n := ToldLength(d, c);
            var asked := if c.outLength.value < n then n else c.outLength.value;
            && e.ret == SUCCESS && e.outLength == Some(n) && e.outData.Some?
            && n <= |e.outData.value| == |c.outData.value| && asked <= |c.outData.value|
            && e.outData.value[..n] == Padded(Part(d, 12, 12 + n), n)
            && e.outData.value[n..asked] == Zeros(asked - n)
            && e.outData.value[asked..] == c.outData.value[asked..]
            && (FrameData(d) == Some(e.outData.value[..n]) <==> Whole(d, c))
    ensures var d, n := c.x.reply.value, ToldLength(c.x.reply.value, c);
            && (|d| >= 12 ==> n == if c.IptSend? then U32At(d, 8) % 0x1_0000 else U32At(d, 8))
            && (|d| <= 8 ==> n == LengthBefore(c))
  {
    hide CallEffect, FillReq, FillResp, Overwrite, U32At, Le32;
    SucceedsIff(g, c);
    var d := c.x.reply.value;
    var resp := ReceivedInto(c.x, FillResp(g.resp, c));
    LengthReceived(g, c);
    RunCases(g, c);
    var n := ToldLength(d, c);
    DataReceived(g, c, n);
    CopiedOut(c.outData.value, c.outLength.value, resp[12..12 + n]);
    FrameDataIff(d, c, n);
    ToldWhole(d, c);
  }

  lemma ToldWhole(d: seq<byte>, c: FrameCall)
    requires !c.MvfwControl? && c.outLength.Some?
    ensures |d| >= 12 ==> ToldLength(d, c) == if c.IptSend? then U32At(d, 8) % 0x1_0000 else U32At(d, 8)
    ensures |d| <= 8 ==> ToldLength(d, c) == LengthBefore(c)
  {
    var word := Part(d, 8, 12) + Le32(LengthBefore(c))[|Part(d, 8, 12)|..];
    if |d| >= 12 {
      assert word == d[8..12];
      FieldOfWord(d, 8);
      WordRoundTrip(U32At(d, 8));
    } else if |d| <= 8 {
      assert word == Le32(LengthBefore(c));
      WordRoundTrip(LengthBefore(c));
    }
  }

  lemma LengthReceived(g: Globals, c: FrameCall)
    requires Proper(g) && !c.MvfwControl? && Check(c) == SUCCESS && c.x.fd > 0 && c.x.reply.Some?
    ensures OutputCount(ReceivedInto(c.x, FillResp(g.resp, c)), c) == ToldLength(c.x.reply.value, c)
  {
    hide FillResp, U32At, Le32;
    var d, f := c.x.reply.value, FillResp(g.resp, c);
    var r := ReceivedInto(c.x, f);
    Prefilled(g.resp, c);
    MergedWord(f, d, r);
    SliceWord(r, 8);
  }

  lemma MergedWord(f: seq<byte>, d: seq<byte>, r: seq<byte>)
    requires |f| >= 12 && r == Overwrite(f, 0, d[..Min(|d|, |f|)])
    ensures r[8..12] == Part(d, 8, 12) + f[8..12][|Part(d, 8, 12)|..]
  {
    var n := Min(|d|, |f|);
    OverwriteAt(f, 0, d[..n]);
    var w := Part(d, 8, 12) + f[8..12][|Part(d, 8, 12)|..];
    assert |w| == 4;
    forall i | 0 <= i < 4 ensures r[8 + i] == w[i] {
      assert r[8 + i] == if 8 + i < n then d[8 + i] else f[8 + i];
    }
  }

  lemma SliceWord(s: seq<byte>, off: nat)
    requires off + 4 <= |s|
    ensures U32At(s[off..off + 4], 0) == U32At(s, off)
  {
  }

  lemma DataReceived(g: Globals, c: FrameCall, n: nat)
    requires Proper(g) && !c.MvfwControl? && Check(c) == SUCCESS && c.x.fd > 0 && c.x.reply.Some?
    requires n <= MAX_TO_HOST
    ensures ReceivedInto(c.x, FillResp(g.resp, c))[12..12 + n] == Padded(Part(c.x.reply.value, 12, 12 + n), n)
  {
    hide FillResp;
    Prefilled(g.resp, c);
  }

  lemma FrameDataIff(d: seq<byte>, c: FrameCall, n: nat)
    requires !c.MvfwControl? && c.outLength.Some? && n == ToldLength(d, c)
    ensures FrameData(d) == Some(Padded(Part(d, 12, 12 + n), n)) <==> Whole(d, c)
  {
    hide U32At, ToldLength;
    ToldWhole(d, c);
    var data := Padded(Part(d, 12, 12 + n), n);
    if Whole(d, c) {
      assert n == U32At(d, 8) && data == d[12..12 + n];
    } else if FrameData(d).Some? {
      assert |FrameData(d).value| == U32At(d, 8) != n == |data|;
    }
  }

  // The firmware's layout is whole, whatever follows its data.
  lemma FramesAreWhole(id: u32, status: u32, data: seq<byte>, rest: seq<byte>, c: FrameCall)
    requires |data| < 0x1_0000
    ensures var d := ReplyFrame(id, status, data, rest);
            |d| >= 12 && U32At(d, 4) == status && Whole(d, c) && FrameData(d) == Some(data)
  {
    var d := ReplyFrame(id, status, data, rest);
    assert d[4..8] == Le32(status) && d[8..12] == Le32(|data|) && d[12..12 + |data|] == data;
    WordInField(d, 4, status);
    WordInField(d, 8, |data|);
  }

  // The write fails, not a byte is received, and a media-vault call that asked for four
  // bytes reports success and four zeros.
  lemma NothingReceivedIsData(g: Globals)
    requires Proper(g)
    ensures var c := MvfwSend(1, Some([7]), Some(4), Some([1, 2, 3, 4]), Exchange(true, 3, 0, -1, 1, true, Some([])));
            && Permitted(g, c) && FrameData(c.x.reply.value) == None
            && CallEffect(g, c).1.ret == SUCCESS && CallEffect(g, c).1.outLength == Some(4)
            && CallEffect(g, c).1.outData == Some(Zeros(4))
  {
    var c := MvfwSend(1, Some([7]), Some(4), Some([1, 2, 3, 4]), Exchange(true, 3, 0, -1, 1, true, Some([])));
    LengthReceived(g, c);
    ToldWhole([], c);
    ReplyReachesCaller(g, c);
    var out := CallEffect(g, c).1.outData.value;
    assert out == out[..4] == Zeros(4);
  }

  lemma CopiedOut(out: seq<byte>, asked: nat, data: seq<byte>)
    requires asked <= |out| && |data| <= |out|
    ensures var r := Overwrite(Overwrite(out, 0, Zeros(asked)), 0, data);
            var end := if asked < |data| then |data| else asked;
            r[..|data|] == data && r[|data|..end] == Zeros(end - |data|) && r[end..] == out[end..]
  {
  }

  // ---------------------------------------------------------------- every exit, by raw inputs

  // The words of the frame that goes out, and the data between them.
  lemma FrameWords(c: FrameCall)
    requires Check(c) == SUCCESS && InputHeld(c) && (c.MvfwControl? ==> c.cmdId in MVFW_CONTROL_IDS)
    ensures var f := Frame(c);
            && |f| == 5036 && U32At(f, 4) == 0
            && U32At(f, 0) == (if c.IptSend? then 0x8000_0001 else if c.MvfwSend? then 0x7000_0005 else c.cmdId)
            && (c.MvfwControl? ==> 0x7000_0001 <= U32At(f, 0) <= 0x7000_0004 && f[4..] == Zeros(5032))
            && (!c.MvfwControl? ==>
                  && U32At(f, 8) == c.inLength && U32At(f, 12) == c.outLength.value
                  && f[16..5032] == Padded(c.inData.value[..c.inLength], 5016)
                  && U32At(f, 5032) == if c.IptSend? then c.clock else 0)
  {
    hide Padded, U32At;
    var f := Frame(c);
    if c.MvfwControl? {
      assert f[0..4] == Le32(c.cmdId) && f[4..8] == Le32(0) && f[4..] == Zeros(5032);
      WordInField(f, 0, c.cmdId);
      WordInField(f, 4, 0);
    } else {
      SendFrameWords(f, if c.IptSend? then IPT_SEND_MSG else MVFW_SEND_MSG, c.inLength, c.outLength.value,
                     Padded(c.inData.value[..c.inLength], 5016), if c.IptSend? then c.clock else 0);
    }
  }

  lemma SendFrameWords(f: seq<byte>, id: u32, inLength: u32, outLength: u32, data: seq<byte>, time: u32)
    requires |data| == 5016
    requires f == Le32(id) + Le32(SUCCESS) + Le32(inLength) + Le32(outLength) + data + Le32(time)
    ensures |f| == 5036 && U32At(f, 0) == id && U32At(f, 4) == 0 && U32At(f, 8) == inLength && U32At(f, 12) == outLength
    ensures f[16..5032] == data && U32At(f, 5032) == time
  {
    assert f[0..4] == Le32(id) && f[4..8] == Le32(0) && f[8..12] == Le32(inLength) && f[12..16] == Le32(outLength);
    assert f[16..5032] == data && f[5032..5036] == Le32(time);
    WordInField(f, 0, id);
    WordInField(f, 4, 0);
    WordInField(f, 8, inLength);
    WordInField(f, 12, outLength);
    WordInField(f, 5032, time);
  }

  // The answer to arguments that are refused, if they are.
  function Refusal(c: FrameCall): Option<u32>
  {
    match c
    case IptSend(n, d, out, data, _, _) =>
      if d.None? || out.None? || data.None? then Some(2)
      else if n == 0 || n > 5016 then Some(1)
      else None
    case MvfwSend(n, d, out, data, _) =>
      if d.None? || out.None? || data.None? || n == 0 || n > 5016 then Some(1) else None
    case MvfwControl(_, _) => None
  }

  // A call that does not get to the exchange: its status, nothing sent, the frames and
  // the length as they were, and the output as it was, but that a media-vault call whose
  // input is there clears it first.
  lemma CallStops(g: Globals, c: FrameCall)
    requires Permitted(g, c)
    requires Refusal(c).Some? || !c.x.handle || c.x.fd == -1 || c.x.ioctl != 0
    ensures var (g', e) := CallEffect(g, c);
            && g' == g && e.sent == []
            && e.ret == (if Refusal(c).Some? then Refusal(c).value else 0xFFFF_FFFF)
            && (c.MvfwControl? ==> e.outLength == None && e.outData == None)
            && (!c.MvfwControl? ==> e.outLength == c.outLength)
            && (c.IptSend? ==> e.outData == c.outData)
            && (c.MvfwSend? ==>
                  e.outData == if c.inData.Some? && c.inLength != 0 && c.outLength.Some? && c.outData.Some?
                               then Some(Zeros(c.outLength.value) + c.outData.value[c.outLength.value..])
                               else c.outData)
  {
    if c.MvfwSend? && c.outLength.Some? && c.outData.Some? {
      ClearedOutput(c);
    }
  }

  lemma ClearedOutput(c: FrameCall)
    requires !c.MvfwControl? && c.outLength.Some? && c.outData.Some? && OutputHeld(c)
    ensures Cleared(c) == Zeros(c.outLength.value) + c.outData.value[c.outLength.value..]
  {
  }

  // A call that gets to the exchange sends its frame if the descriptor is good.
  lemma CallSends(g: Globals, c: FrameCall)
    requires Permitted(g, c) && Refusal(c).None? && c.x.handle && c.x.fd != -1 && c.x.ioctl == 0
    ensures Check(c) == SUCCESS
    ensures CallEffect(g, c).1.sent == if c.x.fd > 0 then [Written(Frame(c))] else []
  {
    hide FillReq, FillResp, Frame, ReceivedInto, Cleared, OutputCount;
    RequestIsFrame(g.req, c);
  }

  // The status word of a reply, zeros standing in for what did not arrive.
  function StatusWord(d: seq<byte>): u32
  {
    U32At(Part(d, 4, 8) + Zeros(4 - |Part(d, 4, 8)|), 0)
  }

  // The status of every media-vault call that gets to the exchange, control calls
  // included, whatever became of the write.
  lemma MvfwStatus(g: Globals, c: FrameCall)
    requires Permitted(g, c) && !c.IptSend? && Refusal(c).None? && c.x.handle && c.x.fd != -1 && c.x.ioctl == 0
    ensures CallEffect(g, c).1.ret
              == if c.x.fd <= 0 || c.x.reply.None? then 0xFFFF_FFFF else StatusWord(c.x.reply.value)
    ensures CallEffect(g, c).1.ret == SUCCESS <==> TakenForSuccess(c.x)
    ensures CallEffect(g, c).1.ret != SUCCESS && c.MvfwSend? ==>
      && CallEffect(g, c).1.outLength == c.outLength
      && CallEffect(g, c).1.outData == Some(Zeros(c.outLength.value) + c.outData.value[c.outLength.value..])
    ensures c.x.reply.Some? && |c.x.reply.value| >= 8 ==>
      StatusWord(c.x.reply.value) == U32At(c.x.reply.value, 4)
  {
    hide FillReq, FillResp, Cleared, U32At, OutputCount;
    SucceedsIff(g, c);
    if c.MvfwSend? {
      ClearedOutput(c);
    }
    if c.x.reply.Some? {
      var d, f := c.x.reply.value, FillResp(g.resp, c);
      if c.x.fd > 0 {
        StatusReceived(f, g.resp, c, d);
      }
      if |d| >= 8 {
        assert Part(d, 4, 8) + Zeros(0) == d[4..8];
        SliceWord(d, 4);
      }
    }
  }

  lemma StatusReceived(f: seq<byte>, resp: seq<byte>, c: FrameCall, d: seq<byte>)
    requires |resp| == RESP_SIZE && Check(c) == SUCCESS && f == FillResp(resp, c)
    ensures U32At(Overwrite(f, 0, d[..Min(|d|, |f|)]), 4) == StatusWord(d)
  {
    hide FillResp, U32At;
    Prefilled(resp, c);
    var r := Overwrite(f, 0, d[..Min(|d|, |f|)]);
    var w := Part(d, 4, 8) + Zeros(4 - |Part(d, 4, 8)|);
    forall i | 0 <= i < 4 ensures r[4 + i] == w[i] {
      assert r[4 + i] == if 4 + i < |d| then d[4 + i] else f[4 + i];
    }
    assert r[4..8] == w;
    SliceWord(r, 4);
  }

  // A control call refused by the firmware with status 5.
  lemma ControlFails(g: Globals)
    requires Proper(g)
    ensures var c := MvfwControl(0x7000_0001, Exchange(true, 3, 0, REQ_SIZE, 1, true, Some(Le32(0) + Le32(5))));
            Permitted(g, c) && CallEffect(g, c).1.ret == 5
  {
    var c := MvfwControl(0x7000_0001, Exchange(true, 3, 0, REQ_SIZE, 1, true, Some(Le32(0) + Le32(5))));
    MvfwStatus(g, c);
    var d := c.x.reply.value;
    assert d[4..8] == Le32(5);
    WordInField(d, 4, 5);
  }
}
