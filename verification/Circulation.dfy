/** Key blobs over a whole run: what the firmware hands out is what it later gets
    back; and the retry after a too-small answer. */
module Circulation {
  import opened Bytes
  import opened Layout
  import opened Requests
  import opened RequestProofs
  import opened Responses
  import opened ResponseProofs
  import opened Transport
  import opened Keymaster
  import opened Protocol
  import opened Delivery

  // ---------------------------------------------------------------- positions in a run

  ghost function StateAt(calls: seq<Call>, i: nat): State
    requires LegalRun(INITIAL, calls) && i <= |calls|
  {
    assert calls == calls[..i] + calls[i..];
    RunSplit(INITIAL, calls[..i], calls[i..]);
    Final(INITIAL, calls[..i])
  }

  lemma StepAt(calls: seq<Call>, i: nat)
    requires LegalRun(INITIAL, calls) && i < |calls|
    ensures Legal(StateAt(calls, i), calls[i])
    ensures StateAt(calls, i + 1) == Step(StateAt(calls, i), calls[i]).state
  {
    hide Step, Legal;
    assert calls == calls[..i] + calls[i..];
    RunSplit(INITIAL, calls[..i], calls[i..]);
    assert calls[..i + 1] == calls[..i] + [calls[i]] && calls == calls[..i + 1] + calls[i + 1..];
    RunSplit(INITIAL, calls[..i + 1], calls[i + 1..]);
    RunSplit(INITIAL, calls[..i], [calls[i]]);
    assert [calls[i]][1..] == [];
  }

  // Once the capabilities are known, the state never changes again.
  lemma {:induction false} StateStays(calls: seq<Call>, i: nat, j: nat)
    requires LegalRun(INITIAL, calls) && i <= j <= |calls| && StateAt(calls, i).capsObtained
    ensures StateAt(calls, j) == StateAt(calls, i)
    decreases j
  {
    hide Step, Legal, StateAt;
    if i < j {
      StateStays(calls, i, j - 1);
      StepAt(calls, j - 1);
      StepShape(StateAt(calls, j - 1), calls[j - 1]);
    }
  }

  // ---------------------------------------------------------------- circulation

  // A command that hands a key blob back to the firmware.
  predicate UsesBlob(c: HalCommand, blob: seq<byte>)
  {
    match c
    case GetPublic(n, area) => area == blob
    case Sign(b, _) => b == blob
    case Verify(b, _, _) => b == blob
    case _ => false
  }

  function OpaqueOf(m: FwRequest): seq<byte>
  {
    match m
    case FwGetPublic(o) => o
    case FwSign(_, _, o) => o
    case FwVerify(_, _, _, _, o) => o
    case _ => []
  }

  // A message sent once the capabilities are known is the translation of its command.
  lemma SentMessage(st: State, call: Call, c: HalCommand, tail: seq<byte>)
    requires Legal(st, call) && st.capsObtained && Encodable(c) && call.cmd == Some(HalBytes(c) + tail)
    requires Step(st, call).events != []
    ensures Fits(c, st.keyOpaqueSize) && WellSized(Translate(c, st.keyOpaqueSize), st.keyOpaqueSize)
    ensures Step(st, call).events == [Written(Wire(Translate(c, st.keyOpaqueSize), st.keyOpaqueSize))]
  {
    hide Wire, Translate, HalOf, HalBytes, Translation, ExchangeResult, ResponseOf;
    var k := st.keyOpaqueSize;
    HalBytesUnderstood(c, tail, k);
    AcceptedFits(call.cmd.value, k);
  }

  // The first n payload bytes of a generate or import reply, as far as it has them.
  function BlobBytes(reply: seq<byte>, n: nat): (b: seq<byte>)
    ensures |b| <= n
  {
    if |reply| <= 20 then [] else reply[20..Min(|reply|, 20 + n)]
  }

  // A blob handed out by a successful generate or import, read from the caller's
  // buffer and submitted in any later command that goes out, arrives in the firmware's
  // KeyOpaque field: byte for byte when it has the opaque size, zero-padded when a sign
  // or verify command carries a shorter one, cut when a get-public command carries a
  // longer one.  It is the blob the firmware sent exactly
  // when the firmware's reply was complete; of a reply that was cut off, it is what
  // arrived with zeros for the rest.
  lemma KeyBlobCirculates(calls: seq<Call>, i: nat, j: nat, blob: seq<byte>, c: HalCommand, tail: seq<byte>)
    requires LegalRun(INITIAL, calls) && i < j < |calls|
    requires Legal(StateAt(calls, i), calls[i]) && Answered(StateAt(calls, i), calls[i])
    requires var o := Step(StateAt(calls, i), calls[i]);
             && o.rsp.Some? && o.rspLength.Some? && o.rspLength.value <= |o.rsp.value|
             && ParseHal(U32At(calls[i].cmd.value, 0), o.rsp.value[..o.rspLength.value]) == Some(HalKeyBlob(blob))
    requires Legal(StateAt(calls, j), calls[j])
    requires Encodable(c) && UsesBlob(c, blob) && calls[j].cmd == Some(HalBytes(c) + tail)
    requires Step(StateAt(calls, j), calls[j]).events != []
    ensures Delivers(calls[i].env.exchange, SentSize(StateAt(calls, i), calls[i]))
    ensures var reply := calls[i].env.exchange.reply.value;
            && (Complete(reply) <==> ParseReply(reply) == Some(FwKeyBlob(blob)))
            && blob == Padded(BlobBytes(reply, |blob|), |blob|)
    ensures var k := StateAt(calls, j).keyOpaqueSize;
            var e := Step(StateAt(calls, j), calls[j]).events;
            && |e| == 1 && e[0].Written? && ParseFw(e[0].message).Some?
            && var received := OpaqueOf(ParseFw(e[0].message).value);
               && (|blob| == k ==> received == blob)
               && (c.GetPublic? ==> k <= |blob| && received == blob[..k])
               && (!c.GetPublic? ==> |blob| <= k && received == Padded(blob, k))
  {
    hide Step, Legal, Wire, ParseReply, ParseHal, StateAt, HalBytes, ResponseTo, LegalRun, Complete, BlobBytes,
         Received, Delivers, ArgumentCheck;
    var st := StateAt(calls, i);
    CallRoundTrip(st, calls[i]);
    StepAt(calls, i);
    StateStays(calls, i + 1, j);
    BlobArrived(st, calls[i], blob);
    var k := StateAt(calls, j).keyOpaqueSize;
    SentMessage(StateAt(calls, j), calls[j], c, tail);
    WireParses(Translate(c, k), k);
    if |blob| == k {
      assert Padded(blob, k) == blob && blob[..k] == blob;
    }
  }

  lemma BlobArrived(st: State, call: Call, blob: seq<byte>)
    requires ArgumentCheck(call) == Success && Known(U32At(call.cmd.value, 0)) && call.rspLength.value + 8 < U32_RANGE
    requires Delivers(call.env.exchange, SentSize(st, call))
    requires ParseReply(ResponseTo(st, call)) == Some(FwKeyBlob(blob))
    ensures blob == Padded(BlobBytes(call.env.exchange.reply.value, |blob|), |blob|)
  {
    hide Filled, SentSize, Received;
    var size, reply := call.rspLength.value, call.env.exchange.reply.value;
    ResponseIsDelivered(call.env.exchange, SentSize(st, call), size);
    BlobField(ResponseTo(st, call), blob);
    DeliveredBlob(reply, size, |blob|);
  }

  lemma BlobField(resp: seq<byte>, blob: seq<byte>)
    requires ParseReply(resp) == Some(FwKeyBlob(blob))
    ensures 20 + |blob| <= |resp| && resp[20..20 + |blob|] == blob
  {
  }

  lemma DeliveredBlob(reply: seq<byte>, size: u32, n: nat)
    requires size + 8 < U32_RANGE && 20 + n <= size + 8
    ensures Delivered(reply, size)[20..20 + n] == Padded(BlobBytes(reply, n), n)
  {
  }

  // ---------------------------------------------------------------- retry

  // A call answered "too small" leaves in the length word exactly the size with which
  // the same call, answered the same way, succeeds.
  lemma RetryCall(st: State, call: Call, rsp': seq<byte>, size': u32)
    requires st.capsObtained && ArgumentCheck(call) == Success
    requires Legal(st, call) && Step(st, call).result == RspBufferTooSmall
    requires Known(U32At(call.cmd.value, 0))
    requires var retry := call.(rsp := Some(rsp'), rspLength := Some(size'));
             size' == Step(st, call).rspLength.value && Legal(st, retry)
    ensures var retry := call.(rsp := Some(rsp'), rspLength := Some(size'));
            size' > call.rspLength.value
            && Step(st, retry).result == Success && Step(st, retry).rspLength == Some(size')
            && Step(st, retry).events == Step(st, call).events
  {
    hide Wire, Translate, HalOf, Translation, Overwrite, NeededSize, RspId, ResponseOf, Delivered, ExchangeResult;
    var k, cmd, size, x := st.keyOpaqueSize, call.cmd.value, call.rspLength.value, call.env.exchange;
    var n := RequestSize(U32At(cmd, 0), k);
    TransactSuccess(k, cmd, call.rsp.value, size, call.env);
    SoundSize(k, cmd, call.rsp.value, size, call.env);
    var marked := Overwrite(call.rsp.value, 0, Le32(RspId(CodeOf(ResponseOf(x, n, size)))));
    TooSmallGrows(ResponseOf(x, n, size), marked, size);
    SoundSize(k, cmd, rsp', size', call.env);
    AcceptedFits(cmd, k);
    SameSuccess(x, n, size, size');
    var reply := if Delivers(x, n) then x.reply.value else [];
    ResponseIsDelivered(x, n, size);
    ResponseIsDelivered(x, n, size');
    var r, r' := Delivered(reply, size), Delivered(reply, size');
    var first := Overwrite(call.rsp.value, 0, Le32(RspId(CodeOf(r))));
    var second := Overwrite(rsp', 0, Le32(RspId(CodeOf(r'))));
    RetrySize(reply, first, size, second, size');
  }

  lemma TooSmallGrows(resp: seq<byte>, caller: seq<byte>, size: u32)
    requires Ready(resp, caller, size) && Translation(resp, caller, size).result == RspBufferTooSmall
    ensures size < Translation(resp, caller, size).length
  {
  }

  lemma SameSuccess(x: Exchange, n: nat, size: u32, size': u32)
    requires n > 0 && ExchangeResult(x, n, size + 8) == Success
    ensures ExchangeResult(x, n, size' + 8) == Success
  {
  }
}
