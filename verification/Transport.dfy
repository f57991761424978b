/** The process's resources and the MEI transport: connect, send, receive,
    disconnect.  What the operating system and the firmware answer is a
    parameter, so that a call's effect is a function of its inputs. */
module Transport {
  import opened Bytes
  import opened Layout

  // What is observable outside the process: the messages given to write(), and the
  // moment the library takes the firmware's capabilities as known.
  datatype Event = Written(message: seq<byte>) | CapsLearned(keyOpaqueSize: u32)

  // The outcomes one exchange with the driver can meet: calloc of the handle, open,
  // the connect ioctl, the count from write (negative: error), the count from select
  // and whether the descriptor is set, and what read delivers (None: error).
  datatype Exchange = Exchange(
    handle: bool, fd: int, ioctl: int, written: int, selected: int, isSet: bool, reply: Option<seq<byte>>)

  class Platform {
    ghost var live: set<object>       // heap blocks allocated and not yet freed
    ghost var open: multiset<int>     // open descriptors
    ghost var trace: seq<Event>

    constructor ()
      ensures live == {} && open == multiset{} && trace == []
    {
      live, open, trace := {}, multiset{}, [];
    }

    method Malloc(n: nat, available: bool) returns (a: array?<byte>)
      modifies this`live
      ensures a != null <==> available
      ensures a != null ==> fresh(a) && a.Length == n && live == old(live) + {a}
      ensures a == null ==> live == old(live)
    {
      a := null;
      if available {
        a := new byte[n];
        live := live + {a};
      }
    }

    // Freeing a block twice is ruled out by the precondition.
    method Free(a: object)
      requires a in live
      modifies this`live
      ensures live == old(live) - {a}
    {
      live := live - {a};
    }

    method Close(fd: int)
      requires fd in open
      modifies this`open
      ensures open == old(open) - multiset{fd}
    {
      open := open - multiset{fd};
    }
  }

  class MeiHandle {
    var fd: int
    constructor () { fd := 0; }
  }

  predicate Connects(x: Exchange)
  {
    x.handle && x.fd != -1 && x.ioctl == 0
  }

  function SndStatus(x: Exchange): int
  {
    if x.fd <= 0 || x.written < 0 || !(x.selected > 0 && x.isSet) then -1 else x.written
  }

  function RcvStatus(x: Exchange, size: nat): int
  {
    if x.fd <= 0 || x.reply.None? then -1 else Min(|x.reply.value|, size)
  }

  // The status of a whole exchange of sndSize bytes for rcvSize bytes.
  function SndRcvStatus(x: Exchange, sndSize: nat, rcvSize: nat): int
  {
    if SndStatus(x) <= 0 then SndStatus(x)
    else if SndStatus(x) != sndSize then -1
    else if RcvStatus(x, rcvSize) == rcvSize then 0
    else RcvStatus(x, rcvSize)
  }

  // The exchange got as far as delivering reply bytes.
  predicate Delivers(x: Exchange, sndSize: nat)
  {
    Connects(x) && x.fd > 0 && SndStatus(x) == sndSize > 0 && x.reply.Some?
  }

  // The connection works, but the driver took no byte of the message.
  predicate NothingTaken(x: Exchange)
  {
    Connects(x) && SndStatus(x) == 0
  }

  function Received(x: Exchange, sndSize: nat, buf: seq<byte>): (r: seq<byte>)
    ensures |r| == |buf|
  {
    if Delivers(x, sndSize) then Overwrite(buf, 0, x.reply.value[..Min(|x.reply.value|, |buf|)]) else buf
  }

  function Writes(x: Exchange, message: seq<byte>): seq<Event>
  {
    if Connects(x) && x.fd > 0 then [Written(message)] else []
  }

  function ExchangeResult(x: Exchange, sndSize: nat, rcvSize: nat): SepResult
  {
    if !Connects(x) then HeciConnectFailed
    else if SndRcvStatus(x, sndSize, rcvSize) < 0 then HeciSndRcvFailed
    else Success
  }

  // An exchange counts as successful also when the driver took no byte of the
  // message, and then nothing was received: success means a reply arrived only if
  // the whole message was taken.  A short reply is a success as well.
  lemma ExchangeSucceedsIff(x: Exchange, sndSize: nat, rcvSize: nat)
    requires sndSize > 0
    ensures ExchangeResult(x, sndSize, rcvSize) == Success <==>
      Delivers(x, sndSize) || NothingTaken(x)
    ensures NothingTaken(x) ==> !Delivers(x, sndSize)
  {
  }

  // The status of an exchange and what it receives, by what each call of the system gave:
  // a select that times out or does not name the descriptor fails it, whatever was written.
  lemma ExchangeOutcomes(x: Exchange, sndSize: nat, rcvSize: nat)
    requires sndSize > 0
    ensures ExchangeResult(x, sndSize, rcvSize) == HeciConnectFailed <==> !x.handle || x.fd == -1 || x.ioctl != 0
    ensures ExchangeResult(x, sndSize, rcvSize) == Success <==>
      && x.handle && x.fd > 0 && x.ioctl == 0 && x.selected > 0 && x.isSet
      && (x.written == 0 || (x.written == sndSize && x.reply.Some?))
    ensures ExchangeResult(x, sndSize, rcvSize) in {HeciConnectFailed, HeciSndRcvFailed, Success}
    ensures NothingTaken(x) <==>
      x.handle && x.fd > 0 && x.ioctl == 0 && x.selected > 0 && x.isSet && x.written == 0
    ensures Delivers(x, sndSize) <==>
      && x.handle && x.fd > 0 && x.ioctl == 0 && x.selected > 0 && x.isSet
      && x.written == sndSize && x.reply.Some?
  {
  }

  // A send that was complete and then timed out: nothing is received, and it fails.
  lemma SelectTimesOut(reply: seq<byte>, sndSize: nat, buf: seq<byte>)
    requires sndSize > 0
    ensures var x := Exchange(true, 3, 0, sndSize, 0, false, Some(reply));
            ExchangeResult(x, sndSize, |buf|) == HeciSndRcvFailed && Received(x, sndSize, buf) == buf
  {
  }

  method MeiConnect(p: Platform, x: Exchange) returns (h: MeiHandle?)
    modifies p`live, p`open
    ensures h != null <==> Connects(x)
    ensures h != null ==>
      fresh(h) && h.fd == x.fd && p.live == old(p.live) + {h} && p.open == old(p.open) + multiset{x.fd}
    ensures h == null ==> p.live == old(p.live) && p.open == old(p.open)
  {
    if !x.handle {
      return null;
    }
    h := new MeiHandle();
    p.live := p.live + {h};
    h.fd := x.fd;
    if h.fd == -1 {
      p.Free(h);
      return null;
    }
    p.open := p.open + multiset{h.fd};
    if x.ioctl != 0 {
      p.Close(h.fd);
      p.Free(h);
      return null;
    }
  }

  method MeiDisconnect(p: Platform, h: MeiHandle?)
    requires h != null ==> h in p.live && h.fd in p.open
    modifies p`live, p`open
    ensures h == null ==> p.live == old(p.live) && p.open == old(p.open)
    ensures h != null ==> p.live == old(p.live) - {h} && p.open == old(p.open) - multiset{h.fd}
  {
    if h == null {
      return;
    }
    p.Close(h.fd);
    p.Free(h);
  }

  method MeiSndMsg(p: Platform, h: MeiHandle?, buf: array?<byte>, x: Exchange) returns (rv: int)
    requires h != null ==> h.fd == x.fd
    modifies p`trace
    ensures h == null || buf == null ==> rv == -1 && p.trace == old(p.trace)
    ensures h != null && buf != null ==> rv == SndStatus(x)
    ensures rv >= 0 <==> h != null && buf != null && x.fd > 0 && x.written >= 0 && x.selected > 0 && x.isSet
    ensures rv == if rv >= 0 then x.written else -1
    ensures h != null && buf != null ==>
      p.trace == old(p.trace) + (if x.fd > 0 then [Written(buf[..])] else [])
  {
    if h == null || buf == null || h.fd <= 0 {
      return -1;
    }
    p.trace := p.trace + [Written(buf[..])];
    if x.written < 0 {
      return -1;
    }
    if x.selected > 0 && x.isSet {
    } else if x.selected == 0 {
      return -1;
    } else {
      return -1;
    }
    rv := x.written;
  }

  method MeiRcvMsg(h: MeiHandle?, buf: array?<byte>, x: Exchange) returns (rv: int)
    requires h != null ==> h.fd == x.fd
    modifies buf
    ensures h == null || buf == null ==> rv == -1
    ensures h == null && buf != null ==> buf[..] == old(buf[..])
    ensures h != null && buf != null ==> rv == RcvStatus(x, buf.Length)
    ensures rv == if h == null || buf == null || x.fd <= 0 || x.reply.None? then -1
                  else Min(|x.reply.value|, buf.Length)
    ensures h != null && buf != null && rv < 0 ==> buf[..] == old(buf[..])
    ensures h != null && buf != null && rv >= 0 ==>
      x.reply.Some? && buf[..] == Overwrite(old(buf[..]), 0, x.reply.value[..Min(|x.reply.value|, buf.Length)])
  {
    if h == null || buf == null || h.fd <= 0 {
      return -1;
    }
    if x.reply.None? {
      return -1;
    }
    // read() delivers into the front of the buffer, never past its end.
    var n := Min(|x.reply.value|, buf.Length);
    ghost var was := buf[..];
    for i := 0 to n
      invariant forall k :: 0 <= k < buf.Length ==> buf[k] == if k < i then x.reply.value[k] else was[k]
    {
      buf[i] := x.reply.value[i];
    }
    assert buf[..] == Overwrite(was, 0, x.reply.value[..n]);
    rv := n;
  }

  method MeiSndRcv(p: Platform, h: MeiHandle, snd: array<byte>, rcv: array<byte>, x: Exchange)
    returns (status: int)
    requires snd != rcv && Connects(x) && h.fd == x.fd && snd.Length > 0
    modifies p`trace, rcv
    ensures status == SndRcvStatus(x, snd.Length, rcv.Length)
    ensures status ==
      if x.fd <= 0 || x.written < 0 || x.selected <= 0 || !x.isSet then -1
      else if x.written == 0 then 0
      else if x.written != snd.Length || x.reply.None? then -1
      else if |x.reply.value| >= rcv.Length then 0
      else |x.reply.value|
    ensures rcv[..] == Received(x, snd.Length, old(rcv[..]))
    ensures p.trace == old(p.trace) + Writes(x, snd[..])
  {
    status := MeiSndMsg(p, h, snd, x);
    if status <= 0 {
      return;
    }
    if status != snd.Length {
      return -1;
    }
    status := MeiRcvMsg(h, rcv, x);
    if status <= 0 || status != rcv.Length {
      return;
    }
    return 0;
  }

  // One connection per exchange; it is closed again whatever happened.
  method SendReqToFw(p: Platform, req: array<byte>, resp: array<byte>, x: Exchange) returns (result: SepResult)
    requires req != resp && req.Length > 0
    modifies p, resp
    ensures result == ExchangeResult(x, req.Length, resp.Length)
    ensures resp[..] == Received(x, req.Length, old(resp[..]))
    ensures p.trace == old(p.trace) + Writes(x, req[..])
    // The same by the raw outcomes.
    ensures result == Success <==>
      && x.handle && x.fd > 0 && x.ioctl == 0 && x.selected > 0 && x.isSet
      && (x.written == 0 || (x.written == req.Length && x.reply.Some?))
    ensures result == Success && x.written != 0 ==>
      resp[..] == Overwrite(old(resp[..]), 0, x.reply.value[..Min(|x.reply.value|, resp.Length)])
    ensures result != Success || x.written == 0 ==> resp[..] == old(resp[..])
    ensures p.live == old(p.live) && p.open == old(p.open)
  {
    var h := MeiConnect(p, x);
    if h == null {
      return HeciConnectFailed;
    }
    var status := MeiSndRcv(p, h, req, resp, x);
    result := if status < 0 then HeciSndRcvFailed else Success;
    MeiDisconnect(p, h);
    ExchangeOutcomes(x, req.Length, resp.Length);
  }
}
