/** What holds over every run of the keymaster library from process start. */
module Protocol {
  import opened Bytes
  import opened Layout
  import opened Requests
  import opened RequestProofs
  import opened Responses
  import opened Transport
  import opened Keymaster

  // ---------------------------------------------------------------- runs

  ghost predicate LegalRun(st: State, calls: seq<Call>)
    decreases |calls|
  {
    calls == [] || (Legal(st, calls[0]) && LegalRun(Step(st, calls[0]).state, calls[1..]))
  }

  ghost function Final(st: State, calls: seq<Call>): State
    requires LegalRun(st, calls)
    decreases |calls|
  {
    if calls == [] then st else Final(Step(st, calls[0]).state, calls[1..])
  }

  ghost function Trace(st: State, calls: seq<Call>): seq<Event>
    requires LegalRun(st, calls)
    decreases |calls|
  {
    if calls == [] then [] else Step(st, calls[0]).events + Trace(Step(st, calls[0]).state, calls[1..])
  }

  lemma {:induction false} RunSplit(st: State, a: seq<Call>, b: seq<Call>)
    requires LegalRun(st, a + b)
    ensures LegalRun(st, a) && LegalRun(Final(st, a), b)
    ensures Final(st, a + b) == Final(Final(st, a), b)
    ensures Trace(st, a + b) == Trace(st, a) + Trace(Final(st, a), b)
    decreases |a|
  {
    hide Step, Legal;
    if a == [] {
      assert a + b == b;
    } else {
      assert (a + b)[0] == a[0] && (a + b)[1..] == a[1..] + b;
      RunSplit(Step(st, a[0]).state, a[1..], b);
    }
  }

  // ---------------------------------------------------------------- the shape of a trace

  // A keymaster command as the firmware receives it: sized by the opaque size, at most
  // 3072 bytes, and with an InputSize that matches except for generate's surplus.
  ghost predicate IsCommand(m: seq<byte>, keyOpaqueSize: u32)
  {
    && ParseFw(m).Some? && m != CAPS_REQUEST && |m| <= MAX_HECI_MSG_SIZE
    && (exists id: u32 :: Known(id) && U32At(m, 4) == FwId(id) && |m| == RequestSize(id, keyOpaqueSize))
    && REQ_HEADER_SIZE + U32At(m, 8) == |m| - (if ParseFw(m).value.FwGenerate? then keyOpaqueSize else 0)
  }

  predicate Asking(t: seq<Event>)
  {
    forall i :: 0 <= i < |t| ==> t[i] == Written(CAPS_REQUEST)
  }

  ghost predicate Serving(t: seq<Event>, keyOpaqueSize: u32)
  {
    forall i :: 0 <= i < |t| ==> t[i].Written? && IsCommand(t[i].message, keyOpaqueSize)
  }

  lemma WireIsCommand(cmd: seq<byte>, keyOpaqueSize: u32)
    requires Readable(cmd, keyOpaqueSize) && Accepted(cmd, keyOpaqueSize)
    requires SizeFits(U32At(cmd, 0), keyOpaqueSize) && RequestSize(U32At(cmd, 0), keyOpaqueSize) <= MAX_HECI_MSG_SIZE
    ensures Fits(HalOf(cmd, keyOpaqueSize), keyOpaqueSize)
    ensures var m := Translate(HalOf(cmd, keyOpaqueSize), keyOpaqueSize);
            WellSized(m, keyOpaqueSize) && IsCommand(Wire(m, keyOpaqueSize), keyOpaqueSize)
  {
    hide Wire, ParseFw;
    AcceptedFits(cmd, keyOpaqueSize);
    var m := Translate(HalOf(cmd, keyOpaqueSize), keyOpaqueSize);
    WireParses(m, keyOpaqueSize);
    WireId(m, keyOpaqueSize);
    HeaderWords(FW_GET_CAPS, 0, []);
    assert CAPS_REQUEST + [] == CAPS_REQUEST;
    assert U32At(Wire(m, keyOpaqueSize), 4) == FwId(U32At(cmd, 0));
  }

  lemma WireId(m: FwRequest, keyOpaqueSize: u32)
    requires WellSized(m, keyOpaqueSize) && ParseFw(Wire(m, keyOpaqueSize)) == Some(m)
    ensures |Wire(m, keyOpaqueSize)| >= REQ_HEADER_SIZE
    ensures U32At(Wire(m, keyOpaqueSize), 4) == match m
      case FwGenerate(_, _) => FW_GEN_KEY
      case FwImport(_, _, _, _) => FW_IMPORT_KEY
      case FwGetPublic(_) => FW_GET_PUBLIC_KEY
      case FwSign(_, _, _) => FW_SIGN_DATA
      case FwVerify(_, _, _, _, _) => FW_VERIFY_DATA
  {
  }

  lemma TransactServes(keyOpaqueSize: u32, cmd: seq<byte>, rsp: seq<byte>, size: u32, env: Env)
    requires HAL_CMD_SIZE <= |cmd| && HAL_RSP_SIZE <= size && Sound(keyOpaqueSize, cmd, rsp, size, env)
    ensures Serving(Transact(keyOpaqueSize, cmd, rsp, size, env).events, keyOpaqueSize)
  {
    hide Wire, IsCommand, Translation, ExchangeResult, ResponseOf, Translate, HalOf;
    if Submits(cmd, keyOpaqueSize, env) {
      WireIsCommand(cmd, keyOpaqueSize);
    } else if Known(U32At(cmd, 0)) && env.requestMemory && Accepted(cmd, keyOpaqueSize) {
      AcceptedFits(cmd, keyOpaqueSize);
    }
  }

  // One call before the capabilities are known either only asks for them, or learns
  // them right after asking and then serves its own command.  After that, calls serve.
  lemma StepShape(st: State, call: Call)
    requires Legal(st, call)
    ensures var o := Step(st, call);
            if st.capsObtained then o.state == st && Serving(o.events, st.keyOpaqueSize)
            else if !o.state.capsObtained then o.state == st && Asking(o.events)
            else
              && |o.events| >= 2 && o.events[0] == Written(CAPS_REQUEST)
              && o.events[1] == CapsLearned(o.state.keyOpaqueSize)
              && Serving(o.events[2..], o.state.keyOpaqueSize)
  {
    hide Transact, Sound, IsCommand, CapsSize, CapsReply;
    var o := Step(st, call);
    var l := LearnCaps(st, call.env);
    if ArgumentCheck(call) == Success && l.result == Success {
      var t := Transact(l.state.keyOpaqueSize, call.cmd.value, call.rsp.value, call.rspLength.value, call.env);
      TransactServes(l.state.keyOpaqueSize, call.cmd.value, call.rsp.value, call.rspLength.value, call.env);
      if !st.capsObtained {
        CapsSuccessWrites(call.env);
        assert o.events == [Written(CAPS_REQUEST), CapsLearned(l.state.keyOpaqueSize)] + t.events;
      }
    }
  }

  lemma CapsSuccessWrites(env: Env)
    requires CapsResult(env.capsMemory, env.capsExchange) == Success
    ensures CapsWrites(env) == [Written(CAPS_REQUEST)]
  {
  }

  lemma {:induction false} ServingRun(st: State, calls: seq<Call>)
    requires LegalRun(st, calls) && st.capsObtained
    ensures Final(st, calls) == st && Serving(Trace(st, calls), st.keyOpaqueSize)
    decreases |calls|
  {
    hide Step, Legal, IsCommand;
    if calls != [] {
      StepShape(st, calls[0]);
      ServingRun(st, calls[1..]);
    }
  }

  lemma {:induction false} RunShape(st: State, calls: seq<Call>) returns (i: nat)
    requires LegalRun(st, calls) && !st.capsObtained
    ensures var t, f := Trace(st, calls), Final(st, calls);
            if f.capsObtained then
              && 0 < i < |t| && Asking(t[..i]) && t[i] == CapsLearned(f.keyOpaqueSize)
              && Serving(t[i + 1..], f.keyOpaqueSize)
            else i == |t| && Asking(t) && f == st
    decreases |calls|
  {
    hide Step, Legal, IsCommand;
    if calls == [] {
      i := 0;
    } else {
      StepShape(st, calls[0]);
      var o := Step(st, calls[0]);
      var rest := Trace(o.state, calls[1..]);
      if o.state.capsObtained {
        ServingRun(o.state, calls[1..]);
        i := 1;
        assert Trace(st, calls)[2..] == o.events[2..] + rest;
      } else {
        var k := RunShape(o.state, calls[1..]);
        i := |o.events| + k;
        if Final(st, calls).capsObtained {
          assert Trace(st, calls)[..i] == o.events + rest[..k];
          assert Trace(st, calls)[i + 1..] == rest[k + 1..];
        }
      }
    }
  }

  // The capability protocol, over every run.
  lemma CapabilityProtocol(calls: seq<Call>)
    requires LegalRun(INITIAL, calls)
    ensures var t := Trace(INITIAL, calls);
            // Nothing but the capability request goes out before the capabilities are known,
            (forall i :: 0 <= i < |t| && t[i].Written? && t[i].message != CAPS_REQUEST ==>
               exists j :: 0 <= j < i && t[j].CapsLearned?)
            // they are learned at most once, directly after asking for them,
            && (forall i, j :: 0 <= i < j < |t| && t[i].CapsLearned? ==> !t[j].CapsLearned?)
            && (forall i :: 0 <= i < |t| && t[i].CapsLearned? ==> i > 0 && t[i - 1] == Written(CAPS_REQUEST))
            // and from then on every message is a command sized by what was learned.
            && (forall i, j :: 0 <= i < j < |t| && t[i].CapsLearned? ==>
                  t[j].Written? && IsCommand(t[j].message, t[i].keyOpaqueSize))
            && (forall i :: 0 <= i < |t| && t[i].CapsLearned? ==>
                  Final(INITIAL, calls) == State(true, t[i].keyOpaqueSize))
  {
    hide IsCommand, Trace, Final, LegalRun;
    var t, f := Trace(INITIAL, calls), Final(INITIAL, calls);
    var k := RunShape(INITIAL, calls);
    if f.capsObtained {
      forall i | 0 <= i < |t|
        ensures i < k ==> t[i] == Written(CAPS_REQUEST)
        ensures i > k ==> t[i].Written? && IsCommand(t[i].message, f.keyOpaqueSize)
      {
        if i < k {
          assert t[..k][i] == t[i];
        } else if i > k {
          assert t[k + 1..][i - (k + 1)] == t[i];
        }
      }
    }
  }
}
