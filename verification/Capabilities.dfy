/** The capabilities reply as the firmware lays it out, and what the library takes from it. */
module Capabilities {
  import opened Bytes
  import opened Layout
  import opened Requests
  import opened RequestProofs
  import opened Responses
  import opened Transport
  import opened Keymaster
  import opened Protocol
  import opened Delivery
  import opened Circulation

  datatype Entry = Entry(keyType: u32, value: seq<byte>)

  ghost predicate WellFormed(entries: seq<Entry>)
  {
    forall i :: 0 <= i < |entries| ==>
      |entries[i].value| < U32_RANGE && (entries[i].keyType == FW_KEY_TYPE_RSA ==> |entries[i].value| >= 8)
  }

  ghost function EntriesBytes(entries: seq<Entry>): seq<byte>
    requires WellFormed(entries)
  {
    if entries == [] then []
    else Le32(entries[0].keyType) + Le32(|entries[0].value|) + entries[0].value + EntriesBytes(entries[1..])
  }

  // A successful capabilities response with these entries.
  ghost function CapsMessage(clientVersion: u32, outputSize: u32, version: u32, entries: seq<Entry>): seq<byte>
    requires WellFormed(entries) && |entries| < U32_RANGE
  {
    Le32(clientVersion) + Le32(CLASS_KEY_MASTER) + Le32(FW_GET_CAPS) + Le32(RESPONSE_SUCCESS) + Le32(outputSize)
    + Le32(version) + Le32(|entries|) + EntriesBytes(entries)
  }

  // The opaque size of the last RSA entry,
  ghost function LastRsa(entries: seq<Entry>): Option<u32>
    requires WellFormed(entries)
  {
    if entries == [] then None
    else if LastRsa(entries[1..]).Some? then LastRsa(entries[1..])
    else if entries[0].keyType == FW_KEY_TYPE_RSA then Some(U32At(entries[0].value, 4))
    else None
  }

  // which is what a loop over all of them would leave.
  ghost function RsaOpaqueSize(entries: seq<Entry>, before: u32): u32
    requires WellFormed(entries)
  {
    match LastRsa(entries)
    case Some(k) => k
    case None => before
  }

  ghost function FirstOnly(entries: seq<Entry>): (f: seq<Entry>)
    ensures WellFormed(entries) ==> WellFormed(f)
  {
    if entries == [] then [] else [entries[0]]
  }

  lemma OneEntry(e: Entry)
    requires |e.value| < U32_RANGE && (e.keyType == FW_KEY_TYPE_RSA ==> |e.value| >= 8)
    ensures LastRsa([e]) == if e.keyType == FW_KEY_TYPE_RSA then Some(U32At(e.value, 4)) else None
  {
    assert [e][1..] == [];
    assert LastRsa([]) == None;
  }

  lemma MessageWords(clientVersion: u32, outputSize: u32, version: u32, entries: seq<Entry>)
    requires WellFormed(entries) && |entries| < U32_RANGE
    ensures var m := CapsMessage(clientVersion, outputSize, version, entries);
            |m| >= 28 && U32At(m, 12) == RESPONSE_SUCCESS && U32At(m, 24) == |entries|
            && m[28..] == EntriesBytes(entries)
  {
    var m := CapsMessage(clientVersion, outputSize, version, entries);
    assert m[12..16] == Le32(RESPONSE_SUCCESS) && m[24..28] == Le32(|entries|);
    WordInField(m, 12, RESPONSE_SUCCESS);
    WordInField(m, 24, |entries|);
  }

  lemma FirstEntry(m: seq<byte>, entries: seq<Entry>)
    requires WellFormed(entries) && entries != [] && |m| >= 28 && m[28..] == EntriesBytes(entries)
    ensures |m| >= 36 + |entries[0].value| && U32At(m, 28) == entries[0].keyType
    ensures |entries[0].value| >= 8 ==> U32At(m, 40) == U32At(entries[0].value, 4)
  {
    var e, b := entries[0], EntriesBytes(entries);
    assert b[..4] == Le32(e.keyType) && b[8..8 + |e.value|] == e.value;
    assert m[28..32] == m[28..][..4] && m[36..36 + |e.value|] == m[28..][8..8 + |e.value|];
    WordInField(m, 28, e.keyType);
    if |e.value| >= 8 {
      assert m[40..44] == m[36..36 + |e.value|][4..8] == e.value[4..8];
      FieldOfWord(e.value, 4);
      WordInField(m, 40, U32At(e.value, 4));
    }
  }

  // The reply arrives at the front of the buffer.
  lemma ReplyArrives(x: Exchange)
    requires Delivers(x, REQ_HEADER_SIZE) && |x.reply.value| <= MAX_MTU
    ensures x.reply.value <= CapsReply(x)
  {
  }

  lemma PrefixWord(m: seq<byte>, r: seq<byte>, off: nat)
    requires m <= r && off + 4 <= |m|
    ensures U32At(r, off) == U32At(m, off)
  {
  }

  // The loop over the entries never leaves the first one: the library learns what a
  // reply of that entry alone would say.  It is what the whole reply says exactly when no
  // RSA entry follows the first, or the last of those that do says the same.
  lemma OnlyFirstEntryCounts(x: Exchange, before: u32, clientVersion: u32, outputSize: u32, version: u32,
                             entries: seq<Entry>)
    requires WellFormed(entries) && |entries| < U32_RANGE
    requires Delivers(x, REQ_HEADER_SIZE)
    requires x.reply.value == CapsMessage(clientVersion, outputSize, version, entries) && |x.reply.value| <= MAX_MTU
    ensures CodeOf(CapsReply(x)) == RESPONSE_SUCCESS
    ensures CapsSize(x, before) == RsaOpaqueSize(FirstOnly(entries), before)
    ensures CapsSize(x, before) == RsaOpaqueSize(entries, before) <==>
      entries == [] || LastRsa(entries[1..]) in {None, Some(RsaOpaqueSize(FirstOnly(entries), before))}
  {
    hide CapsMessage, CapsReply, U32At;
    var m, r := x.reply.value, CapsReply(x);
    MessageWords(clientVersion, outputSize, version, entries);
    ReplyArrives(x);
    PrefixWord(m, r, 12);
    PrefixWord(m, r, 24);
    if entries != [] {
      OneEntry(entries[0]);
      FirstEntry(m, entries);
      PrefixWord(m, r, 28);
      if entries[0].keyType == FW_KEY_TYPE_RSA {
        PrefixWord(m, r, 40);
      }
    }
  }

  // An entry of another type first and the RSA entry second, of opaque size 64: the
  // capabilities are known and the opaque size is zero.
  const TWO_ENTRIES := [Entry(1, []), Entry(FW_KEY_TYPE_RSA, Zeros(4) + Le32(64))]

  lemma TwoEntries()
    ensures WellFormed(TWO_ENTRIES) && RsaOpaqueSize(TWO_ENTRIES, 0) == 64
    ensures |CapsMessage(1, 0, 1, TWO_ENTRIES)| == 52
  {
    var rsa := Zeros(4) + Le32(64);
    assert rsa[4..8] == Le32(64);
    WordInField(rsa, 4, 64);
    assert TWO_ENTRIES[1..] == [Entry(FW_KEY_TYPE_RSA, rsa)] && TWO_ENTRIES[1..][1..] == [];
    assert |EntriesBytes(TWO_ENTRIES[1..])| == 16;
    assert LastRsa(TWO_ENTRIES[1..]) == Some(64);
  }

  lemma SecondEntryIgnored()
    ensures WellFormed(TWO_ENTRIES) && RsaOpaqueSize(TWO_ENTRIES, 0) == 64
    ensures var x := Exchange(true, 3, 0, REQ_HEADER_SIZE, 1, true, Some(CapsMessage(1, 0, 1, TWO_ENTRIES)));
            CapsResult(true, x) == Success && CapsSize(x, 0) == 0
  {
    hide CapsMessage, CapsReply, U32At;
    TwoEntries();
    var m := CapsMessage(1, 0, 1, TWO_ENTRIES);
    var x := Exchange(true, 3, 0, REQ_HEADER_SIZE, 1, true, Some(m));
    OnlyFirstEntryCounts(x, 0, 1, 0, 1, TWO_ENTRIES);
    MessageWords(1, 0, 1, TWO_ENTRIES);
    FirstEntry(m, TWO_ENTRIES);
    ReplyArrives(x);
    PrefixWord(m, CapsReply(x), 28);
  }

  // ---------------------------------------------------------------- what makes them known

  // The firmware's answer reached the library as far as its response code, and that is
  // success.
  predicate SaidSuccess(x: Exchange)
  {
    Delivers(x, REQ_HEADER_SIZE) && |x.reply.value| >= 16 && U32At(x.reply.value, 12) == RESPONSE_SUCCESS
  }

  // The reply ends before or in its response code, with no byte of it set.
  predicate CutBeforeCode(x: Exchange)
  {
    && Delivers(x, REQ_HEADER_SIZE) && |x.reply.value| < 16
    && forall i :: 12 <= i < |x.reply.value| ==> x.reply.value[i] == 0
  }

  // The driver took the request and the reply has at least n bytes.
  predicate Reached(x: Exchange, n: nat)
  {
    !NothingTaken(x) && x.reply.Some? && |x.reply.value| >= n
  }

  // The reply reaches the opaque size of its first entry, which is for RSA keys.
  predicate HoldsRsaFirst(x: Exchange)
  {
    Reached(x, 44) && U32At(x.reply.value, 24) > 0 && U32At(x.reply.value, 28) == FW_KEY_TYPE_RSA
  }

  // The firmware's answer says this opaque size of RSA keys.
  predicate SaidSize(x: Exchange, keyOpaqueSize: u32)
  {
    SaidSuccess(x) && HoldsRsaFirst(x) && U32At(x.reply.value, 40) == keyOpaqueSize
  }

  // The capabilities count as known exactly when the firmware answered with success, or
  // its reply was cut off before the response code, or the driver took no byte of the
  // request.  In the last two cases the opaque size stays what it was.
  lemma CapsLearnedIff(available: bool, x: Exchange)
    ensures CapsResult(available, x) == Success <==>
      available && (SaidSuccess(x) || CutBeforeCode(x) || NothingTaken(x))
    ensures CutBeforeCode(x) || NothingTaken(x) ==> forall before: u32 :: CapsSize(x, before) == before
    ensures !(SaidSuccess(x) && CutBeforeCode(x)) && !(SaidSuccess(x) && NothingTaken(x))
  {
  }

  // An answer that holds its first entry is taken at its word.
  lemma LearnedAsSaid(x: Exchange, before: u32)
    requires SaidSuccess(x) && HoldsRsaFirst(x)
    ensures CapsSize(x, before) == U32At(x.reply.value, 40)
  {
    ReplyWord(x, 24);
    ReplyWord(x, 28);
    ReplyWord(x, 40);
  }

  lemma ReplyWord(x: Exchange, off: nat)
    requires Delivers(x, REQ_HEADER_SIZE) && off + 4 <= |x.reply.value| && off + 4 <= MAX_MTU
    ensures U32At(CapsReply(x), off) == U32At(x.reply.value, off)
  {
  }

  // No byte of the reply, and the capabilities are known.
  lemma EmptyReplyLearned()
    ensures var x := Exchange(true, 3, 0, REQ_HEADER_SIZE, 1, true, Some([]));
            !SaidSuccess(x) && CapsResult(true, x) == Success && CapsSize(x, 0) == 0
  {
    CapsLearnedIff(true, Exchange(true, 3, 0, REQ_HEADER_SIZE, 1, true, Some([])));
  }

  // No byte of the request, and the capabilities are known.
  lemma EmptyWriteLearned()
    ensures var x := Exchange(true, 3, 0, 0, 1, true, None);
            !SaidSuccess(x) && CapsResult(true, x) == Success && CapsSize(x, 0) == 0
  {
    CapsLearnedIff(true, Exchange(true, 3, 0, 0, 1, true, None));
  }

  // ---------------------------------------------------------------- over a run

  // The call of a run that asks for the capabilities.
  ghost predicate Asks(calls: seq<Call>, i: nat)
    requires LegalRun(INITIAL, calls) && i < |calls|
  {
    !StateAt(calls, i).capsObtained && ArgumentCheck(calls[i]) == Success && calls[i].env.capsMemory
  }

  // The call after which they count as known.
  ghost predicate Learns(calls: seq<Call>, i: nat)
    requires LegalRun(INITIAL, calls) && i < |calls|
  {
    !StateAt(calls, i).capsObtained && StateAt(calls, i + 1).capsObtained
  }

  ghost predicate SendsCommand(calls: seq<Call>, j: nat, m: seq<byte>)
    requires LegalRun(INITIAL, calls) && j < |calls|
  {
    StepAt(calls, j);
    Written(m) in Step(StateAt(calls, j), calls[j]).events && m != CAPS_REQUEST
  }

  // The first call after which the capabilities are known.
  lemma {:induction false} LearningCall(calls: seq<Call>, j: nat) returns (i: nat)
    requires LegalRun(INITIAL, calls) && j <= |calls| && StateAt(calls, j).capsObtained
    ensures i < j && Learns(calls, i) && StateAt(calls, i + 1) == StateAt(calls, j)
    ensures forall i' :: 0 <= i' < |calls| && Learns(calls, i') ==> i' == i
    decreases j
  {
    hide StateAt, LegalRun;
    InitialState(calls);
    i := j - 1;
    if StateAt(calls, i).capsObtained {
      i := LearningCall(calls, i);
      StateStays(calls, i + 1, j);
    } else {
      forall i' | 0 <= i' < |calls| && Learns(calls, i') ensures i' == i {
        if i' < i {
          StateStays(calls, i' + 1, i);
        } else if i < i' {
          StateStays(calls, i + 1, i');
        }
      }
    }
  }

  lemma InitialState(calls: seq<Call>)
    requires LegalRun(INITIAL, calls)
    ensures StateAt(calls, 0) == INITIAL
  {
    assert calls[..0] == [];
  }

  // One call asks and learns by its own exchange.
  lemma LearnsIff(calls: seq<Call>, i: nat)
    requires LegalRun(INITIAL, calls) && i < |calls|
    ensures Learns(calls, i) <==>
      Asks(calls, i)
      && (SaidSuccess(calls[i].env.capsExchange) || CutBeforeCode(calls[i].env.capsExchange)
          || NothingTaken(calls[i].env.capsExchange))
    ensures Learns(calls, i) ==>
      StateAt(calls, i + 1).keyOpaqueSize == CapsSize(calls[i].env.capsExchange, StateAt(calls, i).keyOpaqueSize)
  {
    hide StateAt, LegalRun, Transact, Sound, CapsResult, CapsSize, SaidSuccess, CutBeforeCode, NothingTaken;
    StepAt(calls, i);
    CapsLearnedIff(calls[i].env.capsMemory, calls[i].env.capsExchange);
  }

  // The firmware said success to an exchange made by call j or before it,
  ghost predicate Granted(calls: seq<Call>, j: nat)
    requires LegalRun(INITIAL, calls) && j < |calls|
  {
    exists i :: 0 <= i <= j && Asks(calls, i) && SaidSuccess(calls[i].env.capsExchange)
  }

  // and with it this opaque size.
  ghost predicate GrantedWith(calls: seq<Call>, j: nat, keyOpaqueSize: u32)
    requires LegalRun(INITIAL, calls) && j < |calls|
  {
    exists i :: 0 <= i <= j && Asks(calls, i) && SaidSize(calls[i].env.capsExchange, keyOpaqueSize)
  }

  lemma ReachedSays(x: Exchange, before: u32)
    requires SaidSuccess(x) || CutBeforeCode(x) || NothingTaken(x)
    ensures SaidSuccess(x) <==> Reached(x, 16)
    ensures SaidSize(x, CapsSize(x, before)) <==> HoldsRsaFirst(x)
  {
    hide CapsSize;
    if SaidSuccess(x) && HoldsRsaFirst(x) {
      LearnedAsSaid(x, before);
    }
  }

  lemma CommandSized(calls: seq<Call>, j: nat, m: seq<byte>)
    requires LegalRun(INITIAL, calls) && j < |calls| && SendsCommand(calls, j, m)
    ensures StateAt(calls, j + 1).capsObtained && IsCommand(m, StateAt(calls, j + 1).keyOpaqueSize)
  {
    hide StateAt, LegalRun, Step, Legal, IsCommand;
    StepAt(calls, j);
    StepShape(StateAt(calls, j), calls[j]);
    var e := Step(StateAt(calls, j), calls[j]).events;
    var n :| 0 <= n < |e| && e[n] == Written(m);
    if !StateAt(calls, j).capsObtained && n >= 2 {
      assert e[2..][n - 2] == e[n];
    }
  }

  // Every keymaster command of every run comes after the one call that learned the
  // capabilities, and is sized by what was learned.  A success that the firmware said
  // comes before it exactly when the learning call's request was taken and its reply
  // reached the response code; that success says the opaque size in use exactly when
  // the reply also holds a first entry for RSA keys.
  lemma CommandsAreGranted(calls: seq<Call>, j: nat, m: seq<byte>)
    requires LegalRun(INITIAL, calls) && j < |calls| && SendsCommand(calls, j, m)
    ensures IsCommand(m, StateAt(calls, j + 1).keyOpaqueSize)
    ensures exists i :: 0 <= i <= j && Learns(calls, i)
    ensures Granted(calls, j) <==>
      forall i :: 0 <= i < |calls| && Learns(calls, i) ==> Reached(calls[i].env.capsExchange, 16)
    ensures GrantedWith(calls, j, StateAt(calls, j + 1).keyOpaqueSize) <==>
      forall i :: 0 <= i < |calls| && Learns(calls, i) ==> HoldsRsaFirst(calls[i].env.capsExchange)
  {
    hide StateAt, LegalRun, IsCommand, Asks, Learns, SaidSuccess, SaidSize, CutBeforeCode, NothingTaken, Reached,
         HoldsRsaFirst, CapsSize, SendsCommand;
    CommandSized(calls, j, m);
    var i := LearningCall(calls, j + 1);
    LearnsIff(calls, i);
    ReachedSays(calls[i].env.capsExchange, StateAt(calls, i).keyOpaqueSize);
    forall i' | 0 <= i' <= j && Asks(calls, i') && SaidSuccess(calls[i'].env.capsExchange) ensures i' == i {
      LearnsIff(calls, i');
    }
    forall i' | 0 <= i' <= j && SaidSize(calls[i'].env.capsExchange, StateAt(calls, j + 1).keyOpaqueSize)
      ensures SaidSuccess(calls[i'].env.capsExchange)
    {
      SizeIsSuccess(calls[i'].env.capsExchange, StateAt(calls, j + 1).keyOpaqueSize);
    }
  }

  lemma SizeIsSuccess(x: Exchange, keyOpaqueSize: u32)
    requires SaidSize(x, keyOpaqueSize)
    ensures SaidSuccess(x)
  {
  }

  // A run of one call that learns the opaque size zero from caps and sends its command.
  lemma CommandAfter(caps: Exchange) returns (m: seq<byte>)
    requires CapsResult(true, caps) == Success && CapsSize(caps, 0) == 0
    ensures var calls := [GenerateCallAfter(caps, Sent(20, None))];
            && LegalRun(INITIAL, calls) && SendsCommand(calls, 0, m)
            && Asks(calls, 0) && StateAt(calls, 1) == READY
  {
    hide Wire, Translate, HalOf, HalBytes, Readable, Accepted, SizeFits, CapsResult, CapsSize, U32At;
    var call := GenerateCallAfter(caps, Sent(20, None));
    GenerateCallLegal(caps, call.env.exchange);
    CapsLearnedIff(true, caps);
    assert LearnCaps(INITIAL, call.env).state == READY && Legal(INITIAL, call);
    AcceptedFits(call.cmd.value, 0);
    m := Wire(Translate(HalOf(call.cmd.value, 0), 0), 0);
    assert [call][1..] == [];
    InitialState([call]);
    StepAt([call], 0);
    assert Written(m) == Step(INITIAL, call).events[2];
  }

  // The driver takes nothing of the capability request, and the command goes out.
  lemma UngrantedCommand() returns (m: seq<byte>)
    ensures var calls := [GenerateCallAfter(Sent(0, None), Sent(20, None))];
            LegalRun(INITIAL, calls) && SendsCommand(calls, 0, m) && !Granted(calls, 0)
  {
    hide CapsResult, CapsSize, LegalRun, SendsCommand, Asks, StateAt;
    CapsLearnedIff(true, Sent(0, None));
    m := CommandAfter(Sent(0, None));
  }

  // The firmware says success and an opaque size of 64, in the second entry, and the
  // command goes out with the size zero.
  lemma UnsaidSize() returns (m: seq<byte>)
    ensures WellFormed(TWO_ENTRIES) && RsaOpaqueSize(TWO_ENTRIES, 0) == 64
    ensures var caps := Sent(REQ_HEADER_SIZE, Some(CapsMessage(1, 0, 1, TWO_ENTRIES)));
            var calls := [GenerateCallAfter(caps, Sent(20, None))];
            && LegalRun(INITIAL, calls) && SendsCommand(calls, 0, m) && StateAt(calls, 1).keyOpaqueSize == 0
            && Granted(calls, 0) && !GrantedWith(calls, 0, 0)
  {
    hide CapsResult, CapsSize, LegalRun, SendsCommand, Asks, StateAt, CapsMessage, U32At;
    SecondEntryIgnored();
    TwoEntries();
    var caps := Sent(REQ_HEADER_SIZE, Some(CapsMessage(1, 0, 1, TWO_ENTRIES)));
    MessageWords(1, 0, 1, TWO_ENTRIES);
    FirstEntry(caps.reply.value, TWO_ENTRIES);
    m := CommandAfter(caps);
    assert SaidSuccess([GenerateCallAfter(caps, Sent(20, None))][0].env.capsExchange);
  }
}
