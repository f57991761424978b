/** The two-stage error latch of the IHA service: one static error in the service
    process, one in the manager of the client process. */
module Latch {
  import opened Bytes

  const OK := 0
  const INVALID_INPUT := 13

  // What became of a call to the service process.
  datatype Delivery = Done | NotReached | ReplyLost

  // Checked is every manager call that looks at the latch afterwards; valid says that its
  // arguments pass, thrown is the code of the library exception its service call met.
  datatype Operation =
    | Checked(valid: bool, thrown: Option<int>, call: Delivery, read: Delivery)
    | Init(thrown: Option<int>, call: Delivery)
    | DeInit(thrown: Option<int>, call: Delivery)

  datatype Outcome = Returned | ThrewIha(code: int) | ThrewRuntime

  datatype Latches = Latches(manager: int, service: int)

  // ---------------------------------------------------------------- the code

  class SepService {
    var ihaError: int

    constructor ()
      ensures ihaError == OK
    {
      ihaError := OK;
    }

    // A service operation: an exception of the library is caught and its code latched.
    method Call(thrown: Option<int>)
      modifies this
      ensures ihaError == AfterCall(old(ihaError), thrown)
    {
      if thrown.Some? {
        SetLastError(thrown.value);
      }
    }

    method SetLastError(code: int)
      modifies this
      ensures ihaError == code
    {
      ihaError := code;
    }

    // Read and clear.
    method IhaGetLastError() returns (error: int)
      modifies this
      ensures error == old(ihaError) && ihaError == OK
    {
      error := ihaError;
      ihaError := OK;
    }
  }

  class IhaManager {
    var managerError: int
    const service: SepService

    constructor (service: SepService)
      ensures managerError == OK && this.service == service
    {
      managerError := OK;
      this.service := service;
    }

    ghost function Current(): Latches
      reads this, service
    {
      Latches(managerError, service.ihaError)
    }

    // None is a RuntimeException because the service did not answer.
    method IhaGetLastError(read: Delivery) returns (error: Option<int>)
      modifies this, service
      ensures error == Read(old(Current()), read).0 && Current() == Read(old(Current()), read).1
    {
      if managerError != OK {
        var status := managerError;
        managerError := OK;
        return Some(status);
      }
      if read == NotReached {
        return None;
      }
      var status := service.IhaGetLastError();
      if read == ReplyLost {
        return None;
      }
      managerError := status;
      error := Some(managerError);
    }

    method Operate(op: Operation) returns (outcome: Outcome)
      modifies this, service
      ensures outcome == Perform(old(Current()), op).0 && Current() == Perform(old(Current()), op).1
    {
      if op.Checked? && !op.valid {
        managerError := INVALID_INPUT;
        return ThrewRuntime;
      }
      if op.Init? {
        managerError := OK;
      }
      if op.call != NotReached {
        service.Call(op.thrown);
      }
      if op.call != Done {
        return ThrewRuntime;
      }
      if op.Checked? {
        var err := IhaGetLastError(op.read);
        if err.None? {
          return ThrewRuntime;
        }
        if err.value != OK {
          return ThrewIha(err.value);
        }
      }
      outcome := Returned;
    }
  }

  // ---------------------------------------------------------------- specification

  function AfterCall(ihaError: int, thrown: Option<int>): int
  {
    if thrown.Some? then thrown.value else ihaError
  }

  // The manager's read: its own error is given and cleared; the service's is fetched,
  // cleared there, given, and kept.
  function Read(l: Latches, read: Delivery): (Option<int>, Latches)
  {
    if l.manager != OK then (Some(l.manager), Latches(OK, l.service))
    else match read
      case NotReached => (None, l)
      case ReplyLost => (None, Latches(OK, OK))
      case Done => (Some(l.service), Latches(l.service, OK))
  }

  function Perform(l: Latches, op: Operation): (Outcome, Latches)
  {
    if op.Checked? && !op.valid then (ThrewRuntime, Latches(INVALID_INPUT, l.service))
    else
      var manager := if op.Init? then OK else l.manager;
      var after := Latches(manager, if op.call == NotReached then l.service else AfterCall(l.service, op.thrown));
      if op.call != Done then (ThrewRuntime, after)
      else if !op.Checked? then (Returned, after)
      else
        var (err, final) := Read(after, op.read);
        (if err.None? then ThrewRuntime else if err.value != OK then ThrewIha(err.value) else Returned, final)
  }

  // ---------------------------------------------------------------- one operation

  const CLEAN := Latches(OK, OK)

  // The service call of a checked operation set this error.
  predicate OwnError(op: Operation, code: int)
  {
    op.Checked? && op.valid && op.call != NotReached && op.thrown == Some(code) && code != OK
  }

  predicate HasOwnError(op: Operation)
  {
    op.Checked? && op.thrown.Some? && OwnError(op, op.thrown.value)
  }

  // The operation throws an IhaException exactly for the error its service call set.
  ghost predicate Faithful(l: Latches, op: Operation)
  {
    forall code :: Perform(l, op).0 == ThrewIha(code) <==> OwnError(op, code)
  }

  // Both calls of the operation, the service call and the read of its error, came back.
  predicate Delivered(op: Operation)
  {
    op.call == Done && (op.Checked? ==> op.read == Done)
  }

  // The service latched an error that the operation could not fetch.
  predicate Strands(op: Operation)
  {
    HasOwnError(op) && (op.call == ReplyLost || (op.call == Done && op.read == NotReached))
  }

  // Exactly which latches make a checked operation throw, or fail to throw, otherwise
  // than by its own error.
  lemma FaithfulIff(l: Latches, op: Operation)
    requires op.Checked?
    ensures Faithful(l, op) <==>
      if !op.valid || op.call == NotReached then true
      else if op.call == ReplyLost then !HasOwnError(op)
      else if l.manager != OK then op.thrown == Some(l.manager)
      else if op.read != Done then !HasOwnError(op)
      else op.thrown == None ==> l.service == OK
  {
    var o := Perform(l, op).0;
    if o.ThrewIha? {
      assert Faithful(l, op) ==> OwnError(op, o.code);
    } else if op.thrown.Some? {
      assert Faithful(l, op) ==> !OwnError(op, op.thrown.value);
    }
  }

  // A client that reads the error once after every exception.
  function ClientStep(l: Latches, op: Operation): Latches
  {
    var (outcome, after) := Perform(l, op);
    if outcome == Returned then after else Read(after, Done).1
  }

  // From clear latches an operation throws exactly its own error unless the report of
  // that error was lost, and leaves them clear unless the error was stranded.
  lemma CleanStep(op: Operation)
    requires op.Checked?
    ensures Faithful(CLEAN, op) <==> (HasOwnError(op) ==> Delivered(op))
    ensures ClientStep(CLEAN, op) == CLEAN <==> !Strands(op)
  {
    FaithfulIff(CLEAN, op);
  }

  // ---------------------------------------------------------------- runs

  function ClientRun(l: Latches, ops: seq<Operation>): Latches
  {
    if ops == [] then l else ClientStep(ClientRun(l, ops[..|ops| - 1]), ops[|ops| - 1])
  }

  ghost predicate AllChecked(ops: seq<Operation>)
  {
    forall i :: 0 <= i < |ops| ==> ops[i].Checked?
  }

  predicate NoneStrands(ops: seq<Operation>)
  {
    forall i :: 0 <= i < |ops| ==> !Strands(ops[i])
  }

  lemma {:induction false} RunStaysClean(ops: seq<Operation>)
    requires AllChecked(ops) && NoneStrands(ops)
    ensures ClientRun(CLEAN, ops) == CLEAN
  {
    if ops != [] {
      RunStaysClean(ops[..|ops| - 1]);
      CleanStep(ops[|ops| - 1]);
    }
  }

  lemma RunStep(ops: seq<Operation>, i: nat)
    requires i < |ops|
    ensures ClientRun(CLEAN, ops[..i + 1]) == ClientStep(ClientRun(CLEAN, ops[..i]), ops[i])
  {
    assert ops[..i + 1][..i] == ops[..i];
  }

  // Both latches are clear before every operation of a run, and after it.
  ghost predicate AlwaysClean(ops: seq<Operation>)
  {
    forall i :: 0 <= i <= |ops| ==> ClientRun(CLEAN, ops[..i]) == CLEAN
  }

  // They are exactly when no operation strands an error in the service.
  lemma LatchesClear(ops: seq<Operation>)
    requires AllChecked(ops)
    ensures AlwaysClean(ops) <==> NoneStrands(ops)
  {
    if NoneStrands(ops) {
      forall i | 0 <= i <= |ops| ensures ClientRun(CLEAN, ops[..i]) == CLEAN {
        RunStaysClean(ops[..i]);
      }
    }
    if AlwaysClean(ops) {
      forall i | 0 <= i < |ops| ensures !Strands(ops[i]) {
        RunStep(ops, i);
        CleanStep(ops[i]);
      }
    }
  }

  ghost predicate AllFaithful(ops: seq<Operation>)
  {
    forall i :: 0 <= i < |ops| ==> Faithful(ClientRun(CLEAN, ops[..i]), ops[i])
  }

  // The calls of every operation that meets an error of its own are delivered.
  predicate ErrorsDelivered(ops: seq<Operation>)
  {
    forall i :: 0 <= i < |ops| && HasOwnError(ops[i]) ==> Delivered(ops[i])
  }

  lemma LastOperation(ops: seq<Operation>)
    requires ops != []
    ensures var init, last := ops[..|ops| - 1], ops[|ops| - 1];
            && (AllFaithful(ops) <==> AllFaithful(init) && Faithful(ClientRun(CLEAN, init), last))
            && (ErrorsDelivered(ops) <==> ErrorsDelivered(init) && (HasOwnError(last) ==> Delivered(last)))
  {
    hide Faithful, HasOwnError, Delivered, ClientRun;
    var n := |ops| - 1;
    assert forall i :: 0 <= i <= n ==> ops[..n][..i] == ops[..i];
    if AllFaithful(ops[..n]) && Faithful(ClientRun(CLEAN, ops[..n]), ops[n]) {
      forall i | 0 <= i < |ops| ensures Faithful(ClientRun(CLEAN, ops[..i]), ops[i]) {
        if i < n {
          assert Faithful(ClientRun(CLEAN, ops[..n][..i]), ops[..n][i]);
        }
      }
    }
    if ErrorsDelivered(ops[..n]) && (HasOwnError(ops[n]) ==> Delivered(ops[n])) {
      forall i | 0 <= i < |ops| && HasOwnError(ops[i]) ensures Delivered(ops[i]) {
        if i < n {
          assert HasOwnError(ops[..n][i]);
        }
      }
    }
  }

  // Over every run every operation throws an IhaException exactly for its own error, if
  // and only if the calls of the operations that meet one are delivered; and then both
  // latches are clear before every operation.
  lemma {:induction false} ErrorLatch(ops: seq<Operation>)
    requires AllChecked(ops)
    ensures AllFaithful(ops) <==> ErrorsDelivered(ops)
    ensures ErrorsDelivered(ops) ==> AlwaysClean(ops)
  {
    hide Faithful, ClientRun, AlwaysClean;
    LatchesClear(ops);
    if ops != [] {
      var init := ops[..|ops| - 1];
      LastOperation(ops);
      ErrorLatch(init);
      if ErrorsDelivered(init) {
        RunStaysClean(init);
        CleanStep(ops[|ops| - 1]);
      }
    }
  }

  // An error stranded by one operation is thrown by the next, which met none.
  lemma StrandedErrorSurfacesLater(code: int)
    requires code != OK
    ensures var ops := [Checked(true, Some(code), ReplyLost, Done), Checked(true, None, Done, Done)];
            && ClientRun(CLEAN, ops[..1]) == Latches(code, OK)
            && Perform(ClientRun(CLEAN, ops[..1]), ops[1]).0 == ThrewIha(code) && !AllFaithful(ops)
  {
    var ops := [Checked(true, Some(code), ReplyLost, Done), Checked(true, None, Done, Done)];
    assert ops[..1][..0] == [] && ops[..1] == [ops[0]];
    assert !OwnError(ops[1], code);
  }

  // An error fetched from the service and lost on the way is thrown by no one.
  lemma LostReportNeverSurfaces(code: int)
    requires code != OK
    ensures var op := Checked(true, Some(code), Done, ReplyLost);
            Perform(CLEAN, op) == (ThrewRuntime, CLEAN) && OwnError(op, code) && !Faithful(CLEAN, op) && !Strands(op)
  {
    FaithfulIff(CLEAN, Checked(true, Some(code), Done, ReplyLost));
  }

  // A bad argument leaves its code with the manager alone: a read gives it once, the next
  // operation that is made without a read throws it for its own, and only init forgets it.
  lemma BadArgumentLatched(l: Latches, op: Operation, read: Delivery, next: Operation)
    requires op.Checked? && !op.valid
    ensures var (outcome, after) := Perform(l, op);
            && outcome == ThrewRuntime && Read(after, read) == (Some(13), Latches(0, l.service))
            && (next.Checked? && next.valid && next.call == Done ==> Perform(after, next).0 == ThrewIha(13))
            && (next.Checked? && !next.valid ==> Perform(after, next).1 == after)
            && (next.Init? ==> Perform(after, next).1.manager == 0)
            && (next.DeInit? ==> Perform(after, next).1.manager == 13)
  {
  }

  // What init leaves of the past is the service's error, if it met none itself: it is
  // what the next operation is told unless that one meets an error, too.
  lemma InitForgetsManager(l: Latches, thrown: Option<int>, call: Delivery, own: Option<int>)
    ensures var service := if call != NotReached && thrown.Some? then thrown.value else l.service;
            var told := if own.Some? then own.value else service;
            var (outcome, after) := Perform(l, Init(thrown, call));
            && (outcome == Returned <==> call == Done) && !outcome.ThrewIha?
            && Perform(after, Checked(true, own, Done, Done)).0 == if told == 0 then Returned else ThrewIha(told)
  {
  }

  // Deinit keeps the manager's error, which the next operation is told.
  lemma DeInitKeepsManager(l: Latches, thrown: Option<int>, call: Delivery, own: Option<int>)
    requires l.manager != 0
    ensures var (outcome, after) := Perform(l, DeInit(thrown, call));
            && (outcome == Returned <==> call == Done) && !outcome.ThrewIha?
            && Perform(after, Checked(true, own, Done, Done)).0 == ThrewIha(l.manager)
  {
  }
}
