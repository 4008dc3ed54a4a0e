/** ExecutionFailoverOrchestrator: the lifecycle of one request over several nodes. */
module Orchestrator {
  import opened Bytes
  import opened Messages

  datatype Outcome = InFlight | Failed | Succeeded

  datatype Attempt = Attempt(nodeId: bytes, outcome: Outcome)

  datatype ExecutionState = ExecutionState(
    requestId: bytes, attempts: seq<Attempt>, excluded: set<bytes>, completed: bool, result: Option<JobReply>)

  // One constructor for each throw of the orchestrator, the engine and the executor.
  datatype ExecError =
    | RequestIdRequired | MaxAttemptsNotPositive | AlreadyCompleted
    | NodeIdRequired | RetryOfExcluded | AttemptsExhausted
    | FailureRequestMismatch | FailedNodeRequired | FailureNotAuthenticated
    | ResultRequestMismatch | ResultNotAuthenticated | ResultNotSuccessful
    | RoutedToExcluded | ResultAndFailure | NoEvidence | FailureOfAnotherNode
    | TargetRequired | TargetMismatch

  const OK: bytes := "OK"

  function Initial(requestId: bytes): ExecutionState {
    ExecutionState(requestId, [], {}, false, None)
  }

  predicate Exhausted(st: ExecutionState, maxAttempts: nat) {
    |st.attempts| >= maxAttempts
  }

  function Begin(st: ExecutionState, maxAttempts: nat, node: bytes): Result<ExecutionState, ExecError> {
    if st.completed then Throws(AlreadyCompleted)
    else if node == [] then Throws(NodeIdRequired)
    else if node in st.excluded then Throws(RetryOfExcluded)
    else if Exhausted(st, maxAttempts) then Throws(AttemptsExhausted)
    else Ok(st.(attempts := st.attempts + [Attempt(node, InFlight)]))
  }

  /** The attempts with the last one's outcome set, if it was for this node. */
  function Settle(attempts: seq<Attempt>, node: bytes, outcome: Outcome): (r: seq<Attempt>)
    ensures |r| == |attempts|
  {
    var n := |attempts|;
    if n > 0 && attempts[n - 1].nodeId == node then attempts[n - 1 := Attempt(node, outcome)] else attempts
  }

  function AcceptFailure(st: ExecutionState, notice: Notice): Result<ExecutionState, ExecError> {
    if st.completed then Throws(AlreadyCompleted)
    else if notice.requestId != st.requestId then Throws(FailureRequestMismatch)
    else if notice.failedNodeId == [] then Throws(FailedNodeRequired)
    else if notice.signature == [] then Throws(FailureNotAuthenticated)
    else Ok(st.(excluded := st.excluded + {notice.failedNodeId},
                attempts := Settle(st.attempts, notice.failedNodeId, Failed)))
  }

  function AcceptResult(st: ExecutionState, result: JobReply): Result<ExecutionState, ExecError> {
    if st.completed then Throws(AlreadyCompleted)
    else if result.requestId != st.requestId then Throws(ResultRequestMismatch)
    else if result.signature == [] then Throws(ResultNotAuthenticated)
    else if result.status != OK then Throws(ResultNotSuccessful)
    else Ok(st.(attempts := Settle(st.attempts, result.responderNodeId, Succeeded),
                result := Some(result), completed := true))
  }

  class ExecutionFailoverOrchestrator {
    const maxAttempts: nat
    var state: ExecutionState

    constructor (requestId: bytes, attempts: nat)
      ensures maxAttempts == attempts && state == Initial(requestId)
    {
      maxAttempts, state := attempts, Initial(requestId);
    }

    /** Construction with the two checks that can throw. */
    static method Create(requestId: bytes, attempts: nat) returns (r: Result<ExecutionFailoverOrchestrator, ExecError>)
      ensures r.Throws? ==> r.error == if requestId == [] then RequestIdRequired else MaxAttemptsNotPositive
      ensures r.Ok? <==> requestId != [] && attempts > 0
      ensures r.Ok? ==> fresh(r.value) && r.value.maxAttempts == attempts && r.value.state == Initial(requestId)
    {
      if requestId == [] {
        return Throws(RequestIdRequired);
      }
      if attempts == 0 {
        return Throws(MaxAttemptsNotPositive);
      }
      var o := new ExecutionFailoverOrchestrator(requestId, attempts);
      return Ok(o);
    }

    predicate IsExhausted()
      reads this
      ensures IsExhausted() ==> forall node :: Begin(state, maxAttempts, node).Throws?
      ensures !IsExhausted() && !state.completed ==>
              forall node | node != [] && node !in state.excluded :: Begin(state, maxAttempts, node).Ok?
    {
      Exhausted(state, maxAttempts)
    }

    method BeginAttempt(node: bytes) returns (r: Result<(), ExecError>)
      modifies this
      ensures match Begin(old(state), maxAttempts, node)
              case Ok(s) => r == Ok(()) && state == s
              case Throws(e) => r == Throws(e) && state == old(state)
    {
      if state.completed {
        return Throws(AlreadyCompleted);
      }
      if node == [] {
        return Throws(NodeIdRequired);
      }
      if node in state.excluded {
        return Throws(RetryOfExcluded);
      }
      if IsExhausted() {
        return Throws(AttemptsExhausted);
      }
      state := state.(attempts := state.attempts + [Attempt(node, InFlight)]);
      return Ok(());
    }

    method AcceptAuthenticatedFailure(notice: Notice) returns (r: Result<(), ExecError>)
      modifies this
      ensures match AcceptFailure(old(state), notice)
              case Ok(s) => r == Ok(()) && state == s
              case Throws(e) => r == Throws(e) && state == old(state)
    {
      if state.completed {
        return Throws(AlreadyCompleted);
      }
      if notice.requestId != state.requestId {
        return Throws(FailureRequestMismatch);
      }
      if notice.failedNodeId == [] {
        return Throws(FailedNodeRequired);
      }
      if notice.signature == [] {
        return Throws(FailureNotAuthenticated);
      }
      state := state.(excluded := state.excluded + {notice.failedNodeId});
      var n := |state.attempts|;
      if n > 0 && state.attempts[n - 1].nodeId == notice.failedNodeId {
        state := state.(attempts := state.attempts[n - 1 := state.attempts[n - 1].(outcome := Failed)]);
      }
      return Ok(());
    }

    method AcceptAuthenticatedResult(result: JobReply) returns (r: Result<(), ExecError>)
      modifies this
      ensures match AcceptResult(old(state), result)
              case Ok(s) => r == Ok(()) && state == s
              case Throws(e) => r == Throws(e) && state == old(state)
    {
      if state.completed {
        return Throws(AlreadyCompleted);
      }
      if result.requestId != state.requestId {
        return Throws(ResultRequestMismatch);
      }
      if result.signature == [] {
        return Throws(ResultNotAuthenticated);
      }
      if result.status != OK {
        return Throws(ResultNotSuccessful);
      }
      var n := |state.attempts|;
      if n > 0 && state.attempts[n - 1].nodeId == result.responderNodeId {
        state := state.(attempts := state.attempts[n - 1 := state.attempts[n - 1].(outcome := Succeeded)]);
      }
      state := state.(result := Some(result));
      state := state.(completed := true);
      return Ok(());
    }
  }

  // ---- Any sequence of calls ----

  datatype Call = BeginCall(node: bytes) | FailureCall(notice: Notice) | ResultCall(result: JobReply)

  /** The state after a call; a call that throws leaves it as it was. */
  function AfterCall(st: ExecutionState, maxAttempts: nat, call: Call): ExecutionState {
    var r := match call
      case BeginCall(node) => Begin(st, maxAttempts, node)
      case FailureCall(notice) => AcceptFailure(st, notice)
      case ResultCall(result) => AcceptResult(st, result);
    if r.Ok? then r.value else st
  }

  function AfterCalls(st: ExecutionState, maxAttempts: nat, calls: seq<Call>): ExecutionState
    decreases |calls|
  {
    if calls == [] then st else AfterCalls(AfterCall(st, maxAttempts, calls[0]), maxAttempts, calls[1..])
  }

  /** The attempts a begin those of b, node by node. */
  predicate SameNodes(a: seq<Attempt>, b: seq<Attempt>) {
    |a| <= |b| && forall i | 0 <= i < |a| :: a[i].nodeId == b[i].nodeId
  }

  /** What later states owe to earlier ones: attempts and exclusions are never taken back,
      and neither exhaustion nor completion ends. */
  ghost predicate Follows(st: ExecutionState, later: ExecutionState, maxAttempts: nat) {
    SameNodes(st.attempts, later.attempts) && st.excluded <= later.excluded && later.requestId == st.requestId &&
    (Exhausted(st, maxAttempts) ==> Exhausted(later, maxAttempts) && |later.attempts| == |st.attempts|) &&
    (st.completed ==> later == st)
  }

  /** What holds in every state: the limit, and a result exactly when completed. */
  predicate WithinLimit(st: ExecutionState, maxAttempts: nat) {
    |st.attempts| <= maxAttempts && (st.completed <==> st.result.Some?) &&
    (st.completed ==> st.result.value.requestId == st.requestId && st.result.value.status == OK)
  }

  lemma CallKeepsLimit(st: ExecutionState, maxAttempts: nat, call: Call)
    requires WithinLimit(st, maxAttempts)
    ensures WithinLimit(AfterCall(st, maxAttempts, call), maxAttempts)
    ensures Follows(st, AfterCall(st, maxAttempts, call), maxAttempts)
  {
  }

  /** Whatever is called in whatever order, also by another driver than the engine: the
      limit holds, and every state follows the ones before it. */
  lemma {:induction false} CallsKeepLimit(st: ExecutionState, maxAttempts: nat, calls: seq<Call>)
    requires WithinLimit(st, maxAttempts)
    ensures WithinLimit(AfterCalls(st, maxAttempts, calls), maxAttempts)
    ensures Follows(st, AfterCalls(st, maxAttempts, calls), maxAttempts)
    decreases |calls|
  {
    hide AfterCall;
    if calls != [] {
      CallKeepsLimit(st, maxAttempts, calls[0]);
      CallsKeepLimit(AfterCall(st, maxAttempts, calls[0]), maxAttempts, calls[1..]);
    }
  }

  /** Unlike the engine, the orchestrator lets a node be tried twice: only a failure
      excludes it. */
  lemma NodeCanBeTriedTwice(requestId: bytes, node: bytes, maxAttempts: nat)
    requires node != [] && maxAttempts >= 2
    ensures AfterCalls(Initial(requestId), maxAttempts, [BeginCall(node), BeginCall(node)]).attempts ==
            [Attempt(node, InFlight), Attempt(node, InFlight)]
  {
    var calls := [BeginCall(node), BeginCall(node)];
    var one := AfterCall(Initial(requestId), maxAttempts, BeginCall(node));
    assert calls[1..] == [BeginCall(node)] && [BeginCall(node)][1..] == [];
    assert AfterCalls(one, maxAttempts, [BeginCall(node)]) == AfterCall(one, maxAttempts, BeginCall(node));
  }

  // ---- Refusals, and calls about other nodes ----

  /** An attempt can begin on a named node that is not excluded, within the limit; of the
      conditions that fail the first names the error. */
  lemma BeginExactly(st: ExecutionState, maxAttempts: nat, node: bytes)
    ensures Begin(st, maxAttempts, node).Ok? <==>
            !st.completed && node != [] && node !in st.excluded && |st.attempts| < maxAttempts
    ensures st.completed ==> Begin(st, maxAttempts, node) == Throws(AlreadyCompleted)
    ensures !st.completed && node == [] ==> Begin(st, maxAttempts, node) == Throws(NodeIdRequired)
    ensures !st.completed && node != [] && node in st.excluded ==> Begin(st, maxAttempts, node) == Throws(RetryOfExcluded)
    ensures Begin(st, maxAttempts, node) == Throws(AttemptsExhausted) ==> |st.attempts| >= maxAttempts
  {
  }

  /** Evidence is accepted if it is signed and for this request, and names a failed node or
      success; of the conditions that fail the first names the error. */
  lemma EvidenceExactly(st: ExecutionState, notice: Notice, result: JobReply)
    ensures AcceptFailure(st, notice).Ok? <==>
            !st.completed && notice.requestId == st.requestId && notice.failedNodeId != [] && notice.signature != []
    ensures AcceptResult(st, result).Ok? <==>
            !st.completed && result.requestId == st.requestId && result.signature != [] && result.status == "OK"
    ensures st.completed ==>
            AcceptFailure(st, notice) == Throws(AlreadyCompleted) && AcceptResult(st, result) == Throws(AlreadyCompleted)
    ensures !st.completed && notice.requestId != st.requestId ==> AcceptFailure(st, notice) == Throws(FailureRequestMismatch)
    ensures !st.completed && result.requestId != st.requestId ==> AcceptResult(st, result) == Throws(ResultRequestMismatch)
    ensures AcceptFailure(st, notice) == Throws(FailedNodeRequired) ==> notice.failedNodeId == []
    ensures AcceptFailure(st, notice) == Throws(FailureNotAuthenticated) ==> notice.failedNodeId != [] && notice.signature == []
    ensures AcceptResult(st, result) == Throws(ResultNotAuthenticated) ==> result.signature == []
    ensures AcceptResult(st, result) == Throws(ResultNotSuccessful) ==> result.signature != [] && result.status != "OK"
  {
  }

  /** Evidence about a node that is not the one attempted last leaves all attempts as they
      are: a failure still excludes its node, and a result still completes the request. */
  lemma EvidenceOfAnotherNode(st: ExecutionState, notice: Notice, result: JobReply)
    requires st.attempts != []
    ensures AcceptFailure(st, notice).Ok? && notice.failedNodeId != st.attempts[|st.attempts| - 1].nodeId ==>
            AcceptFailure(st, notice).value == st.(excluded := st.excluded + {notice.failedNodeId})
    ensures AcceptResult(st, result).Ok? && result.responderNodeId != st.attempts[|st.attempts| - 1].nodeId ==>
            AcceptResult(st, result).value == st.(result := Some(result), completed := true)
  {
  }
}
