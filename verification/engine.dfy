/** ResilientExecutionEngine: routing, attempting and failing over until a result,
    exhaustion or no route is left. */
module Engine {
  import opened Bytes
  import opened Messages
  import opened Orchestrator

  datatype AttemptResponse = AttemptResponse(result: Option<JobReply>, failure: Option<Notice>)

  // The number is that of the call, so that the answers of a provider and of an
  // executor may depend on everything that happened before.
  type RouteProvider = (nat, Request, set<bytes>) -> Option<bytes>
  type AttemptExecutor = (nat, Request, bytes) -> Result<AttemptResponse, ExecError>

  datatype Setting = Setting(route: RouteProvider, attempt: AttemptExecutor, maxAttempts: nat, original: Request)

  datatype ExecutionOutcome = ExecutionOutcome(state: ExecutionState, exhausted: bool)

  function AttemptOn(s: Setting, target: bytes): Request {
    s.original.(targetNodeId := target)
  }

  /** What the loop body does with the executor's answer. */
  function Evidence(st: ExecutionState, target: bytes, response: AttemptResponse): Result<ExecutionState, ExecError> {
    if response.result.Some? && response.failure.Some? then Throws(ResultAndFailure)
    else if response.result.Some? then AcceptResult(st, response.result.value)
    else if response.failure.None? then Throws(NoEvidence)
    else if response.failure.value.failedNodeId != target then Throws(FailureOfAnotherNode)
    else AcceptFailure(st, response.failure.value)
  }

  /** One iteration of the loop; None when routing offers no node. */
  function Step(s: Setting, st: ExecutionState): (r: Result<Option<ExecutionState>, ExecError>)
    ensures r.Ok? && r.value.Some? ==> |r.value.value.attempts| == |st.attempts| + 1
  {
    match s.route(|st.attempts|, s.original, st.excluded)
    case None => Ok(None)
    case Some(target) =>
      if target in st.excluded then Throws(RoutedToExcluded)
      else
        var begun :- Begin(st, s.maxAttempts, target);
        var response :- s.attempt(|st.attempts|, AttemptOn(s, target), target);
        var next :- Evidence(begun, target, response);
        Ok(Some(next))
  }

  /** The loop from a given state on. */
  function Run(s: Setting, st: ExecutionState): Result<ExecutionState, ExecError>
    decreases s.maxAttempts - |st.attempts|
  {
    if st.completed || Exhausted(st, s.maxAttempts) then Ok(st)
    else
      var next :- Step(s, st);
      match next
      case None => Ok(st)
      case Some(n) => Run(s, n)
  }

  function ExecuteAll(s: Setting): Result<ExecutionOutcome, ExecError> {
    if s.original.requestId == [] then Throws(RequestIdRequired)
    else if s.maxAttempts == 0 then Throws(MaxAttemptsNotPositive)
    else
      var final :- Run(s, Initial(s.original.requestId));
      Ok(ExecutionOutcome(final, Exhausted(final, s.maxAttempts)))
  }

  class ResilientExecutionEngine {
    const routeProvider: RouteProvider
    const attemptExecutor: AttemptExecutor
    const maxAttempts: nat

    constructor (route: RouteProvider, attempt: AttemptExecutor, attempts: nat)
      ensures routeProvider == route && attemptExecutor == attempt && maxAttempts == attempts
    {
      routeProvider, attemptExecutor, maxAttempts := route, attempt, attempts;
    }

    method Execute(original: Request) returns (r: Result<ExecutionOutcome, ExecError>)
      ensures r == ExecuteAll(Setting(routeProvider, attemptExecutor, maxAttempts, original))
    {
      if original.requestId == [] {
        return Throws(RequestIdRequired);
      }
      ghost var s := Setting(routeProvider, attemptExecutor, maxAttempts, original);
      var lifecycle :- ExecutionFailoverOrchestrator.Create(original.requestId, maxAttempts);
      while !lifecycle.state.completed && !lifecycle.IsExhausted()
        invariant fresh(lifecycle) && lifecycle.maxAttempts == maxAttempts
        invariant Run(s, lifecycle.state) == Run(s, Initial(original.requestId))
        decreases maxAttempts - |lifecycle.state.attempts|
      {
        ghost var st := lifecycle.state;
        var call := |lifecycle.state.attempts|;
        var route := routeProvider(call, original, lifecycle.state.excluded);
        if route == None {
          break;
        }
        var target := route.value;
        if target in lifecycle.state.excluded {
          return Throws(RoutedToExcluded);
        }
        var _ :- lifecycle.BeginAttempt(target);
        var attempt := original.(targetNodeId := target);
        var response :- attemptExecutor(call, attempt, target);
        if response.result.Some? && response.failure.Some? {
          return Throws(ResultAndFailure);
        }
        if response.result.None? && response.failure.None? {
          return Throws(NoEvidence);
        }
        if response.result.Some? {
          var _ :- lifecycle.AcceptAuthenticatedResult(response.result.value);
        } else {
          if response.failure.value.failedNodeId != target {
            return Throws(FailureOfAnotherNode);
          }
          var _ :- lifecycle.AcceptAuthenticatedFailure(response.failure.value);
        }
        assert Step(s, st) == Ok(Some(lifecycle.state));
      }
      return Ok(ExecutionOutcome(lifecycle.state, lifecycle.IsExhausted()));
    }
  }

  // ---- The lifecycle invariant ----

  function Nodes(attempts: seq<Attempt>): (ns: seq<bytes>)
    ensures |ns| == |attempts|
  {
    seq(|attempts|, i requires 0 <= i < |attempts| => attempts[i].nodeId)
  }

  predicate Distinct(ns: seq<bytes>) {
    forall i, j | 0 <= i < j < |ns| :: ns[i] != ns[j]
  }

  /** The nodes tried so far without success: all of an unfinished run, all but the
      last of a finished one. */
  function FailedPart(st: ExecutionState): seq<Attempt> {
    if st.completed && st.attempts != [] then st.attempts[..|st.attempts| - 1] else st.attempts
  }

  /** What holds at every head of the loop and at its end. */
  ghost predicate Lifecycle(s: Setting, st: ExecutionState) {
    st.requestId == s.original.requestId && |st.attempts| <= s.maxAttempts &&
    Distinct(Nodes(st.attempts)) &&
    (forall a | a in FailedPart(st) :: a.outcome == Failed && a.nodeId in st.excluded) &&
    (forall n | n in st.excluded :: n in Nodes(FailedPart(st))) &&
    (forall a | a in st.attempts :: a.nodeId != []) &&
    (st.completed <==> st.result.Some?) &&
    (st.completed ==> st.attempts != [] && FromLastAttempt(s, st))
  }

  /** The result is what the executor returned for the last node attempted. */
  ghost predicate FromLastAttempt(s: Setting, st: ExecutionState)
    requires st.attempts != []
  {
    var n := |st.attempts| - 1;
    var node := st.attempts[n].nodeId;
    st.result.Some? &&
    s.attempt(n, AttemptOn(s, node), node) == Ok(AttemptResponse(st.result, None)) &&
    st.result.value.requestId == st.requestId && st.result.value.status == OK && st.result.value.signature != [] &&
    st.attempts[n].outcome == (if st.result.value.responderNodeId == node then Succeeded else InFlight)
  }

  lemma InitialLifecycle(s: Setting)
    ensures Lifecycle(s, Initial(s.original.requestId))
  {
  }

  lemma NodesSnoc(attempts: seq<Attempt>, a: Attempt)
    ensures Nodes(attempts + [a]) == Nodes(attempts) + [a.nodeId]
  {
  }

  lemma FailureKeepsLifecycle(s: Setting, st: ExecutionState, node: bytes, next: ExecutionState)
    requires Lifecycle(s, st) && !st.completed && |st.attempts| < s.maxAttempts && node != [] && node !in st.excluded
    requires next == st.(attempts := st.attempts + [Attempt(node, Failed)], excluded := st.excluded + {node})
    ensures Lifecycle(s, next)
  {
    NodesSnoc(st.attempts, Attempt(node, Failed));
    FreshNode(s, st, node);
    assert node in Nodes(st.attempts) + [node];
  }

  lemma FreshNode(s: Setting, st: ExecutionState, node: bytes)
    requires Lifecycle(s, st) && !st.completed && node !in st.excluded
    ensures node !in Nodes(st.attempts) && Distinct(Nodes(st.attempts) + [node])
  {
    forall i | 0 <= i < |st.attempts| ensures st.attempts[i].nodeId != node {
      assert st.attempts[i] in FailedPart(st);
    }
  }

  lemma ResultKeepsLifecycle(s: Setting, st: ExecutionState, node: bytes, next: ExecutionState)
    requires Lifecycle(s, st) && !st.completed && |st.attempts| < s.maxAttempts && node != [] && node !in st.excluded
    requires next.completed && |next.attempts| == |st.attempts| + 1 && next.attempts[|st.attempts|].nodeId == node
    requires next.attempts[..|st.attempts|] == st.attempts
    requires next.requestId == st.requestId && next.excluded == st.excluded
    requires FromLastAttempt(s, next)
    ensures Lifecycle(s, next)
  {
    var last := next.attempts[|st.attempts|];
    assert next.attempts == st.attempts + [last];
    NodesSnoc(st.attempts, last);
    FreshNode(s, st, node);
    assert FailedPart(next) == st.attempts;
  }

  /** Every iteration keeps the lifecycle, whatever routing and the executor answer. */
  lemma StepKeepsLifecycle(s: Setting, st: ExecutionState)
    requires Lifecycle(s, st) && !st.completed && !Exhausted(st, s.maxAttempts)
    ensures Step(s, st).Ok? && Step(s, st).value.Some? ==> Lifecycle(s, Step(s, st).value.value)
  {
    var step := Step(s, st);
    if step.Ok? && step.value.Some? {
      var n, next := |st.attempts|, step.value.value;
      var target := s.route(n, s.original, st.excluded).value;
      var response := s.attempt(n, AttemptOn(s, target), target).value;
      if response.result.Some? {
        assert response == AttemptResponse(next.result, None);
        ResultKeepsLifecycle(s, st, target, next);
      } else {
        assert next.attempts == st.attempts + [Attempt(target, Failed)];
        FailureKeepsLifecycle(s, st, target, next);
      }
    }
  }

  lemma {:induction false} RunKeepsLifecycle(s: Setting, st: ExecutionState)
    requires Lifecycle(s, st)
    ensures Run(s, st).Ok? ==> Lifecycle(s, Run(s, st).value)
    decreases s.maxAttempts - |st.attempts|
  {
    if !st.completed && !Exhausted(st, s.maxAttempts) {
      StepKeepsLifecycle(s, st);
      var step := Step(s, st);
      if step.Ok? && step.value.Some? {
        RunKeepsLifecycle(s, step.value.value);
      }
    }
  }

  /** A run that ends neither completed nor exhausted was told that no node is left. */
  lemma {:induction false} RunStopsForNoRoute(s: Setting, st: ExecutionState)
    ensures Run(s, st).Ok? ==>
            var f := Run(s, st).value;
            f.completed || Exhausted(f, s.maxAttempts) || s.route(|f.attempts|, s.original, f.excluded) == None
    decreases s.maxAttempts - |st.attempts|
  {
    if !st.completed && !Exhausted(st, s.maxAttempts) {
      var step := Step(s, st);
      if step.Ok? && step.value.Some? {
        RunStopsForNoRoute(s, step.value.value);
      }
    }
  }
}
