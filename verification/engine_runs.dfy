/** Whole runs of the engine: they finish without throwing under the contracts of
    routing and execution, and amount to a scan of the routed nodes. */
module EngineRuns {
  import opened Bytes
  import opened Messages
  import opened Orchestrator
  import opened Engine

  // ---- No throw ----

  /** Routing offers only non-empty nodes that are not excluded. */
  ghost predicate RoutesWell(s: Setting) {
    forall call, excluded ::
      var target := s.route(call, s.original, excluded);
      target.Some? ==> target.value != [] && target.value !in excluded
  }

  /** The answer is a failure of this node or a successful result, authenticated and
      for this request. */
  ghost predicate GoodResponse(s: Setting, target: bytes, r: Result<AttemptResponse, ExecError>) {
    r.Ok? &&
    match (r.value.result, r.value.failure)
    case (Some(result), None) =>
      result.requestId == s.original.requestId && result.status == OK && result.signature != []
    case (None, Some(notice)) =>
      notice.requestId == s.original.requestId && notice.failedNodeId == target && notice.signature != []
    case _ => false
  }

  ghost predicate AttemptsWell(s: Setting) {
    forall call, target :: target != [] ==> GoodResponse(s, target, s.attempt(call, AttemptOn(s, target), target))
  }

  lemma StepDoesNotThrow(s: Setting, st: ExecutionState)
    requires RoutesWell(s) && AttemptsWell(s)
    requires st.requestId == s.original.requestId && !st.completed && !Exhausted(st, s.maxAttempts)
    ensures Step(s, st).Ok?
    ensures Step(s, st).value.Some? ==> Step(s, st).value.value.requestId == st.requestId
  {
    var target := s.route(|st.attempts|, s.original, st.excluded);
    if target.Some? {
      assert GoodResponse(s, target.value, s.attempt(|st.attempts|, AttemptOn(s, target.value), target.value));
    }
  }

  lemma {:induction false} RunDoesNotThrow(s: Setting, st: ExecutionState)
    requires RoutesWell(s) && AttemptsWell(s) && st.requestId == s.original.requestId
    ensures Run(s, st).Ok?
    decreases s.maxAttempts - |st.attempts|
  {
    if !st.completed && !Exhausted(st, s.maxAttempts) {
      StepDoesNotThrow(s, st);
      if Step(s, st).value.Some? {
        RunDoesNotThrow(s, Step(s, st).value.value);
      }
    }
  }

  /** The whole call: it throws only for an empty request or no attempts; otherwise its
      final state satisfies the lifecycle, and stops for one of the three reasons. */
  lemma ExecuteEndsWell(s: Setting)
    requires RoutesWell(s) && AttemptsWell(s)
    ensures ExecuteAll(s).Ok? <==> s.original.requestId != [] && s.maxAttempts > 0
    ensures ExecuteAll(s).Ok? ==>
            var o := ExecuteAll(s).value;
            Lifecycle(s, o.state) && (o.exhausted <==> |o.state.attempts| == s.maxAttempts) &&
            (o.state.completed || o.exhausted || s.route(|o.state.attempts|, s.original, o.state.excluded) == None)
  {
    var st := Initial(s.original.requestId);
    RunDoesNotThrow(s, st);
    InitialLifecycle(s);
    RunKeepsLifecycle(s, st);
    RunStopsForNoRoute(s, st);
  }

  /** A step throws exactly if routing or the executor breaks its contract: the node is
      empty or excluded, or the answer is not good. */
  lemma StepThrowsExactly(s: Setting, st: ExecutionState)
    requires st.requestId == s.original.requestId && !st.completed && !Exhausted(st, s.maxAttempts)
    ensures var target := s.route(|st.attempts|, s.original, st.excluded);
            Step(s, st).Throws? <==>
              target.Some? &&
              (target.value == [] || target.value in st.excluded ||
               !GoodResponse(s, target.value, s.attempt(|st.attempts|, AttemptOn(s, target.value), target.value)))
  {
  }

  /** Which contract was broken is what the error says. */
  lemma StepErrors(s: Setting, st: ExecutionState, target: bytes, response: AttemptResponse)
    requires !st.completed && !Exhausted(st, s.maxAttempts)
    requires s.route(|st.attempts|, s.original, st.excluded) == Some(target)
    ensures target in st.excluded ==> Step(s, st) == Throws(RoutedToExcluded)
    ensures target == [] && target !in st.excluded ==> Step(s, st) == Throws(NodeIdRequired)
    ensures target != [] && target !in st.excluded ==>
            var answer := s.attempt(|st.attempts|, AttemptOn(s, target), target);
            (answer.Throws? ==> Step(s, st) == Throws(answer.error)) &&
            (answer == Ok(response) ==>
              (response.result.Some? && response.failure.Some? ==> Step(s, st) == Throws(ResultAndFailure)) &&
              (response.result.None? && response.failure.None? ==> Step(s, st) == Throws(NoEvidence)) &&
              (response.result.None? && response.failure.Some? && response.failure.value.failedNodeId != target ==>
                Step(s, st) == Throws(FailureOfAnotherNode)))
  {
  }

  /** What the engine asks: the provider about the original request, and the executor about
      the original request with nothing but its target changed. */
  ghost predicate AnswerAlike(s: Setting, t: Setting) {
    s.maxAttempts == t.maxAttempts && s.original == t.original &&
    (forall call, excluded :: s.route(call, s.original, excluded) == t.route(call, s.original, excluded)) &&
    forall call, q: Request | q.(targetNodeId := s.original.targetNodeId) == s.original ::
      s.attempt(call, q, q.targetNodeId) == t.attempt(call, q, q.targetNodeId)
  }

  lemma StepAsksOnlyForOriginal(s: Setting, t: Setting, st: ExecutionState)
    requires AnswerAlike(s, t)
    ensures Step(s, st) == Step(t, st)
  {
    var target := s.route(|st.attempts|, s.original, st.excluded);
    if target.Some? {
      var q := AttemptOn(s, target.value);
      assert q.(targetNodeId := s.original.targetNodeId) == s.original;
      assert s.attempt(|st.attempts|, q, q.targetNodeId) == t.attempt(|st.attempts|, q, q.targetNodeId);
    }
  }

  lemma {:induction false} RunAsksOnlyForOriginal(s: Setting, t: Setting, st: ExecutionState)
    requires AnswerAlike(s, t)
    ensures Run(s, st) == Run(t, st)
    decreases s.maxAttempts - |st.attempts|
  {
    hide Step;
    if !st.completed && !Exhausted(st, s.maxAttempts) {
      StepAsksOnlyForOriginal(s, t, st);
      if Step(s, st).Ok? && Step(s, st).value.Some? {
        RunAsksOnlyForOriginal(s, t, Step(s, st).value.value);
      }
    }
  }

  /** Two environments that answer these questions alike cannot be told apart, and the two
      throws before the loop depend on the request and the limit alone. */
  lemma ExecuteAsksOnlyForOriginal(s: Setting, t: Setting)
    requires AnswerAlike(s, t)
    ensures ExecuteAll(s) == ExecuteAll(t)
    ensures s.original.requestId == [] ==> ExecuteAll(s) == Throws(RequestIdRequired)
    ensures s.original.requestId != [] && s.maxAttempts == 0 ==> ExecuteAll(s) == Throws(MaxAttemptsNotPositive)
  {
    RunAsksOnlyForOriginal(s, t, Initial(s.original.requestId));
  }

  // ---- The engine as a scan of a list ----

  /** The first node of the list that is neither empty nor excluded. */
  function FirstEligible(list: seq<bytes>, excluded: set<bytes>): Option<bytes> {
    if list == [] then None
    else if list[0] != [] && list[0] !in excluded then Some(list[0])
    else FirstEligible(list[1..], excluded)
  }

  /** The list without empty nodes, excluded nodes and repetitions, in order. */
  function Candidates(list: seq<bytes>, excluded: set<bytes>): seq<bytes> {
    if list == [] then []
    else if list[0] != [] && list[0] !in excluded then [list[0]] + Candidates(list[1..], excluded + {list[0]})
    else Candidates(list[1..], excluded)
  }

  /** The first at most n candidates, up to and including the first that is not bad. */
  function ScanList(candidates: seq<bytes>, bad: set<bytes>, n: nat): seq<bytes> {
    if candidates == [] || n == 0 then []
    else if candidates[0] in bad then [candidates[0]] + ScanList(candidates[1..], bad, n - 1)
    else [candidates[0]]
  }

  /** A node that is not bad lies among the first n candidates. */
  ghost predicate GoodWithin(candidates: seq<bytes>, bad: set<bytes>, n: nat) {
    exists i | 0 <= i < |candidates| && i < n :: candidates[i] !in bad
  }

  lemma {:induction false} CandidatesHead(list: seq<bytes>, excluded: set<bytes>)
    ensures FirstEligible(list, excluded) ==
            if Candidates(list, excluded) == [] then None else Some(Candidates(list, excluded)[0])
  {
    if list != [] {
      CandidatesHead(list[1..], excluded);
    }
  }

  lemma {:induction false} CandidatesTail(list: seq<bytes>, excluded: set<bytes>)
    requires Candidates(list, excluded) != []
    ensures var c := Candidates(list, excluded);
            c[0] != [] && c[0] !in excluded && Candidates(list, excluded + {c[0]}) == c[1..]
  {
    if !(list[0] != [] && list[0] !in excluded) {
      CandidatesTail(list[1..], excluded);
    }
  }

  /** Routing takes the first eligible node of a fixed list, and an attempt fails exactly
      on the bad nodes. */
  ghost predicate ScansList(s: Setting, list: seq<bytes>, bad: set<bytes>) {
    (forall call, excluded :: s.route(call, s.original, excluded) == FirstEligible(list, excluded)) &&
    AttemptsWell(s) &&
    (forall call, target :: target != [] ==>
      var r := s.attempt(call, AttemptOn(s, target), target);
      r.Ok? && (r.value.failure.Some? <==> target in bad) &&
      (r.value.result.Some? ==> r.value.result.value.responderNodeId == target))
  }

  lemma GoodWithinTail(c: seq<bytes>, bad: set<bytes>, n: nat)
    requires c != [] && n > 0
    ensures GoodWithin(c, bad, n) <==> c[0] !in bad || GoodWithin(c[1..], bad, n - 1)
  {
    if GoodWithin(c, bad, n) && c[0] in bad {
      var i :| 0 <= i < |c| && i < n && c[i] !in bad;
      assert c[1..][i - 1] !in bad;
    }
    if GoodWithin(c[1..], bad, n - 1) {
      var i :| 0 <= i < |c[1..]| && i < n - 1 && c[1..][i] !in bad;
      assert c[i + 1] !in bad;
    }
  }

  function ResultIn(r: Result<AttemptResponse, ExecError>): Option<JobReply> {
    match r
    case Ok(response) => response.result
    case Throws(_) => None
  }

  /** One step of such a run: the first candidate fails and is excluded, or completes. */
  lemma ScanStep(s: Setting, list: seq<bytes>, bad: set<bytes>, st: ExecutionState)
    requires ScansList(s, list, bad)
    requires st.requestId == s.original.requestId && !st.completed && !Exhausted(st, s.maxAttempts)
    ensures var c := Candidates(list, st.excluded);
            Step(s, st) ==
              if c == [] then Ok(None)
              else if c[0] in bad then
                Ok(Some(st.(attempts := st.attempts + [Attempt(c[0], Failed)], excluded := st.excluded + {c[0]})))
              else
                Ok(Some(st.(attempts := st.attempts + [Attempt(c[0], Succeeded)], completed := true,
                            result := ResultIn(s.attempt(|st.attempts|, AttemptOn(s, c[0]), c[0])))))
  {
    CandidatesHead(list, st.excluded);
    var c := Candidates(list, st.excluded);
    if c != [] {
      CandidatesTail(list, st.excluded);
      assert GoodResponse(s, c[0], s.attempt(|st.attempts|, AttemptOn(s, c[0]), c[0]));
      var begun := st.attempts + [Attempt(c[0], InFlight)];
      assert begun[|st.attempts| := Attempt(c[0], Failed)] == st.attempts + [Attempt(c[0], Failed)];
      assert begun[|st.attempts| := Attempt(c[0], Succeeded)] == st.attempts + [Attempt(c[0], Succeeded)];
    }
  }

  lemma {:induction false} RunIsScan(s: Setting, list: seq<bytes>, bad: set<bytes>, st: ExecutionState)
    requires ScansList(s, list, bad) && st.requestId == s.original.requestId && !st.completed
    requires |st.attempts| <= s.maxAttempts
    ensures var c, n := Candidates(list, st.excluded), s.maxAttempts - |st.attempts|;
            Run(s, st).Ok? &&
            Nodes(Run(s, st).value.attempts) == Nodes(st.attempts) + ScanList(c, bad, n) &&
            (Run(s, st).value.completed <==> GoodWithin(c, bad, n))
    decreases s.maxAttempts - |st.attempts|
  {
    var c, n := Candidates(list, st.excluded), s.maxAttempts - |st.attempts|;
    if n > 0 {
      ScanStep(s, list, bad, st);
      if c != [] {
        var next := Step(s, st).value.value;
        GoodWithinTail(c, bad, n);
        NodesSnoc(st.attempts, next.attempts[|st.attempts|]);
        CandidatesTail(list, st.excluded);
        if c[0] in bad {
          RunIsScan(s, list, bad, next);
          Assoc(Nodes(st.attempts), [c[0]], ScanList(c[1..], bad, n - 1));
        }
      }
    }
  }

  /** For every list, set of bad nodes and limit, the engine attempts the distinct
      non-empty nodes of the list up to its first good one, at most maxAttempts of them,
      and completes if and only if that good node is among them. */
  lemma ExecuteIsLinearScan(s: Setting, list: seq<bytes>, bad: set<bytes>)
    requires ScansList(s, list, bad) && s.original.requestId != [] && s.maxAttempts > 0
    ensures ExecuteAll(s).Ok?
    ensures Nodes(ExecuteAll(s).value.state.attempts) == ScanList(Candidates(list, {}), bad, s.maxAttempts)
    ensures ExecuteAll(s).value.state.completed <==> GoodWithin(Candidates(list, {}), bad, s.maxAttempts)
  {
    var st := Initial(s.original.requestId);
    RunIsScan(s, list, bad, st);
    assert Nodes(st.attempts) == [];
  }

  /** The candidates are exactly the distinct non-empty nodes of the list. */
  lemma {:induction false} CandidatesAreDistinct(list: seq<bytes>, excluded: set<bytes>)
    ensures Distinct(Candidates(list, excluded))
    ensures forall n :: n in Candidates(list, excluded) <==> n in list && n != [] && n !in excluded
  {
    if list != [] {
      var x := list[0];
      var rest := if x != [] && x !in excluded then excluded + {x} else excluded;
      CandidatesAreDistinct(list[1..], rest);
      assert list == [x] + list[1..];
      var c := Candidates(list, excluded);
      if x != [] && x !in excluded {
        assert c[0] == x && c[1..] == Candidates(list[1..], rest);
        forall i, j | 0 <= i < j < |c| ensures c[i] != c[j] {
          assert c[j] == c[1..][j - 1] && c[j] in c[1..];
          assert i > 0 ==> c[i] == c[1..][i - 1];
        }
      }
    }
  }

  // ---- Routing over a fixed set of nodes ----

  datatype NodeSnapshot<A> = NodeSnapshot(nodeId: bytes, attributes: A)

  // The request handed to the router; its type and scope are constants of the adapter.
  datatype RoutingRequest = RoutingRequest(requestId: bytes, sourceNodeId: bytes, organizationId: bytes)

  type Router<!A> = (RoutingRequest, seq<NodeSnapshot<A>>) -> Option<bytes>

  function Eligible<A>(nodes: seq<NodeSnapshot<A>>, excluded: set<bytes>): seq<NodeSnapshot<A>> {
    if nodes == [] then []
    else (if nodes[0].nodeId in excluded then [] else [nodes[0]]) + Eligible(nodes[1..], excluded)
  }

  function Adapted<A>(router: Router<A>, nodes: seq<NodeSnapshot<A>>, job: Request, excluded: set<bytes>): Option<bytes> {
    router(RoutingRequest(job.requestId, job.senderNodeId, job.organizationId), Eligible(nodes, excluded))
  }

  /** ResolutiveRoutingProvider::operator(). */
  method Route<A>(router: Router<A>, nodes: seq<NodeSnapshot<A>>, job: Request, excluded: set<bytes>)
      returns (selected: Option<bytes>)
    ensures selected == Adapted(router, nodes, job, excluded)
  {
    var request := RoutingRequest(job.requestId, job.senderNodeId, job.organizationId);
    var eligible: seq<NodeSnapshot<A>> := [];
    var i := 0;
    assert nodes[0..] == nodes;
    while i < |nodes|
      invariant 0 <= i <= |nodes|
      invariant eligible + Eligible(nodes[i..], excluded) == Eligible(nodes, excluded)
    {
      assert nodes[i..][1..] == nodes[i + 1..];
      if nodes[i].nodeId !in excluded {
        Assoc(eligible, [nodes[i]], Eligible(nodes[i + 1..], excluded));
        eligible := eligible + [nodes[i]];
      } else {
        assert [] + Eligible(nodes[i + 1..], excluded) == Eligible(nodes[i + 1..], excluded);
      }
      i := i + 1;
    }
    assert nodes[i..] == [] && eligible + [] == eligible;
    return router(request, eligible);
  }

  ghost predicate Offers<A(!new)>(nodes: seq<NodeSnapshot<A>>, id: bytes) {
    exists node :: node in nodes && node.nodeId == id
  }

  /** The router selects only from what it is offered. */
  ghost predicate SelectsOffered<A(!new)>(router: Router<A>) {
    forall request, nodes :: router(request, nodes).Some? ==> Offers(nodes, router(request, nodes).value)
  }

  lemma {:induction false} EligibleExact<A(!new)>(nodes: seq<NodeSnapshot<A>>, excluded: set<bytes>)
    ensures forall node :: node in Eligible(nodes, excluded) <==> node in nodes && node.nodeId !in excluded
  {
    if nodes != [] {
      EligibleExact(nodes[1..], excluded);
      assert nodes == [nodes[0]] + nodes[1..];
    }
  }

  /** The nodes offered keep their order. */
  lemma {:induction false} EligibleConcat<A(!new)>(xs: seq<NodeSnapshot<A>>, ys: seq<NodeSnapshot<A>>, excluded: set<bytes>)
    ensures Eligible(xs + ys, excluded) == Eligible(xs, excluded) + Eligible(ys, excluded)
    ensures forall node: NodeSnapshot<A> :: Eligible([node], excluded) == if node.nodeId in excluded then [] else [node]
  {
    if xs == [] {
      assert xs + ys == ys;
    } else {
      assert (xs + ys)[1..] == xs[1..] + ys;
      EligibleConcat(xs[1..], ys, excluded);
    }
  }

  /** The router is asked only about the job's identity, sender and organization, and only
      about the nodes offered. */
  lemma RouterSeesOnlyTheJob<A(!new)>(router: Router<A>, other: Router<A>, nodes: seq<NodeSnapshot<A>>, job: Request, excluded: set<bytes>)
    requires forall q: RoutingRequest | q.requestId == job.requestId && q.sourceNodeId == job.senderNodeId &&
                                        q.organizationId == job.organizationId ::
               router(q, Eligible(nodes, excluded)) == other(q, Eligible(nodes, excluded))
    ensures Adapted(router, nodes, job, excluded) == Adapted(other, nodes, job, excluded)
  {
  }

  function Ids<A>(nodes: seq<NodeSnapshot<A>>): set<bytes> {
    if nodes == [] then {} else {nodes[0].nodeId} + Ids(nodes[1..])
  }

  lemma {:induction false} IdsExact<A(!new)>(nodes: seq<NodeSnapshot<A>>, id: bytes)
    ensures id in Ids(nodes) <==> Offers(nodes, id)
  {
    if nodes != [] {
      IdsExact(nodes[1..], id);
      assert nodes == [nodes[0]] + nodes[1..];
      if Offers(nodes, id) {
        var node :| node in nodes && node.nodeId == id;
        assert node == nodes[0] || node in nodes[1..];
      }
      if id == nodes[0].nodeId {
        assert nodes[0] in nodes;
      }
      if Offers(nodes[1..], id) {
        var node :| node in nodes[1..] && node.nodeId == id;
        assert node in nodes;
      }
    }
  }

  /** The adapter never offers an excluded node or one it does not know. */
  lemma AdapterExcludes<A(!new)>(router: Router<A>, nodes: seq<NodeSnapshot<A>>, job: Request, excluded: set<bytes>)
    requires SelectsOffered(router)
    ensures var target := Adapted(router, nodes, job, excluded);
            target.Some? ==> target.value in Ids(nodes) && target.value !in excluded
  {
    var request := RoutingRequest(job.requestId, job.senderNodeId, job.organizationId);
    var target := router(request, Eligible(nodes, excluded));
    if target.Some? {
      EligibleExact(nodes, excluded);
      assert Offers(Eligible(nodes, excluded), target.value);
      var node :| node in Eligible(nodes, excluded) && node.nodeId == target.value;
      IdsExact(nodes, target.value);
    }
  }

  lemma {:induction false} DistinctFitsIn(ns: seq<bytes>, ids: set<bytes>)
    requires Distinct(ns) && forall n | n in ns :: n in ids
    ensures |ns| <= |ids|
  {
    if ns != [] {
      var k := |ns| - 1;
      assert ns[k] in ns;
      forall n | n in ns[..k] ensures n in ids - {ns[k]} {
        var i :| 0 <= i < k && ns[..k][i] == n;
        assert ns[i] in ns;
      }
      DistinctFitsIn(ns[..k], ids - {ns[k]});
    }
  }

  lemma StepTries(s: Setting, st: ExecutionState)
    ensures Step(s, st).Ok? && Step(s, st).value.Some? ==>
            var target := s.route(|st.attempts|, s.original, st.excluded);
            target.Some? && Nodes(Step(s, st).value.value.attempts) == Nodes(st.attempts) + [target.value]
  {
    var step := Step(s, st);
    if step.Ok? && step.value.Some? {
      var target := s.route(|st.attempts|, s.original, st.excluded).value;
      var begun := st.attempts + [Attempt(target, InFlight)];
      NodesSnoc(st.attempts, Attempt(target, InFlight));
      forall i | 0 <= i < |begun| ensures step.value.value.attempts[i].nodeId == begun[i].nodeId {}
    }
  }

  lemma {:induction false} RunTriesOnly(s: Setting, st: ExecutionState, ids: set<bytes>)
    requires forall call, excluded ::
               var target := s.route(call, s.original, excluded);
               target.Some? ==> target.value in ids
    requires forall n | n in Nodes(st.attempts) :: n in ids
    ensures Run(s, st).Ok? ==> forall n | n in Nodes(Run(s, st).value.attempts) :: n in ids
    decreases s.maxAttempts - |st.attempts|
  {
    if !st.completed && !Exhausted(st, s.maxAttempts) {
      StepTries(s, st);
      var step := Step(s, st);
      if step.Ok? && step.value.Some? {
        RunTriesOnly(s, step.value.value, ids);
      }
    }
  }

  /** Over fewer distinct nodes than allowed attempts a run is never exhausted: it
      completes, or routing runs out of nodes. */
  lemma SmallNetworksAreNotExhausted<A(!new)>(s: Setting, router: Router<A>, nodes: seq<NodeSnapshot<A>>)
    requires SelectsOffered(router) && |Ids(nodes)| < s.maxAttempts
    requires forall call, excluded :: s.route(call, s.original, excluded) == Adapted(router, nodes, s.original, excluded)
    ensures ExecuteAll(s).Ok? ==>
            var o := ExecuteAll(s).value;
            !o.exhausted && (o.state.completed || Adapted(router, nodes, s.original, o.state.excluded) == None)
  {
    var st := Initial(s.original.requestId);
    forall call, excluded
      ensures var target := s.route(call, s.original, excluded); target.Some? ==> target.value in Ids(nodes)
    {
      AdapterExcludes(router, nodes, s.original, excluded);
    }
    InitialLifecycle(s);
    RunKeepsLifecycle(s, st);
    RunStopsForNoRoute(s, st);
    RunTriesOnly(s, st, Ids(nodes));
    if Run(s, st).Ok? {
      DistinctFitsIn(Nodes(Run(s, st).value.attempts), Ids(nodes));
    }
  }
}
