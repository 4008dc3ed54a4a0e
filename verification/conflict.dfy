/** The deterministic conflict resolver, and when replicas that apply it converge. */
module Conflict {
  import opened Bytes
  import Utf8

  datatype Resolution = AcceptIncoming | KeepLocal | RejectReplay | RejectStale | RejectScope | RejectUnresolved

  datatype DeltaMeta = DeltaMeta(
    baseVersion: int, newVersion: int, logicalClock: int,
    organizationId: string, senderId: string, messageId: string,
    scopeAllowed: bool, replay: bool)
  {
    function OrderingKey(): Key {
      Key(newVersion, logicalClock,
          Utf8.EncodeText(organizationId), Utf8.EncodeText(senderId), Utf8.EncodeText(messageId))
    }
  }

  // The comparison tuple; the identifiers are bytes.
  datatype Key = Key(version: int, clock: int, organization: bytes, sender: bytes, message: bytes)

  /** Python's `<` on the tuples. */
  predicate KeyLess(a: Key, b: Key) {
    if a.version != b.version then a.version < b.version
    else if a.clock != b.clock then a.clock < b.clock
    else if a.organization != b.organization then LexLess(a.organization, b.organization)
    else if a.sender != b.sender then LexLess(a.sender, b.sender)
    else LexLess(a.message, b.message)
  }

  function Resolve(local: DeltaMeta, incoming: DeltaMeta): Resolution {
    if incoming.replay then RejectReplay
    else if !incoming.scopeAllowed then RejectScope
    else if incoming.baseVersion == local.newVersion then AcceptIncoming
    else if incoming.baseVersion < local.newVersion then
      if incoming.newVersion == local.newVersion then
        if KeyLess(local.OrderingKey(), incoming.OrderingKey()) then AcceptIncoming else KeepLocal
      else RejectStale
    else RejectUnresolved
  }

  // ---- The ordering key is a strict total order ----

  lemma KeyTrichotomy(a: Key, b: Key)
    ensures KeyLess(a, b) || KeyLess(b, a) || a == b
    ensures !(KeyLess(a, b) && KeyLess(b, a)) && !KeyLess(a, a)
  {
    LexTrichotomy(a.organization, b.organization);
    LexTrichotomy(a.sender, b.sender);
    LexTrichotomy(a.message, b.message);
    LexTrichotomy(a.message, a.message);
  }

  lemma KeyTransitive(a: Key, b: Key, c: Key)
    requires KeyLess(a, b) && KeyLess(b, c)
    ensures KeyLess(a, c)
  {
    hide LexLess;
    LexTrichotomy(a.organization, b.organization);
    LexTrichotomy(a.sender, b.sender);
    if LexLess(a.organization, b.organization) && LexLess(b.organization, c.organization) {
      LexTransitive(a.organization, b.organization, c.organization);
      LexTrichotomy(a.organization, c.organization);
    }
    if LexLess(a.sender, b.sender) && LexLess(b.sender, c.sender) {
      LexTransitive(a.sender, b.sender, c.sender);
      LexTrichotomy(a.sender, c.sender);
    }
    if LexLess(a.message, b.message) && LexLess(b.message, c.message) {
      LexTransitive(a.message, b.message, c.message);
    }
  }

  /** Keys are equal if and only if the five fields are. */
  lemma KeyDetermines(a: DeltaMeta, b: DeltaMeta)
    ensures a.OrderingKey() == b.OrderingKey() <==>
            a.newVersion == b.newVersion && a.logicalClock == b.logicalClock &&
            a.organizationId == b.organizationId && a.senderId == b.senderId && a.messageId == b.messageId
  {
    Utf8.TextRoundTrip(a.organizationId);
    Utf8.TextRoundTrip(b.organizationId);
    Utf8.TextRoundTrip(a.senderId);
    Utf8.TextRoundTrip(b.senderId);
    Utf8.TextRoundTrip(a.messageId);
    Utf8.TextRoundTrip(b.messageId);
  }

  /** Comparing the encoded identifiers compares the identifiers by code point. */
  lemma KeyOrderIsCodePointOrder(a: DeltaMeta, b: DeltaMeta)
    ensures KeyLess(a.OrderingKey(), b.OrderingKey()) <==>
            if a.newVersion != b.newVersion then a.newVersion < b.newVersion
            else if a.logicalClock != b.logicalClock then a.logicalClock < b.logicalClock
            else if a.organizationId != b.organizationId then LexLess(a.organizationId, b.organizationId)
            else if a.senderId != b.senderId then LexLess(a.senderId, b.senderId)
            else LexLess(a.messageId, b.messageId)
  {
    KeyDetermines(a, b);
    Utf8.TextRoundTrip(a.organizationId);
    Utf8.TextRoundTrip(b.organizationId);
    Utf8.TextRoundTrip(a.senderId);
    Utf8.TextRoundTrip(b.senderId);
    Utf8.EncodingKeepsOrder(a.organizationId, b.organizationId);
    Utf8.EncodingKeepsOrder(a.senderId, b.senderId);
    Utf8.EncodingKeepsOrder(a.messageId, b.messageId);
  }

  /** Of two concurrent deltas with different keys the same one wins, whichever is local. */
  lemma ConcurrentWinnerIsSymmetric(a: DeltaMeta, b: DeltaMeta)
    requires !a.replay && a.scopeAllowed && !b.replay && b.scopeAllowed
    requires a.newVersion == b.newVersion && a.baseVersion < a.newVersion && b.baseVersion < b.newVersion
    requires a.OrderingKey() != b.OrderingKey()
    ensures Deliver(a, b) == Deliver(b, a)
    ensures Resolve(a, b) == AcceptIncoming <==> Resolve(b, a) == KeepLocal
  {
    KeyTrichotomy(a.OrderingKey(), b.OrderingKey());
  }

  /** What a rejection means for a replica that has moved on: a replay and a delta out of
      scope are rejected by every replica, a stale delta whose version is passed stays
      stale, and an unresolved one is accepted as soon as its base is reached. */
  lemma RejectionsOfLaterReplicas(local: DeltaMeta, d: DeltaMeta, later: DeltaMeta)
    requires local.newVersion <= later.newVersion
    ensures Resolve(local, d) == RejectReplay <==> Resolve(later, d) == RejectReplay
    ensures Resolve(local, d) == RejectScope <==> Resolve(later, d) == RejectScope
    ensures Resolve(local, d) == RejectStale && d.newVersion < local.newVersion ==> Resolve(later, d) == RejectStale
    ensures Resolve(local, d) == RejectUnresolved && later.newVersion == d.baseVersion ==>
            Resolve(later, d) == AcceptIncoming
  {
  }

  /** Neither a replay nor out of scope. */
  predicate Admissible(d: DeltaMeta) {
    !d.replay && d.scopeAllowed
  }

  /** A delta that is not admissible changes nothing, and a replay is rejected as one
      whatever its scope. */
  lemma InadmissibleIsRejected(local: DeltaMeta, d: DeltaMeta)
    requires !Admissible(d)
    ensures Deliver(local, d) == local
    ensures Resolve(local, d) == if d.replay then RejectReplay else RejectScope
  {
  }

  /** The four answers to an admissible delta: it is accepted if it extends the replica or
      outdoes it, kept out if it competes and does not, unresolved if its base is yet to
      come, and otherwise stale. */
  lemma AdmissibleAnswers(local: DeltaMeta, d: DeltaMeta)
    requires Admissible(d)
    ensures Resolve(local, d) == AcceptIncoming <==> Extends(local, d) || Outdoes(local, d)
    ensures Resolve(local, d) == KeepLocal <==> Competes(local, d) && !Outdoes(local, d)
    ensures Resolve(local, d) == RejectUnresolved <==> d.baseVersion > local.newVersion
    ensures Resolve(local, d) == RejectStale <==>
            d.baseVersion < local.newVersion && d.newVersion != local.newVersion
  {
  }

  // ---- A replica: the fold of resolve over a delivery sequence ----

  function Deliver(local: DeltaMeta, incoming: DeltaMeta): DeltaMeta {
    if Resolve(local, incoming) == AcceptIncoming then incoming else local
  }

  function Replica(initial: DeltaMeta, deliveries: seq<DeltaMeta>): DeltaMeta {
    if deliveries == [] then initial
    else Deliver(Replica(initial, deliveries[..|deliveries| - 1]), deliveries[|deliveries| - 1])
  }

  /** Accepted at all: neither a replay nor out of scope, and a step forward. */
  predicate Eligible(d: DeltaMeta) {
    !d.replay && d.scopeAllowed && d.baseVersion < d.newVersion
  }

  function Greater(a: DeltaMeta, b: DeltaMeta): DeltaMeta {
    if KeyLess(a.OrderingKey(), b.OrderingKey()) then b else a
  }

  /** An eligible delivery keeps the greater of the two keys exactly when it builds on
      the local version or does not reach past it. */
  lemma DeliverIsGreaterExactly(local: DeltaMeta, d: DeltaMeta)
    requires Eligible(d)
    ensures Deliver(local, d) == Greater(local, d) <==>
            d.baseVersion == local.newVersion || d.newVersion <= local.newVersion
  {
  }

  /** Every delivery met a replica that it extends or that had already reached its version. */
  predicate InOrder(initial: DeltaMeta, deliveries: seq<DeltaMeta>) {
    forall i | 0 <= i < |deliveries| ::
      deliveries[i].baseVersion == Replica(initial, deliveries[..i]).newVersion ||
      deliveries[i].newVersion <= Replica(initial, deliveries[..i]).newVersion
  }

  /** m is the initial state or a delivered delta with a greater key, and no delivered
      delta has a greater key than m. */
  ghost predicate IsGreatest(m: DeltaMeta, initial: DeltaMeta, deliveries: seq<DeltaMeta>) {
    (m == initial || (m in deliveries && KeyLess(initial.OrderingKey(), m.OrderingKey()))) &&
    forall d | d in deliveries :: !KeyLess(m.OrderingKey(), d.OrderingKey())
  }

  lemma GreaterKeepsGreatest(m: DeltaMeta, initial: DeltaMeta, deliveries: seq<DeltaMeta>, d: DeltaMeta)
    requires IsGreatest(m, initial, deliveries)
    ensures IsGreatest(Greater(m, d), initial, deliveries + [d])
  {
    var k := d.OrderingKey();
    KeyTrichotomy(k, k);
    if KeyLess(m.OrderingKey(), k) {
      if m != initial {
        KeyTransitive(initial.OrderingKey(), m.OrderingKey(), k);
      }
      forall x | x in deliveries ensures !KeyLess(k, x.OrderingKey()) {
        if KeyLess(k, x.OrderingKey()) {
          KeyTransitive(m.OrderingKey(), k, x.OrderingKey());
        }
      }
    }
  }

  lemma {:induction false} ReplicaIsGreatest(initial: DeltaMeta, deliveries: seq<DeltaMeta>)
    requires InOrder(initial, deliveries) && forall d | d in deliveries :: Eligible(d)
    ensures IsGreatest(Replica(initial, deliveries), initial, deliveries)
  {
    if deliveries != [] {
      var n := |deliveries| - 1;
      var before, d := deliveries[..n], deliveries[n];
      assert deliveries == before + [d];
      forall i | 0 <= i < n ensures before[..i] == deliveries[..i] {}
      ReplicaIsGreatest(initial, before);
      DeliverIsGreaterExactly(Replica(initial, before), d);
      GreaterKeepsGreatest(Replica(initial, before), initial, before, d);
    }
  }

  /** The state is the greatest of what has arrived, after every delivery. */
  ghost predicate AlwaysGreatest(initial: DeltaMeta, deliveries: seq<DeltaMeta>) {
    forall i | 0 <= i <= |deliveries| :: IsGreatest(Replica(initial, deliveries[..i]), initial, deliveries[..i])
  }

  /** A step from one greatest state to another delivered in order. */
  lemma GreatestStep(initial: DeltaMeta, before: seq<DeltaMeta>, d: DeltaMeta, local: DeltaMeta)
    requires Eligible(d) && IsGreatest(local, initial, before)
    requires IsGreatest(Deliver(local, d), initial, before + [d])
    ensures d.baseVersion == local.newVersion || d.newVersion <= local.newVersion
  {
    assert d in before + [d];
    if local.newVersion < d.newVersion {
      assert KeyLess(local.OrderingKey(), d.OrderingKey());
      DeliverIsGreaterExactly(local, d);
    }
  }

  /** Eligible deliveries are in order if and only if the replica is always the greatest. */
  lemma InOrderExactly(initial: DeltaMeta, deliveries: seq<DeltaMeta>)
    requires forall d | d in deliveries :: Eligible(d)
    ensures InOrder(initial, deliveries) <==> AlwaysGreatest(initial, deliveries)
  {
    if InOrder(initial, deliveries) {
      forall i | 0 <= i <= |deliveries|
        ensures IsGreatest(Replica(initial, deliveries[..i]), initial, deliveries[..i])
      {
        InOrderPrefix(initial, deliveries, i);
        forall d | d in deliveries[..i] ensures Eligible(d) { assert d in deliveries; }
        ReplicaIsGreatest(initial, deliveries[..i]);
      }
    }
    if AlwaysGreatest(initial, deliveries) {
      forall i | 0 <= i < |deliveries|
        ensures deliveries[i].baseVersion == Replica(initial, deliveries[..i]).newVersion ||
                deliveries[i].newVersion <= Replica(initial, deliveries[..i]).newVersion
      {
        ReplicaSnoc(initial, deliveries[..i], deliveries[i]);
        assert deliveries[..i + 1] == deliveries[..i] + [deliveries[i]];
        assert deliveries[i] in deliveries;
        GreatestStep(initial, deliveries[..i], deliveries[i], Replica(initial, deliveries[..i]));
      }
    }
  }

  lemma InOrderPrefix(initial: DeltaMeta, deliveries: seq<DeltaMeta>, n: nat)
    requires InOrder(initial, deliveries) && n <= |deliveries|
    ensures InOrder(initial, deliveries[..n])
  {
    forall i | 0 <= i < n ensures deliveries[..n][..i] == deliveries[..i] {}
  }

  lemma ReplicaSnoc(initial: DeltaMeta, before: seq<DeltaMeta>, d: DeltaMeta)
    ensures Replica(initial, before + [d]) == Deliver(Replica(initial, before), d)
  {
    assert (before + [d])[..|before|] == before;
  }

  // ---- Convergence ----

  /** Version v lies strictly between the base and the version of d. */
  predicate JumpsOver(d: DeltaMeta, v: int) {
    d.baseVersion < v < d.newVersion
  }

  /** No delta jumps over the initial version or over that of another delta. */
  ghost predicate NoJumps(initial: DeltaMeta, ds: seq<DeltaMeta>) {
    forall d | d in ds :: !JumpsOver(d, initial.newVersion) && forall e | e in ds :: !JumpsOver(d, e.newVersion)
  }

  ghost predicate DistinctKeys(ds: seq<DeltaMeta>) {
    forall d, e | d in ds && e in ds && d.OrderingKey() == e.OrderingKey() :: d == e
  }

  /** One version forward, which jumps over nothing. */
  predicate OneStep(d: DeltaMeta) {
    !d.replay && d.scopeAllowed && d.newVersion == d.baseVersion + 1
  }

  /** Each delta arrives after some delta that produced its base, unless its base is
      no newer than the initial version. Duplicates are allowed. */
  predicate Causal(initial: DeltaMeta, deliveries: seq<DeltaMeta>) {
    forall i | 0 <= i < |deliveries| ::
      deliveries[i].baseVersion <= initial.newVersion ||
      exists j | 0 <= j < i :: deliveries[j].newVersion == deliveries[i].baseVersion
  }

  lemma VersionFollowsKey(a: DeltaMeta, b: DeltaMeta)
    requires !KeyLess(a.OrderingKey(), b.OrderingKey())
    ensures b.newVersion <= a.newVersion
  {
  }

  lemma CausalPrefix(initial: DeltaMeta, deliveries: seq<DeltaMeta>)
    requires Causal(initial, deliveries) && deliveries != []
    ensures Causal(initial, deliveries[..|deliveries| - 1])
  {
    var before := deliveries[..|deliveries| - 1];
    forall i | 0 <= i < |before|
      ensures before[i].baseVersion <= initial.newVersion ||
              exists j | 0 <= j < i :: before[j].newVersion == before[i].baseVersion
    {
      if deliveries[i].baseVersion > initial.newVersion {
        var j :| 0 <= j < i && deliveries[j].newVersion == deliveries[i].baseVersion;
        assert before[j].newVersion == before[i].baseVersion;
      }
    }
  }

  lemma InOrderSnoc(initial: DeltaMeta, before: seq<DeltaMeta>, d: DeltaMeta)
    requires InOrder(initial, before)
    requires d.baseVersion == Replica(initial, before).newVersion || d.newVersion <= Replica(initial, before).newVersion
    ensures InOrder(initial, before + [d])
  {
    var all := before + [d];
    forall i | 0 <= i < |all|
      ensures all[i].baseVersion == Replica(initial, all[..i]).newVersion ||
              all[i].newVersion <= Replica(initial, all[..i]).newVersion
    {
      assert all[..i] == before[..i];
      assert before[..|before|] == before;
    }
  }

  /** The greatest state is at least as new as any base that causality provides. */
  lemma BaseIsReached(initial: DeltaMeta, deliveries: seq<DeltaMeta>, local: DeltaMeta)
    requires Causal(initial, deliveries) && deliveries != []
    requires IsGreatest(local, initial, deliveries[..|deliveries| - 1])
    ensures deliveries[|deliveries| - 1].baseVersion <= local.newVersion
  {
    var before, d := deliveries[..|deliveries| - 1], deliveries[|deliveries| - 1];
    KeyTrichotomy(local.OrderingKey(), initial.OrderingKey());
    VersionFollowsKey(local, initial);
    if d.baseVersion > initial.newVersion {
      var j :| 0 <= j < |before| && deliveries[j].newVersion == d.baseVersion;
      assert before[j] in before;
      VersionFollowsKey(local, before[j]);
    }
  }

  lemma NoJumpsPrefix(initial: DeltaMeta, before: seq<DeltaMeta>, d: DeltaMeta)
    requires NoJumps(initial, before + [d])
    ensures NoJumps(initial, before)
    ensures !JumpsOver(d, initial.newVersion) && forall e | e in before :: !JumpsOver(d, e.newVersion)
  {
    forall x | x in before ensures x in before + [d] {}
    assert d in before + [d];
  }

  /** Where no delta jumps, causally admissible deltas always meet a replica they extend
      or are behind. */
  lemma {:induction false} CausalIsInOrder(initial: DeltaMeta, deliveries: seq<DeltaMeta>)
    requires Causal(initial, deliveries) && forall d | d in deliveries :: Eligible(d)
    requires NoJumps(initial, deliveries)
    ensures InOrder(initial, deliveries)
  {
    if deliveries != [] {
      hide Causal, InOrder, KeyLess, NoJumps, Replica;
      var before, d := deliveries[..|deliveries| - 1], deliveries[|deliveries| - 1];
      assert deliveries == before + [d];
      CausalPrefix(initial, deliveries);
      NoJumpsPrefix(initial, before, d);
      CausalIsInOrder(initial, before);
      ReplicaIsGreatest(initial, before);
      BaseIsReached(initial, deliveries, Replica(initial, before));
      InOrderSnoc(initial, before, d);
    }
  }

  lemma GreatestIsUnique(initial: DeltaMeta, xs: seq<DeltaMeta>, ys: seq<DeltaMeta>, m: DeltaMeta, n: DeltaMeta)
    requires DistinctKeys(xs)
    requires forall d :: d in xs <==> d in ys
    requires IsGreatest(m, initial, xs) && IsGreatest(n, initial, ys)
    ensures m == n
  {
    KeyTrichotomy(m.OrderingKey(), n.OrderingKey());
    KeyTrichotomy(initial.OrderingKey(), initial.OrderingKey());
  }

  /** Convergence: from the same initial state, any two causally admissible orders of the
      same eligible deltas, with any duplicates, leave two replicas in the same state, the
      one of the greatest ordering key, if keys are distinct and no delta jumps. */
  lemma ReplicasConverge(initial: DeltaMeta, xs: seq<DeltaMeta>, ys: seq<DeltaMeta>)
    requires forall d | d in xs :: Eligible(d)
    requires DistinctKeys(xs) && NoJumps(initial, xs)
    requires forall d :: d in xs <==> d in ys
    requires Causal(initial, xs) && Causal(initial, ys)
    ensures Replica(initial, xs) == Replica(initial, ys)
    ensures IsGreatest(Replica(initial, xs), initial, xs)
  {
    CausalIsInOrder(initial, xs);
    CausalIsInOrder(initial, ys);
    ReplicaIsGreatest(initial, xs);
    ReplicaIsGreatest(initial, ys);
    GreatestIsUnique(initial, xs, ys, Replica(initial, xs), Replica(initial, ys));
  }

  /** One step forward is enough: such deltas jump over nothing, and equal keys make them
      equal. */
  lemma OneStepsConverge(initial: DeltaMeta, xs: seq<DeltaMeta>, ys: seq<DeltaMeta>)
    requires forall d | d in xs :: OneStep(d)
    requires forall d :: d in xs <==> d in ys
    requires Causal(initial, xs) && Causal(initial, ys)
    ensures Replica(initial, xs) == Replica(initial, ys)
  {
    hide Causal, KeyLess;
    forall d, e | d in xs && e in xs && d.OrderingKey() == e.OrderingKey() ensures d == e {
      KeyDetermines(d, e);
    }
    ReplicasConverge(initial, xs, ys);
  }

  /** The deliveries without the replays and those out of scope. */
  function Admitted(ds: seq<DeltaMeta>): seq<DeltaMeta> {
    if ds == [] then []
    else
      var before, d := Admitted(ds[..|ds| - 1]), ds[|ds| - 1];
      if Admissible(d) then before + [d] else before
  }

  /** A replica is what its admissible deliveries make it. */
  lemma {:induction false} ReplicaIgnoresInadmissible(initial: DeltaMeta, ds: seq<DeltaMeta>)
    ensures Replica(initial, ds) == Replica(initial, Admitted(ds))
    decreases |ds|
  {
    if ds != [] {
      var before, d := ds[..|ds| - 1], ds[|ds| - 1];
      ReplicaIgnoresInadmissible(initial, before);
      if Admissible(d) {
        ReplicaSnoc(initial, Admitted(before), d);
      } else {
        InadmissibleIsRejected(Replica(initial, before), d);
      }
    }
  }

  lemma {:induction false} AdmittedExact(ds: seq<DeltaMeta>)
    ensures forall d :: d in Admitted(ds) <==> d in ds && Admissible(d)
    decreases |ds|
  {
    if ds != [] {
      AdmittedExact(ds[..|ds| - 1]);
      assert ds == ds[..|ds| - 1] + [ds[|ds| - 1]];
    }
  }

  /** Convergence of whole histories, with replays and deltas out of scope among them: it is
      enough that the admissible ones are the same, in causal order on both sides. */
  lemma HistoriesConverge(initial: DeltaMeta, xs: seq<DeltaMeta>, ys: seq<DeltaMeta>)
    requires forall d | d in xs && Admissible(d) :: d.baseVersion < d.newVersion
    requires DistinctKeys(Admitted(xs)) && NoJumps(initial, Admitted(xs))
    requires forall d | Admissible(d) :: d in xs <==> d in ys
    requires Causal(initial, Admitted(xs)) && Causal(initial, Admitted(ys))
    ensures Replica(initial, xs) == Replica(initial, ys)
  {
    AdmittedExact(xs);
    AdmittedExact(ys);
    ReplicaIgnoresInadmissible(initial, xs);
    ReplicaIgnoresInadmissible(initial, ys);
    ReplicasConverge(initial, Admitted(xs), Admitted(ys));
  }

  // ---- Exactly when every causal history is in order ----

  ghost predicate Over(pool: set<DeltaMeta>, ds: seq<DeltaMeta>) {
    forall d | d in ds :: d in pool
  }

  /** Each delta builds on the one before it, and the first on what the replica has. */
  predicate Chain(initial: DeltaMeta, c: seq<DeltaMeta>) {
    c != [] && c[0].baseVersion <= initial.newVersion &&
    forall i | 0 < i < |c| :: c[i].baseVersion == c[i - 1].newVersion
  }

  /** d can be delivered: deltas of the pool lead up to it. */
  ghost predicate Deliverable(initial: DeltaMeta, pool: set<DeltaMeta>, d: DeltaMeta) {
    exists c :: c != [] && Chain(initial, c) && Over(pool, c) && c[|c| - 1] == d
  }

  /** No deliverable delta that is newer than the initial state jumps over it or over the
      version of a deliverable delta. */
  ghost predicate NoDeliverableJumps(initial: DeltaMeta, pool: set<DeltaMeta>) {
    forall d | Deliverable(initial, pool, d) && d.newVersion > initial.newVersion ::
      d.baseVersion >= initial.newVersion &&
      forall e | Deliverable(initial, pool, e) :: !JumpsOver(d, e.newVersion)
  }

  /** Whatever occurs in a causal history over the pool can be delivered. */
  lemma {:induction false} CausalIsDeliverable(initial: DeltaMeta, pool: set<DeltaMeta>, ds: seq<DeltaMeta>, i: nat)
    requires Causal(initial, ds) && Over(pool, ds) && i < |ds|
    ensures Deliverable(initial, pool, ds[i])
    decreases i
  {
    if ds[i].baseVersion <= initial.newVersion {
      assert Chain(initial, [ds[i]]) && Over(pool, [ds[i]]);
    } else {
      var j :| 0 <= j < i && ds[j].newVersion == ds[i].baseVersion;
      CausalIsDeliverable(initial, pool, ds, j);
      var c :| c != [] && Chain(initial, c) && Over(pool, c) && c[|c| - 1] == ds[j];
      ChainSnoc(initial, c, ds[i]);
      assert Over(pool, c + [ds[i]]);
      assert (c + [ds[i]])[|c + [ds[i]]| - 1] == ds[i];
    }
  }

  lemma ChainSnoc(initial: DeltaMeta, c: seq<DeltaMeta>, d: DeltaMeta)
    requires c != [] && Chain(initial, c) && d.baseVersion == c[|c| - 1].newVersion
    ensures Chain(initial, c + [d])
  {
    var longer := c + [d];
    forall i | 0 < i < |longer| ensures longer[i].baseVersion == longer[i - 1].newVersion {
      assert longer[i - 1] == c[i - 1];
    }
    assert longer[0] == c[0];
  }

  lemma ChainIsCausal(initial: DeltaMeta, c: seq<DeltaMeta>)
    requires Chain(initial, c)
    ensures Causal(initial, c)
  {
    forall i | 0 <= i < |c|
      ensures c[i].baseVersion <= initial.newVersion || exists j | 0 <= j < i :: c[j].newVersion == c[i].baseVersion
    {
      if i > 0 {
        assert c[i - 1].newVersion == c[i].baseVersion;
      }
    }
  }

  lemma CausalConcat(initial: DeltaMeta, xs: seq<DeltaMeta>, ys: seq<DeltaMeta>)
    requires Causal(initial, xs) && Causal(initial, ys)
    ensures Causal(initial, xs + ys)
  {
    var all := xs + ys;
    forall i | 0 <= i < |all|
      ensures all[i].baseVersion <= initial.newVersion || exists j | 0 <= j < i :: all[j].newVersion == all[i].baseVersion
    {
      if all[i].baseVersion > initial.newVersion {
        if i < |xs| {
          var j :| 0 <= j < i && xs[j].newVersion == xs[i].baseVersion;
          assert all[j].newVersion == all[i].baseVersion;
        } else {
          var j :| 0 <= j < i - |xs| && ys[j].newVersion == ys[i - |xs|].baseVersion;
          assert all[|xs| + j].newVersion == all[i].baseVersion;
        }
      }
    }
  }

  /** Along a chain of eligible deltas versions only grow. */
  lemma {:induction false} ChainGrows(initial: DeltaMeta, c: seq<DeltaMeta>, i: nat)
    requires Chain(initial, c) && i < |c| && forall d | d in c :: Eligible(d)
    ensures i < |c| - 1 ==> c[i].newVersion <= c[|c| - 1].baseVersion
    ensures c[i].newVersion <= c[|c| - 1].newVersion
    decreases |c| - i
  {
    if i < |c| - 1 {
      assert c[i + 1].baseVersion == c[i].newVersion;
      assert Eligible(c[i + 1]);
      ChainGrows(initial, c, i + 1);
    }
  }

  /** A delta that jumps over the version of the greatest state is lost. */
  lemma JumpIsLost(initial: DeltaMeta, before: seq<DeltaMeta>, d: DeltaMeta)
    requires Eligible(d) && JumpsOver(d, Replica(initial, before).newVersion)
    ensures !InOrder(initial, before + [d])
  {
    var all := before + [d];
    assert all[|before|] == d && all[..|before|] == before;
  }

  /** The replica's version is that of some delta or the initial one, and no less than any. */
  lemma GreatestVersion(initial: DeltaMeta, ds: seq<DeltaMeta>, m: DeltaMeta)
    requires IsGreatest(m, initial, ds)
    ensures initial.newVersion <= m.newVersion && forall d | d in ds :: d.newVersion <= m.newVersion
    ensures m == initial || m in ds
  {
    KeyTrichotomy(m.OrderingKey(), initial.OrderingKey());
    VersionFollowsKey(m, initial);
    forall d | d in ds ensures d.newVersion <= m.newVersion {
      VersionFollowsKey(m, d);
    }
  }

  /** The end of a chain, or the initial version where there is none. */
  function EndVersion(initial: DeltaMeta, c: seq<DeltaMeta>): int {
    if c == [] then initial.newVersion else c[|c| - 1].newVersion
  }

  lemma VersionsBetween(initial: DeltaMeta, ce: seq<DeltaMeta>, cd: seq<DeltaMeta>, m: DeltaMeta)
    requires cd != [] && Chain(initial, cd) && (ce == [] || Chain(initial, ce))
    requires (forall x | x in ce :: Eligible(x)) && (forall x | x in cd :: Eligible(x))
    requires JumpsOver(cd[|cd| - 1], EndVersion(initial, ce))
    requires initial.newVersion < cd[|cd| - 1].newVersion && IsGreatest(m, initial, ce + cd[..|cd| - 1])
    ensures JumpsOver(cd[|cd| - 1], m.newVersion)
  {
    hide Chain, IsGreatest, Eligible;
    var n := |cd| - 1;
    var before := ce + cd[..n];
    GreatestVersion(initial, before, m);
    if ce != [] {
      assert before[|ce| - 1] == ce[|ce| - 1];
    }
    if m != initial {
      var i :| 0 <= i < |before| && before[i] == m;
      if i < |ce| {
        ChainGrows(initial, ce, i);
      } else {
        ChainGrows(initial, cd, i - |ce|);
      }
    }
  }

  /** A jump over the end of a chain, or over the initial version, makes a history that is
      not in order: that chain, and then the one that leads to the jump. */
  lemma JumpDisorders(initial: DeltaMeta, ce: seq<DeltaMeta>, cd: seq<DeltaMeta>)
    requires cd != [] && Chain(initial, cd) && (ce == [] || Chain(initial, ce))
    requires (forall x | x in ce :: Eligible(x)) && (forall x | x in cd :: Eligible(x))
    requires JumpsOver(cd[|cd| - 1], EndVersion(initial, ce)) && initial.newVersion < cd[|cd| - 1].newVersion
    ensures !InOrder(initial, ce + cd)
  {
    hide Chain, InOrder, IsGreatest, Replica, Eligible;
    var n := |cd| - 1;
    var before := ce + cd[..n];
    assert ce + cd == before + [cd[n]];
    if InOrder(initial, ce + cd) {
      InOrderPrefix(initial, ce + cd, |before|);
      assert (ce + cd)[..|before|] == before;
      ReplicaIsGreatest(initial, before);
      VersionsBetween(initial, ce, cd, Replica(initial, before));
      assert cd[n] in cd;
      JumpIsLost(initial, before, cd[n]);
    }
  }

  lemma ChainsAreCausal(initial: DeltaMeta, ce: seq<DeltaMeta>, cd: seq<DeltaMeta>)
    requires Chain(initial, cd) && (ce == [] || Chain(initial, ce))
    ensures Causal(initial, ce + cd)
  {
    ChainIsCausal(initial, cd);
    if ce != [] {
      ChainIsCausal(initial, ce);
    }
    CausalConcat(initial, ce, cd);
  }

  /** The exact condition: over a pool of eligible deltas every causal history leaves the
      replica, after each delivery, at the greatest of what has arrived, if and only if no
      deliverable delta jumps. */
  lemma CausalHistoriesExactly(initial: DeltaMeta, pool: set<DeltaMeta>)
    requires forall d | d in pool :: Eligible(d)
    ensures (forall ds | Over(pool, ds) && Causal(initial, ds) :: AlwaysGreatest(initial, ds)) <==>
            NoDeliverableJumps(initial, pool)
  {
    if NoDeliverableJumps(initial, pool) {
      forall ds | Over(pool, ds) && Causal(initial, ds) ensures AlwaysGreatest(initial, ds) {
        NoJumpsInOrder(initial, pool, ds);
        InOrderExactly(initial, ds);
      }
    } else {
      var ds := DisorderlyHistory(initial, pool);
      InOrderExactly(initial, ds);
    }
  }

  /** Where nothing deliverable jumps, the last of a causal history meets a greatest state
      that it extends or is behind. */
  lemma LastIsInOrder(initial: DeltaMeta, pool: set<DeltaMeta>, ds: seq<DeltaMeta>, local: DeltaMeta)
    requires NoDeliverableJumps(initial, pool) && Over(pool, ds) && Causal(initial, ds) && ds != []
    requires IsGreatest(local, initial, ds[..|ds| - 1])
    ensures ds[|ds| - 1].baseVersion == local.newVersion || ds[|ds| - 1].newVersion <= local.newVersion
  {
    hide Causal, IsGreatest, Deliverable, Over;
    var n := |ds| - 1;
    BaseIsReached(initial, ds, local);
    GreatestVersion(initial, ds[..n], local);
    CausalIsDeliverable(initial, pool, ds, n);
    if local != initial {
      var i :| 0 <= i < n && ds[..n][i] == local;
      CausalIsDeliverable(initial, pool, ds, i);
    }
  }

  lemma {:induction false} NoJumpsInOrder(initial: DeltaMeta, pool: set<DeltaMeta>, ds: seq<DeltaMeta>)
    requires NoDeliverableJumps(initial, pool) && forall d | d in pool :: Eligible(d)
    requires Over(pool, ds) && Causal(initial, ds)
    ensures InOrder(initial, ds)
  {
    if ds != [] {
      hide Causal, InOrder, KeyLess, IsGreatest, NoDeliverableJumps, Replica;
      var before, d := ds[..|ds| - 1], ds[|ds| - 1];
      assert ds == before + [d];
      CausalPrefix(initial, ds);
      NoJumpsInOrder(initial, pool, before);
      ReplicaIsGreatest(initial, before);
      LastIsInOrder(initial, pool, ds, Replica(initial, before));
      InOrderSnoc(initial, before, d);
    }
  }

  lemma DisorderlyHistory(initial: DeltaMeta, pool: set<DeltaMeta>) returns (ds: seq<DeltaMeta>)
    requires !NoDeliverableJumps(initial, pool) && forall d | d in pool :: Eligible(d)
    ensures Over(pool, ds) && Causal(initial, ds) && !InOrder(initial, ds)
  {
    hide Chain, Causal, InOrder;
    var d :| Deliverable(initial, pool, d) && d.newVersion > initial.newVersion &&
             (d.baseVersion < initial.newVersion || exists e | Deliverable(initial, pool, e) :: JumpsOver(d, e.newVersion));
    var cd :| cd != [] && Chain(initial, cd) && Over(pool, cd) && cd[|cd| - 1] == d;
    var ce: seq<DeltaMeta> := [];
    if d.baseVersion >= initial.newVersion {
      var e :| Deliverable(initial, pool, e) && JumpsOver(d, e.newVersion);
      ce :| ce != [] && Chain(initial, ce) && Over(pool, ce) && ce[|ce| - 1] == e;
    }
    JumpDisorders(initial, ce, cd);
    ChainsAreCausal(initial, ce, cd);
    ds := ce + cd;
  }

  // ---- The hypotheses are needed ----

  /** Without single steps: two valid descendants of one base, and the first to arrive wins. */
  lemma VersionJumpsDiverge()
    ensures var s := DeltaMeta(-1, 0, 0, "o", "s", "m0", true, false);
            var a := DeltaMeta(0, 1, 0, "o", "s", "m1", true, false);
            var b := DeltaMeta(0, 2, 0, "o", "s", "m2", true, false);
            Eligible(a) && Eligible(b) && Replica(s, [a, b]) == a && Replica(s, [b, a]) == b
  {
    var s := DeltaMeta(-1, 0, 0, "o", "s", "m0", true, false);
    var a := DeltaMeta(0, 1, 0, "o", "s", "m1", true, false);
    var b := DeltaMeta(0, 2, 0, "o", "s", "m2", true, false);
    TwoDeliveries(s, a, b);
    TwoDeliveries(s, b, a);
  }

  /** Without causal order: a delta that arrives before its base is lost. */
  lemma DisorderDiverges()
    ensures var s := DeltaMeta(-1, 0, 0, "o", "s", "m0", true, false);
            var a := DeltaMeta(0, 1, 0, "o", "s", "m1", true, false);
            var b := DeltaMeta(1, 2, 0, "o", "s", "m2", true, false);
            OneStep(a) && OneStep(b) && Replica(s, [a, b]) == b && Replica(s, [b, a]) == a
  {
    var s := DeltaMeta(-1, 0, 0, "o", "s", "m0", true, false);
    var a := DeltaMeta(0, 1, 0, "o", "s", "m1", true, false);
    var b := DeltaMeta(1, 2, 0, "o", "s", "m2", true, false);
    TwoDeliveries(s, a, b);
    TwoDeliveries(s, b, a);
  }

  /** d is accepted by a replica with the state s: it builds on its version, or competes
      for it with a greater key. */
  predicate Extends(s: DeltaMeta, d: DeltaMeta) {
    d.baseVersion == s.newVersion
  }

  predicate Competes(s: DeltaMeta, d: DeltaMeta) {
    d.baseVersion < s.newVersion && d.newVersion == s.newVersion
  }

  predicate Outdoes(s: DeltaMeta, d: DeltaMeta) {
    Competes(s, d) && KeyLess(s.OrderingKey(), d.OrderingKey())
  }

  /** Exactly when two eligible deltas can arrive in either order: if both extend the
      replica they reach the same version, and one that the replica must reject neither
      extends nor outdoes the other. */
  lemma DeliveriesCommuteExactly(s: DeltaMeta, a: DeltaMeta, b: DeltaMeta)
    requires Eligible(a) && Eligible(b) && a.OrderingKey() != b.OrderingKey()
    ensures Replica(s, [a, b]) == Replica(s, [b, a]) <==>
            (Extends(s, a) && Extends(s, b) ==> a.newVersion == b.newVersion) &&
            (Extends(s, a) && !Extends(s, b) && !Competes(s, b) ==> !Extends(a, b) && !Outdoes(a, b)) &&
            (Extends(s, b) && !Extends(s, a) && !Competes(s, a) ==> !Extends(b, a) && !Outdoes(b, a))
  {
    CommuteByAnswers(s, a, b);
  }

  lemma CommuteByAnswers(s: DeltaMeta, a: DeltaMeta, b: DeltaMeta)
    requires Eligible(a) && Eligible(b) && a.OrderingKey() != b.OrderingKey()
    ensures Replica(s, [a, b]) == Replica(s, [b, a]) <==>
            (Extends(s, a) && Extends(s, b) ==> a.newVersion == b.newVersion) &&
            (Extends(s, a) && !Extends(s, b) && !Competes(s, b) ==> Resolve(a, b) != AcceptIncoming) &&
            (Extends(s, b) && !Extends(s, a) && !Competes(s, a) ==> Resolve(b, a) != AcceptIncoming)
  {
    TwoDeliveries(s, a, b);
    TwoDeliveries(s, b, a);
    var k, l, m := s.OrderingKey(), a.OrderingKey(), b.OrderingKey();
    KeyTrichotomy(l, m);
    KeyTrichotomy(k, l);
    KeyTrichotomy(k, m);
    if KeyLess(k, l) && KeyLess(l, m) {
      KeyTransitive(k, l, m);
    }
    if KeyLess(k, m) && KeyLess(m, l) {
      KeyTransitive(k, m, l);
    }
    KeyDetermines(a, b);
  }

  lemma TwoDeliveries(s: DeltaMeta, a: DeltaMeta, b: DeltaMeta)
    ensures Replica(s, [a, b]) == Deliver(Deliver(s, a), b)
  {
    assert [a, b][..1] == [a] && [a][..0] == [];
    assert Replica(s, [a]) == Deliver(s, a);
  }
}
