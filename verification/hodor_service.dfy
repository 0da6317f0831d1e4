/** `HodorService`: the quorum wait, the leader callback that computes the cluster
    metadata, and the per-term copy-set leader registry.

    The collaborators (node registry, copy-set builder, job-info service) are
    oracles: their answers are inputs of the model.
 */
module HodorService {
  import opened Results
  import opened JavaString
  import opened Sorting
  import opened LeaderSelection
  import opened Intervals

  const ReplicaCount: int := 3
  const LeastNodeCount: int := 3
  const ScatterWidth: int := 2

  /** A replica group: its id, its servers, the job-hash range it owns and its leader (unset until chosen). */
  datatype CopySet = CopySet(id: int, servers: seq<string>, dataInterval: seq<int>, leader: Option<string>)

  /** The metadata the leader publishes. */
  datatype HodorMetadata = HodorMetadata(nodes: seq<string>, interval: seq<int>, copySets: seq<CopySet>)

  /** What the callback reads from outside: the running nodes, `CopySets.buildCopySets`, the
      assignable job count and `queryJobHashIdByOffset`. */
  datatype Collaborators = Collaborators(
    runningNodes: seq<string>,
    buildCopySets: (seq<string>, int, int) -> seq<seq<string>>,
    assignableJobCount: int,
    jobHashIdByOffset: int -> int)

  /** The outcome of one leadership term: the metadata published (or the exception raised) and the registry afterwards. */
  datatype Term = Term(published: Result<HodorMetadata>, registry: set<string>)

  function Max(a: int, b: int): int { if a >= b then a else b }

  /** The first `count` iterations of the distribution loop. Each iteration indexes
      `copySetIps` by `setsNum % |copySetIps|`, the same index every time. */
  function Distribute(copySetIps: seq<seq<string>>, setsNum: nat, count: nat): (r: Result<seq<CopySet>>)
    ensures r.Failure? <==> |copySetIps| == 0 && count > 0
    ensures r.Failure? ==> r.error == DivisionByZero
    ensures r.Success? ==> |r.value| == count
    ensures r.Success? && count > 0 ==> forall i :: 0 <= i < count ==>
      r.value[i] == CopySet(setsNum % |copySetIps|, copySetIps[setsNum % |copySetIps|], [], None)
  {
    if count == 0 then Success([])
    else match Distribute(copySetIps, setsNum, count - 1)
      case Failure(e) => Failure(e)
      case Success(prefix) =>
        if |copySetIps| == 0 then Failure(DivisionByZero)
        else
          var setsIndex := setsNum % |copySetIps|;
          Success(prefix + [CopySet(setsIndex, copySetIps[setsIndex], [], None)])
  }

  /** When the builder returns at least one list per running node, the index `setsNum % |copySetIps|`
      is 0, so every record takes the first list. */
  lemma WideBuilderUsesFirstList(c: Collaborators)
    requires |c.runningNodes| > 0 && |CopySetIps(c)| >= |c.runningNodes|
    ensures Max(|CopySetIps(c)|, |c.runningNodes|) % |CopySetIps(c)| == 0
  {
    var n := |CopySetIps(c)|;
    assert Max(n, |c.runningNodes|) == n;
    assert n % n == 0;
  }

  /** `after` is copy set `j` once its data interval and leader are set. */
  ghost predicate Assigned(before: CopySet, after: CopySet, interval: seq<int>, j: nat)
    requires j < |interval|
  {
    && after.id == before.id
    && Sorted(after.servers) && multiset(after.servers) == multiset(before.servers)
    && (if j + 1 < |interval| then after.dataInterval == [interval[j], interval[j + 1]]
        else after.dataInterval == [interval[j]])
    && after.leader.Some? && after.leader.value in after.servers
  }

  datatype Assignment = Assignment(outcome: Result<seq<CopySet>>, registry: set<string>)

  /** One iteration of that loop: set copy set `i`'s data interval, then elect its leader. */
  function AssignOne(cs: CopySet, interval: seq<int>, i: nat, registry: set<string>): (r: Result<(CopySet, set<string>)>)
    requires i < |interval|
    ensures r.Failure? <==> |cs.servers| == 0
    ensures r.Failure? ==> r.error == IndexOutOfBounds
    ensures r.Success? ==> Assigned(cs, r.value.0, interval, i) && registry <= r.value.1
    ensures r.Success? && Fresh(cs.servers, registry) != {} ==>
      IsLeast(r.value.0.leader.value, Fresh(cs.servers, registry))
      && r.value.1 == registry + {r.value.0.leader.value}
    ensures r.Success? && Fresh(cs.servers, registry) == {} ==>
      r.value.0.leader == Some(r.value.0.servers[0]) && r.value.1 == registry
  {
    match SelectLeader(cs.servers, registry)
    case Failure(e) => Failure(e)
    case Success(sel) =>
      assert sel.leader in sel.servers by {
        assert sel.leader in multiset(cs.servers);
      }
      Success((CopySet(cs.id, sel.servers, DataInterval(interval, i), Some(sel.leader)), sel.registry))
  }

  /** Iterations `i ..` of the loop that sets each copy set's data interval and leader. */
  function AssignFrom(copySets: seq<CopySet>, interval: seq<int>, i: nat, registry: set<string>): (a: Assignment)
    requires |copySets| == |interval| && i <= |interval|
    ensures registry <= a.registry
    ensures a.outcome.Failure? <==> exists j :: i <= j < |copySets| && |copySets[j].servers| == 0
    ensures a.outcome.Failure? ==> a.outcome.error == IndexOutOfBounds
    ensures a.outcome.Success? ==> |a.outcome.value| == |copySets|
    ensures a.outcome.Success? ==> forall j :: 0 <= j < i ==> a.outcome.value[j] == copySets[j]
    ensures a.outcome.Success? ==> forall j :: i <= j < |copySets| ==>
      Assigned(copySets[j], a.outcome.value[j], interval, j)
    decreases |interval| - i
  {
    if i == |interval| then Assignment(Success(copySets), registry)
    else
      match AssignOne(copySets[i], interval, i, registry)
      case Failure(e) => Assignment(Failure(e), registry)
      case Success(step) =>
        var a := AssignFrom(copySets[i := step.0], interval, i + 1, step.1);
        AssignStep(copySets, interval, i, registry, step.0, step.1, a);
        a
  }

  /** The contract of `AssignFrom` at `i`, from the contract of its step and of its recursive call. */
  lemma AssignStep(copySets: seq<CopySet>, interval: seq<int>, i: nat, registry: set<string>,
                   done: CopySet, registry': set<string>, a: Assignment)
    requires |copySets| == |interval| && i < |interval|
    requires |copySets[i].servers| > 0 && Assigned(copySets[i], done, interval, i) && registry <= registry'
    requires var next := copySets[i := done];
      && registry' <= a.registry
      && (a.outcome.Failure? <==> exists j :: i + 1 <= j < |next| && |next[j].servers| == 0)
      && (a.outcome.Failure? ==> a.outcome.error == IndexOutOfBounds)
      && (a.outcome.Success? ==> |a.outcome.value| == |next|)
      && (a.outcome.Success? ==> forall j :: 0 <= j < i + 1 ==> a.outcome.value[j] == next[j])
      && (a.outcome.Success? ==> forall j :: i + 1 <= j < |next| ==> Assigned(next[j], a.outcome.value[j], interval, j))
    ensures registry <= a.registry
    ensures a.outcome.Failure? <==> exists j :: i <= j < |copySets| && |copySets[j].servers| == 0
    ensures a.outcome.Failure? ==> a.outcome.error == IndexOutOfBounds
    ensures a.outcome.Success? ==> |a.outcome.value| == |copySets|
    ensures a.outcome.Success? ==> forall j :: 0 <= j < i ==> a.outcome.value[j] == copySets[j]
    ensures a.outcome.Success? ==> forall j :: i <= j < |copySets| ==>
      Assigned(copySets[j], a.outcome.value[j], interval, j)
  {
    var next := copySets[i := done];
    assert forall j :: i < j < |copySets| ==> next[j] == copySets[j];
  }

  /** The copy-set server lists the builder returns for the running nodes. */
  function CopySetIps(c: Collaborators): seq<seq<string>> {
    c.buildCopySets(c.runningNodes, ReplicaCount, ScatterWidth)
  }

  /** What a successful term publishes, stated against the collaborators' answers. */
  ghost predicate Published(md: HodorMetadata, c: Collaborators)
    requires |CopySetIps(c)| > 0
  {
    var ips := CopySetIps(c);
    var setsNum := Max(|ips|, |c.runningNodes|);
    var setsIndex := setsNum % |ips|;
    && md.nodes == c.runningNodes
    && |md.interval| == setsNum && |md.copySets| == setsNum
    && setsNum >= |c.runningNodes| && setsNum >= |ips| && (setsNum == |c.runningNodes| || setsNum == |ips|)
    && (forall i :: 0 <= i < setsNum ==>
          md.interval[i] == c.jobHashIdByOffset(Offset(c.assignableJobCount, setsNum) * i))
    && (forall i :: 0 <= i < setsNum ==>
          Assigned(CopySet(setsIndex, ips[setsIndex], [], None), md.copySets[i], md.interval, i))
  }

  /** The leader callback: fetch the running nodes, build and distribute the copy sets,
      plan the intervals, elect each copy set's leader, and publish the metadata. */
  function OnLeader(c: Collaborators, registry: set<string>): (t: Term)
    ensures |c.runningNodes| == 0 ==> t == Term(Failure(EmptyCluster), registry)
    ensures |c.runningNodes| > 0 && |CopySetIps(c)| == 0 ==> t == Term(Failure(DivisionByZero), registry)
    ensures |c.runningNodes| > 0 && |CopySetIps(c)| > 0 ==>
      var ips := CopySetIps(c);
      var setsIndex := Max(|ips|, |c.runningNodes|) % |ips|;
      && (t.published.Failure? <==> |ips[setsIndex]| == 0)
      && (t.published.Failure? ==> t.published.error == IndexOutOfBounds)
      && (t.published.Success? ==> Published(t.published.value, c))
    ensures registry <= t.registry
  {
    var nodes := c.runningNodes;
    if |nodes| == 0 then Term(Failure(EmptyCluster), registry)
    else
      var copySetIps := c.buildCopySets(nodes, ReplicaCount, ScatterWidth);
      var setsNum := Max(|copySetIps|, |nodes|);
      match Distribute(copySetIps, setsNum, setsNum)
      case Failure(e) => Term(Failure(e), registry)
      case Success(copySets) =>
        var interval := PlanIntervals(c.assignableJobCount, setsNum, c.jobHashIdByOffset);
        var a := AssignFrom(copySets, interval, 0, registry);
        match a.outcome
        case Failure(e) => Term(Failure(e), a.registry)
        case Success(finished) => Term(Success(HodorMetadata(nodes, interval, finished)), a.registry)
  }

  /** The quorum loop: poll the running-node count until it reaches `LeastNodeCount`.
      `observed` holds the successive answers; `None` means the loop is still
      waiting after the last of them. */
  method AwaitQuorum(observed: seq<int>) returns (polls: Option<nat>)
    ensures polls.Some? ==> polls.value < |observed| && observed[polls.value] >= LeastNodeCount
    ensures polls.Some? ==> forall j :: 0 <= j < polls.value ==> observed[j] < LeastNodeCount
    ensures polls.None? ==> forall j :: 0 <= j < |observed| ==> observed[j] < LeastNodeCount
  {
    var k := 0;
    while k < |observed| && observed[k] < LeastNodeCount
      invariant 0 <= k <= |observed|
      invariant forall j :: 0 <= j < k ==> observed[j] < LeastNodeCount
    {
      // sleep 1000 ms, then ask the registry again
      k := k + 1;
    }
    polls := if k < |observed| then Some(k) else None;
  }

  /** `start()`: wait for quorum, then ask for leadership; the callback runs only if this node is elected. */
  method Start(observed: seq<int>, elected: bool, c: Collaborators, registry: set<string>)
    returns (electionRequested: bool, term: Option<Term>)
    ensures electionRequested <==> exists k :: 0 <= k < |observed| && observed[k] >= LeastNodeCount
    ensures term.Some? <==> electionRequested && elected
    ensures term.Some? ==> term.value == OnLeader(c, registry)
  {
    var polls := AwaitQuorum(observed);
    electionRequested := polls.Some?;
    term := if electionRequested && elected then Some(OnLeader(c, registry)) else None;
  }

  /** `stop()`: the registry is emptied. */
  function Stop(registry: set<string>): (r: set<string>)
    ensures r == {}
  {
    {}
  }

  /** After `stop()`, leadership bias is gone: the next election picks the smallest
      server and the registry holds exactly that server. */
  lemma StopResetsSelection(servers: seq<string>, registry: set<string>)
    requires |servers| > 0
    ensures var r := SelectLeader(servers, Stop(registry));
      r.Success? && r.value.leader == Sort(servers)[0] && r.value.registry == {Sort(servers)[0]}
  {
    var sorted := Sort(servers);
    assert |sorted| == |multiset(sorted)| == |multiset(servers)| == |servers|;
    SortedHeadIsLeastServer(servers, sorted);
    var candidates := Fresh(servers, Stop(registry));
    assert candidates == set s | s in servers;
    assert servers[0] in candidates;
    LeastIsUnique(SelectLeader(servers, Stop(registry)).value.leader, sorted[0], candidates);
  }

  /** The servers of the sorted list `S` at positions below `i`: the registry after `i` elections
      on copy sets that all share `S`, starting from an empty registry. */
  function Led(S: seq<string>, i: nat): set<string> {
    set k | 0 <= k < i && k < |S| :: S[k]
  }

  /** One more election on an unexhausted list adds the next sorted server. */
  lemma LedGrows(S: seq<string>, i: nat)
    requires i < |S|
    ensures Led(S, i + 1) == Led(S, i) + {S[i]}
  {
  }

  /** Once every server has led, further elections add nobody. */
  lemma LedSaturates(S: seq<string>, i: nat)
    requires |S| <= i
    ensures Led(S, i + 1) == Led(S, i)
  {
  }

  /** The leader of the `i`-th copy set when all copy sets share the sorted list `S`. */
  function RotatedLeader(S: seq<string>, i: nat): string
    requires |S| > 0
  {
    if i < |S| then S[i] else S[0]
  }

  /** Every server of the list sits at some position of `S`. */
  lemma PositionsOf(servers: seq<string>, S: seq<string>)
    requires multiset(servers) == multiset(S)
    ensures forall y :: y in servers ==> exists m :: 0 <= m < |S| && S[m] == y
  {
    forall y | y in servers ensures exists m :: 0 <= m < |S| && S[m] == y {
      assert y in multiset(S);
    }
  }

  /** One election on a copy set whose servers sort to `S`, after `i` earlier elections on the same servers. */
  lemma RotationStep(servers: seq<string>, S: seq<string>, i: nat)
    requires Sorted(S) && NoRepeats(S) && |S| > 0 && multiset(servers) == multiset(S)
    ensures SelectLeader(servers, Led(S, i)).Success?
    ensures SelectLeader(servers, Led(S, i)).value.leader == RotatedLeader(S, i)
    ensures SelectLeader(servers, Led(S, i)).value.registry == Led(S, i + 1)
  {
    assert |servers| == |multiset(servers)| == |S|;
    PositionsOf(servers, S);
    if i < |S| {
      RotationStepFresh(servers, S, i);
    } else {
      RotationStepExhausted(servers, S, i);
    }
  }

  /** While a sorted server is still free, the election picks it and the registry gains exactly it. */
  lemma RotationStepFresh(servers: seq<string>, S: seq<string>, i: nat)
    requires Sorted(S) && NoRepeats(S) && i < |S| && multiset(servers) == multiset(S)
    requires forall y :: y in servers ==> exists m :: 0 <= m < |S| && S[m] == y
    ensures SelectLeader(servers, Led(S, i)).Success?
    ensures SelectLeader(servers, Led(S, i)).value.leader == S[i]
    ensures SelectLeader(servers, Led(S, i)).value.registry == Led(S, i + 1)
  {
    var registry := Led(S, i);
    LedGrows(S, i);
    NextUnledIsLeast(servers, S, i);
    var r := SelectLeader(servers, registry);
    LeastIsUnique(r.value.leader, S[i], Fresh(servers, registry));
  }

  /** After `i` elections, `S[i]` is the least server not yet leading. */
  lemma NextUnledIsLeast(servers: seq<string>, S: seq<string>, i: nat)
    requires Sorted(S) && NoRepeats(S) && i < |S| && multiset(servers) == multiset(S)
    requires forall y :: y in servers ==> exists m :: 0 <= m < |S| && S[m] == y
    ensures IsLeast(S[i], Fresh(servers, Led(S, i)))
  {
    var registry := Led(S, i);
    assert S[i] !in registry by {
      forall k | 0 <= k < i ensures S[k] != S[i] { NoRepeatsDistinct(S, k, i); }
    }
    assert S[i] in multiset(servers);
    var candidates := Fresh(servers, registry);
    assert S[i] in candidates;
    assert forall k :: 0 <= k < i ==> S[k] in registry;
    forall y | y in candidates ensures LessEq(S[i], y) {
      var m :| 0 <= m < |S| && S[m] == y;
      assert i <= m;
      if m == i { LessEqReflexive(y); }
    }
  }

  /** Once every server leads, the smallest leads again and the registry is unchanged. */
  lemma RotationStepExhausted(servers: seq<string>, S: seq<string>, i: nat)
    requires Sorted(S) && |S| > 0 && |S| <= i && multiset(servers) == multiset(S)
    requires forall y :: y in servers ==> exists m :: 0 <= m < |S| && S[m] == y
    ensures SelectLeader(servers, Led(S, i)).Success?
    ensures SelectLeader(servers, Led(S, i)).value.leader == S[0]
    ensures SelectLeader(servers, Led(S, i)).value.registry == Led(S, i + 1)
  {
    var registry := Led(S, i);
    LedSaturates(S, i);
    AllLeadAfterExhaustion(servers, S, i);
    var r := SelectLeader(servers, registry);
    LeastIsUnique(r.value.leader, S[0], set s | s in servers);
  }

  /** Once `|S|` elections have run, every server leads and `S[0]` is the least of them. */
  lemma AllLeadAfterExhaustion(servers: seq<string>, S: seq<string>, i: nat)
    requires Sorted(S) && |S| > 0 && |S| <= i && multiset(servers) == multiset(S)
    requires forall y :: y in servers ==> exists m :: 0 <= m < |S| && S[m] == y
    ensures Fresh(servers, Led(S, i)) == {}
    ensures IsLeast(S[0], set s | s in servers)
  {
    var registry := Led(S, i);
    forall y | y in servers ensures y in registry {
      var m :| 0 <= m < |S| && S[m] == y;
    }
    assert S[0] in multiset(servers);
    forall y | y in servers ensures LessEq(S[0], y) {
      assert y in multiset(S);
      SortedHeadIsLeast(S, y);
    }
  }

  /** One iteration of the leader loop on a copy set whose servers sort to `S`, after `i` earlier elections. */
  lemma AssignOneRotates(cs: CopySet, interval: seq<int>, i: nat, S: seq<string>)
    requires i < |interval|
    requires Sorted(S) && NoRepeats(S) && |S| > 0 && multiset(cs.servers) == multiset(S)
    ensures AssignOne(cs, interval, i, Led(S, i)).Success?
    ensures AssignOne(cs, interval, i, Led(S, i)).value.0.leader == Some(RotatedLeader(S, i))
    ensures AssignOne(cs, interval, i, Led(S, i)).value.1 == Led(S, i + 1)
  {
    RotationStep(cs.servers, S, i);
  }

  /** Elections from copy set `i` on, when every remaining copy set shares the servers `S`. */
  lemma {:induction false} AssignFromRotates(copySets: seq<CopySet>, interval: seq<int>, i: nat, S: seq<string>)
    requires |copySets| == |interval| && i <= |interval|
    requires Sorted(S) && NoRepeats(S) && |S| > 0
    requires forall j :: i <= j < |copySets| ==> multiset(copySets[j].servers) == multiset(S)
    ensures AssignFrom(copySets, interval, i, Led(S, i)).outcome.Success?
    ensures forall j :: i <= j < |copySets| ==>
      AssignFrom(copySets, interval, i, Led(S, i)).outcome.value[j].leader == Some(RotatedLeader(S, j))
    ensures AssignFrom(copySets, interval, i, Led(S, i)).registry == Led(S, |copySets|)
    decreases |interval| - i
  {
    if i < |interval| {
      AssignOneRotates(copySets[i], interval, i, S);
      var done := AssignOne(copySets[i], interval, i, Led(S, i)).value.0;
      var next := copySets[i := done];
      assert forall j :: i + 1 <= j < |next| ==> next[j] == copySets[j];
      AssignFromRotates(next, interval, i + 1, S);
      var rest := AssignFrom(next, interval, i + 1, Led(S, i + 1));
      AssignFromRotatesStep(copySets, interval, i, S, done, rest);
    }
  }

  /** The inductive step of `AssignFromRotates`: iteration `i`, which yields `done`, followed by the rest
      of the loop, which yields `rest`. */
  lemma AssignFromRotatesStep(copySets: seq<CopySet>, interval: seq<int>, i: nat, S: seq<string>,
                              done: CopySet, rest: Assignment)
    requires |copySets| == |interval| && i < |interval| && |S| > 0
    requires AssignOne(copySets[i], interval, i, Led(S, i)).Success?
    requires AssignOne(copySets[i], interval, i, Led(S, i)).value.0 == done
    requires AssignOne(copySets[i], interval, i, Led(S, i)).value.1 == Led(S, i + 1)
    requires done.leader == Some(RotatedLeader(S, i))
    requires rest == AssignFrom(copySets[i := done], interval, i + 1, Led(S, i + 1))
    requires rest.outcome.Success?
    requires forall j :: i + 1 <= j < |copySets| ==> rest.outcome.value[j].leader == Some(RotatedLeader(S, j))
    requires rest.registry == Led(S, |copySets|)
    ensures AssignFrom(copySets, interval, i, Led(S, i)).outcome.Success?
    ensures forall j :: i <= j < |copySets| ==>
      AssignFrom(copySets, interval, i, Led(S, i)).outcome.value[j].leader == Some(RotatedLeader(S, j))
    ensures AssignFrom(copySets, interval, i, Led(S, i)).registry == Led(S, |copySets|)
  {
    AssignFromUnfolds(copySets, interval, i, Led(S, i));
    assert rest.outcome.value[i] == done;
  }

  /** A successful iteration hands the updated copy sets and registry to the rest of the loop. */
  lemma AssignFromUnfolds(copySets: seq<CopySet>, interval: seq<int>, i: nat, registry: set<string>)
    requires |copySets| == |interval| && i < |interval|
    requires AssignOne(copySets[i], interval, i, registry).Success?
    ensures var one := AssignOne(copySets[i], interval, i, registry).value;
      AssignFrom(copySets, interval, i, registry) == AssignFrom(copySets[i := one.0], interval, i + 1, one.1)
  {
  }

  /** In a fresh term (empty registry, as after `stop()`), every copy set shares the one server
      list the index `setsNum % |copySetIps|` selects, so leadership walks through that list in ascending order and,
      once every server leads, stays with the smallest. */
  lemma LeadersRotateInFreshTerm(c: Collaborators, registry: set<string>)
    requires |c.runningNodes| > 0 && |CopySetIps(c)| > 0
    requires var ips := CopySetIps(c);
      var servers := ips[Max(|ips|, |c.runningNodes|) % |ips|];
      |servers| > 0 && NoRepeats(servers)
    ensures var ips := CopySetIps(c);
      var setsNum := Max(|ips|, |c.runningNodes|);
      var S := Sort(ips[setsNum % |ips|]);
      var t := OnLeader(c, Stop(registry));
      && t.published.Success?
      && (forall i :: 0 <= i < setsNum ==> t.published.value.copySets[i].leader == Some(RotatedLeader(S, i)))
      && t.registry == Led(S, setsNum)
  {
    var ips := CopySetIps(c);
    var setsNum := Max(|ips|, |c.runningNodes|);
    var servers := ips[setsNum % |ips|];
    var S := Sort(servers);
    assert NoRepeats(S) by {
      forall x | x in S ensures multiset(S)[x] == 1 {
        assert x in multiset(servers);
      }
    }
    var copySets := Distribute(ips, setsNum, setsNum).value;
    var interval := PlanIntervals(c.assignableJobCount, setsNum, c.jobHashIdByOffset);
    assert Led(S, 0) == {};
    assert Stop(registry) == {};
    AssignFromRotates(copySets, interval, 0, S);
  }
}
