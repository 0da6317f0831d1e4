/** Copy-set leader election: `selectLeaderCopySet` and `isCopySetLeader`.

    The servers of a copy set are sorted in place, and the first one that is
    not yet leading another copy set in this term becomes the leader and joins
    the term's leader registry. When every server already leads, the smallest
    server leads again and the registry stays as it was.
 */
module LeaderSelection {
  import opened Results
  import opened JavaString
  import opened Sorting

  /** What one call leaves behind: the sorted server list, the leader, and the registry after the call. */
  datatype Selection = Selection(servers: seq<string>, leader: string, registry: set<string>)

  /** Servers of the list that do not lead a copy set yet. */
  function Fresh(servers: seq<string>, registry: set<string>): set<string> {
    set s | s in servers && s !in registry
  }

  /** `x` is in `candidates` and no candidate sorts before it. */
  ghost predicate IsLeast(x: string, candidates: set<string>) {
    x in candidates && forall y :: y in candidates ==> LessEq(x, y)
  }

  /** The scan over the sorted servers: the index of the first one `isCopySetLeader` rejects, if any. */
  function FirstFresh(sorted: seq<string>, registry: set<string>): (r: Option<nat>)
    ensures r.Some? ==> r.value < |sorted| && sorted[r.value] !in registry
    ensures r.Some? ==> forall j :: 0 <= j < r.value ==> sorted[j] in registry
    ensures r.None? ==> forall j :: 0 <= j < |sorted| ==> sorted[j] in registry
  {
    if |sorted| == 0 then None
    else if sorted[0] !in registry then Some(0)
    else match FirstFresh(sorted[1..], registry)
      case None => None
      case Some(k) => Some(k + 1)
  }

  /** `selectLeaderCopySet`, with the registry threaded through explicitly. */
  function SelectLeader(servers: seq<string>, registry: set<string>): (r: Result<Selection>)
    ensures r.Failure? <==> |servers| == 0
    ensures r.Failure? ==> r.error == IndexOutOfBounds
    ensures r.Success? ==> Sorted(r.value.servers) && multiset(r.value.servers) == multiset(servers)
    ensures r.Success? ==> r.value.leader in servers
    ensures r.Success? && Fresh(servers, registry) != {} ==>
      IsLeast(r.value.leader, Fresh(servers, registry)) && r.value.registry == registry + {r.value.leader}
    ensures r.Success? && Fresh(servers, registry) == {} ==>
      IsLeast(r.value.leader, set s | s in servers) && r.value.registry == registry
    ensures r.Success? && Fresh(servers, registry) == {} ==> r.value.leader == r.value.servers[0]
    ensures r.Success? ==> (r.value.leader !in registry <==> Fresh(servers, registry) != {})
  {
    var sorted := Sort(servers);
    match FirstFresh(sorted, registry)
    case Some(k) =>
      FreshChoiceIsLeast(servers, sorted, registry, k);
      Success(Selection(sorted, sorted[k], registry + {sorted[k]}))
    case None =>
      if |sorted| == 0 then Failure(IndexOutOfBounds)
      else
        DefaultChoiceIsLeast(servers, sorted, registry);
        Success(Selection(sorted, sorted[0], registry))
  }

  lemma FreshChoiceIsLeast(servers: seq<string>, sorted: seq<string>, registry: set<string>, k: nat)
    requires Sorted(sorted) && multiset(sorted) == multiset(servers)
    requires k < |sorted| && sorted[k] !in registry
    requires forall j :: 0 <= j < k ==> sorted[j] in registry
    ensures sorted[k] in servers
    ensures IsLeast(sorted[k], Fresh(servers, registry))
  {
    assert sorted[k] in multiset(servers);
    forall y | y in Fresh(servers, registry) ensures LessEq(sorted[k], y) {
      assert y in multiset(sorted);
      var j :| 0 <= j < |sorted| && sorted[j] == y;
      if j == k { LessEqReflexive(y); }
    }
  }

  lemma DefaultChoiceIsLeast(servers: seq<string>, sorted: seq<string>, registry: set<string>)
    requires Sorted(sorted) && multiset(sorted) == multiset(servers) && |sorted| > 0
    requires forall j :: 0 <= j < |sorted| ==> sorted[j] in registry
    ensures sorted[0] in servers
    ensures Fresh(servers, registry) == {}
    ensures IsLeast(sorted[0], set s | s in servers)
  {
    SortedHeadIsLeastServer(servers, sorted);
    forall y | y in servers ensures y in registry {
      assert y in multiset(sorted);
    }
  }

  /** The head of the sorted servers is the least server of the list. */
  lemma SortedHeadIsLeastServer(servers: seq<string>, sorted: seq<string>)
    requires Sorted(sorted) && multiset(sorted) == multiset(servers) && |sorted| > 0
    ensures sorted[0] in servers
    ensures IsLeast(sorted[0], set s | s in servers)
  {
    assert sorted[0] in multiset(servers);
    forall y | y in servers ensures LessEq(sorted[0], y) {
      assert y in multiset(sorted);
      SortedHeadIsLeast(sorted, y);
    }
  }

  /** A set has at most one least element, so the contract of `SelectLeader` pins its leader down. */
  lemma LeastIsUnique(x: string, y: string, candidates: set<string>)
    requires IsLeast(x, candidates) && IsLeast(y, candidates)
    ensures x == y
  {
    LessEqAntisymmetric(x, y);
  }
}
