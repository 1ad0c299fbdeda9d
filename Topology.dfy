/** The whole job: every global rank's network number and pid, and what
    the colouring, the split and the node-local exchanges give each rank. */
module Topology {
  import opened QuoTypes
  import opened Coloring
  import opened NodeSplit

  /** One entry of the pid map, in its transmitted field order: the pid
      (long), then the node-local rank (int). */
  datatype PidSmprank = PidSmprank(pid: int, smprank: int)

  /** The job: the network number and the pid of every global rank. */
  datatype World = World(netnums: seq<nat>, pids: seq<int>)

  predicate WellFormed(w: World)
  {
    |w.pids| == |w.netnums|
  }

  /** smprank: the rank's rank on its node. */
  function NodeRank(w: World, r: nat): nat
    requires r < |w.netnums|
  {
    SplitRank(Colors(w.netnums), r)
  }

  /** nsmpranks: how many ranks share the rank's node. */
  function NodeSize(w: World, r: nat): nat
    requires r < |w.netnums|
  {
    SplitSize(Colors(w.netnums), r)
  }

  /** nnodes: the all-reduced sum of the "I am node rank 0" indicators. */
  function NumNodes(w: World): int
  {
    NodeCount(Colors(w.netnums))
  }

  /** node_ranks: the global ranks gathered over the node communicator. */
  function NodeRoster(w: World, r: nat): (roster: seq<nat>)
    requires r < |w.netnums|
    ensures |roster| == NodeSize(w, r)
    ensures forall k :: 0 <= k < |roster| ==> roster[k] < |w.netnums|
  {
    var cs := Colors(w.netnums);
    MembersExact(cs, cs[r], |cs|);
    Allgather(seq(|cs|, m requires 0 <= m < |cs| => m), SplitGroup(cs, r))
  }

  /** pid_smprank_map: each node member's (pid, smprank) gathered over the
      node communicator. */
  function NodePidMap(w: World, r: nat): (entries: seq<PidSmprank>)
    requires WellFormed(w) && r < |w.netnums|
    ensures |entries| == NodeSize(w, r)
  {
    var cs := Colors(w.netnums);
    MembersExact(cs, cs[r], |cs|);
    Allgather(seq(|cs|, m requires 0 <= m < |cs| => PidSmprank(w.pids[m], SplitRank(cs, m))),
              SplitGroup(cs, r))
  }

  /** quo_mpi_smprank2pid's answer: the pid of the first entry whose
      smprank matches, or None. */
  function PidOf(entries: seq<PidSmprank>, smprank: int): Option<int>
  {
    if entries == [] then None
    else if entries[0].smprank == smprank then Some(entries[0].pid)
    else PidOf(entries[1..], smprank)
  }

  // ---------------------------------------------------------------------
  // Search lemmas
  // ---------------------------------------------------------------------

  lemma {:induction false} PidOfFirstMatch(entries: seq<PidSmprank>, smprank: int, i: nat)
    requires i < |entries| && entries[i].smprank == smprank
    requires forall j :: 0 <= j < i ==> entries[j].smprank != smprank
    ensures PidOf(entries, smprank) == Some(entries[i].pid)
  {
    if i > 0 {
      PidOfFirstMatch(entries[1..], smprank, i - 1);
    }
  }

  lemma {:induction false} PidOfNoMatch(entries: seq<PidSmprank>, smprank: int)
    requires forall j :: 0 <= j < |entries| ==> entries[j].smprank != smprank
    ensures PidOf(entries, smprank) == None
  {
    if entries != [] {
      PidOfNoMatch(entries[1..], smprank);
    }
  }

  // ---------------------------------------------------------------------
  // What the job-wide protocol guarantees
  // ---------------------------------------------------------------------

  /** 0 <= smprank < nsmpranks. */
  lemma NodeRankBelowNodeSize(w: World, r: nat)
    requires r < |w.netnums|
    ensures NodeRank(w, r) < NodeSize(w, r)
  {
    SplitRankBelowSize(Colors(w.netnums), r);
  }

  /** nsmpranks counts exactly the ranks sharing r's network number. */
  lemma NodeSizeCountsSameNumber(w: World, r: nat)
    requires r < |w.netnums|
    ensures NodeSize(w, r) == |set m | 0 <= m < |w.netnums| && w.netnums[m] == w.netnums[r]|
  {
    var cs := Colors(w.netnums);
    var g := SplitGroup(cs, r);
    MembersExact(cs, cs[r], |cs|);
    var same := set m | 0 <= m < |w.netnums| && w.netnums[m] == w.netnums[r];
    forall m | 0 <= m < |cs|
      ensures m in same <==> m in g
    {
      SameColorIffSameNumber(w.netnums, m, r);
    }
    assert same == Values(g);
    IncreasingValuesCount(g);
  }

  /** The roster is as long as the node, ascending, holds exactly the ranks
      sharing r's network number, and holds r at slot smprank. */
  lemma RosterShape(w: World, r: nat)
    requires r < |w.netnums|
    ensures |NodeRoster(w, r)| == NodeSize(w, r)
    ensures forall i, j :: 0 <= i < j < |NodeRoster(w, r)| ==> NodeRoster(w, r)[i] < NodeRoster(w, r)[j]
    ensures forall m: nat :: m in NodeRoster(w, r) <==> m < |w.netnums| && w.netnums[m] == w.netnums[r]
    ensures NodeRank(w, r) < |NodeRoster(w, r)| && NodeRoster(w, r)[NodeRank(w, r)] == r
  {
    var cs := Colors(w.netnums);
    var g := SplitGroup(cs, r);
    MembersExact(cs, cs[r], |cs|);
    assert NodeRoster(w, r) == g;
    forall m: nat
      ensures m in g <==> m < |w.netnums| && w.netnums[m] == w.netnums[r]
    {
      if m < |w.netnums| {
        SameColorIffSameNumber(w.netnums, m, r);
      }
    }
    MemberAtSplitRank(cs, r);
  }

  /** Slot k of the pid map holds the pid of roster member k and smprank k. */
  lemma PidMapShape(w: World, r: nat)
    requires WellFormed(w) && r < |w.netnums|
    ensures |NodePidMap(w, r)| == NodeSize(w, r)
    ensures forall k :: 0 <= k < |NodePidMap(w, r)| ==>
              NodePidMap(w, r)[k] == PidSmprank(w.pids[NodeRoster(w, r)[k]], k)
  {
    var cs := Colors(w.netnums);
    MembersExact(cs, cs[r], |cs|);
    forall k | 0 <= k < |NodePidMap(w, r)|
      ensures NodePidMap(w, r)[k] == PidSmprank(w.pids[NodeRoster(w, r)[k]], k)
    {
      SplitRankOfMember(cs, r, k);
    }
  }

  /** lookupPid: every node-local rank in [0, nsmpranks) finds the pid of
      the roster member with that rank; any other rank is not found. */
  lemma PidLookupOnNode(w: World, r: nat, k: int)
    requires WellFormed(w) && r < |w.netnums|
    ensures 0 <= k < NodeSize(w, r) ==>
              NodeRoster(w, r)[k] < |w.pids| && PidOf(NodePidMap(w, r), k) == Some(w.pids[NodeRoster(w, r)[k]])
    ensures !(0 <= k < NodeSize(w, r)) ==> PidOf(NodePidMap(w, r), k) == None
  {
    PidMapShape(w, r);
    RosterShape(w, r);
    var pm := NodePidMap(w, r);
    if 0 <= k < NodeSize(w, r) {
      PidOfFirstMatch(pm, k, k);
    } else {
      PidOfNoMatch(pm, k);
    }
  }

  /** nnodes equals the number of distinct network numbers. */
  lemma NumNodesIsDistinctCount(w: World)
    ensures NumNodes(w) == NumDistinct(w.netnums)
  {
    var nums := w.netnums;
    var flags := LeaderFlags(Colors(nums));
    LeadersCountValues(nums, |nums|);
    assert flags[..|nums|] == flags;
    assert nums[..|nums|] == nums;
  }

  lemma {:induction false} LeadersCountValues(nums: seq<nat>, k: nat)
    requires k <= |nums|
    ensures Sum(LeaderFlags(Colors(nums))[..k]) == |Values(nums[..k])|
  {
    if k > 0 {
      var cs := Colors(nums);
      var flags := LeaderFlags(cs);
      var j := k - 1;
      LeadersCountValues(nums, j);
      SumSnoc(flags, j);
      assert nums[..k] == nums[..j] + [nums[j]];
      ValuesSnoc(nums[..j], nums[j]);
      CountZeroIff(cs, cs[j], j);
      forall i | 0 <= i < j
        ensures cs[i] == cs[j] <==> nums[i] == nums[j]
      {
        SameColorIffSameNumber(nums, i, j);
      }
      if flags[j] == 1 {
        assert nums[j] !in Values(nums[..j]);
      } else {
        var i :| 0 <= i < j && cs[i] == cs[j];
        assert nums[..j][i] == nums[j];
      }
    }
  }

  /** Ranks sharing a network number compute the same colour, roster and
      pid map. */
  lemma NodeViewsAgree(w: World, r1: nat, r2: nat)
    requires WellFormed(w) && r1 < |w.netnums| && r2 < |w.netnums|
    requires w.netnums[r1] == w.netnums[r2]
    ensures Colors(w.netnums)[r1] == Colors(w.netnums)[r2]
    ensures NodeSize(w, r1) == NodeSize(w, r2)
    ensures NodeRoster(w, r1) == NodeRoster(w, r2)
    ensures NodePidMap(w, r1) == NodePidMap(w, r2)
  {
    GroupsAgree(Colors(w.netnums), r1, r2);
  }

  /** The example of a job of four ranks on two nodes. */
  lemma TwoNodesOfTwo(w: World)
    requires w.netnums == [7, 7, 9, 9]
    ensures Colors(w.netnums) == [0, 0, 1, 1]
    ensures NumNodes(w) == 2
  {
    assert Below(w.netnums, 7) == {};
    assert Below(w.netnums, 9) == {7};
    NumNodesIsDistinctCount(w);
    assert Values(w.netnums) == {7, 9};
  }
}
