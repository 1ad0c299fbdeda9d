/** What the collectives the core issues return, as functions of every
    rank's contribution: MPI_Comm_split keyed by (colour, global rank)
    (section 6.4.2 of MPI-3.1), MPI_Allreduce with MPI_SUM (section 5.9.6)
    and MPI_Allgather on the resulting node communicator (section 5.7).
    Colours are indexed by global rank. */
module NodeSplit {
  import opened QuoTypes

  /** How many ranks below k have colour c. */
  function Count(cs: seq<nat>, c: nat, k: nat): nat
    requires k <= |cs|
  {
    if k == 0 then 0 else Count(cs, c, k - 1) + (if cs[k - 1] == c then 1 else 0)
  }

  /** The ranks below k with colour c, in ascending order. */
  function Members(cs: seq<nat>, c: nat, k: nat): seq<nat>
    requires k <= |cs|
  {
    if k == 0 then [] else Members(cs, c, k - 1) + (if cs[k - 1] == c then [k - 1] else [])
  }

  /** Rank of r in its new communicator: since the key is the global rank,
      the same-coloured ranks with a smaller global rank come first. */
  function SplitRank(cs: seq<nat>, r: nat): nat
    requires r < |cs|
  {
    Count(cs, cs[r], r)
  }

  /** Size of r's new communicator: the ranks sharing r's colour. */
  function SplitSize(cs: seq<nat>, r: nat): nat
    requires r < |cs|
  {
    Count(cs, cs[r], |cs|)
  }

  /** Global ranks of r's new communicator, ordered by their rank in it. */
  function SplitGroup(cs: seq<nat>, r: nat): seq<nat>
    requires r < |cs|
  {
    Members(cs, cs[r], |cs|)
  }

  /** Each rank's contribution to the node count: 1 when it is rank 0 of
      its node communicator. */
  function LeaderFlags(cs: seq<nat>): seq<int>
  {
    seq(|cs|, r requires 0 <= r < |cs| => if SplitRank(cs, r) == 0 then 1 else 0)
  }

  /** The node count every rank receives from MPI_Allreduce(MPI_SUM) of
      the indicators. */
  function NodeCount(cs: seq<nat>): int
  {
    Sum(LeaderFlags(cs))
  }

  /** MPI_Allgather over a sub-communicator whose members, in rank order,
      are `group`: slot k receives what member k contributed. */
  function Allgather<T>(contrib: seq<T>, group: seq<nat>): (r: seq<T>)
    requires forall k :: 0 <= k < |group| ==> group[k] < |contrib|
    ensures |r| == |group|
    ensures forall k :: 0 <= k < |group| ==> r[k] == contrib[group[k]]
  {
    seq(|group|, k requires 0 <= k < |group| => contrib[group[k]])
  }

  // ---------------------------------------------------------------------
  // Lemmas
  // ---------------------------------------------------------------------

  lemma {:induction false} CountMonotone(cs: seq<nat>, c: nat, j: nat, k: nat)
    requires j <= k <= |cs|
    ensures Count(cs, c, j) <= Count(cs, c, k)
    decreases k - j
  {
    if j < k {
      CountMonotone(cs, c, j, k - 1);
    }
  }

  /** A rank's new rank lies below its new communicator's size. */
  lemma SplitRankBelowSize(cs: seq<nat>, r: nat)
    requires r < |cs|
    ensures SplitRank(cs, r) < SplitSize(cs, r)
  {
    CountMonotone(cs, cs[r], r + 1, |cs|);
  }

  /** No rank below k has colour c exactly when the count is zero. */
  lemma {:induction false} CountZeroIff(cs: seq<nat>, c: nat, k: nat)
    requires k <= |cs|
    ensures Count(cs, c, k) == 0 <==> forall j :: 0 <= j < k ==> cs[j] != c
  {
    if k > 0 {
      CountZeroIff(cs, c, k - 1);
    }
  }

  /** The member list is ascending, lists exactly the ranks of colour c
      below k, and is as long as their count. */
  lemma {:induction false} MembersExact(cs: seq<nat>, c: nat, k: nat)
    requires k <= |cs|
    ensures |Members(cs, c, k)| == Count(cs, c, k)
    ensures forall i, j :: 0 <= i < j < |Members(cs, c, k)| ==> Members(cs, c, k)[i] < Members(cs, c, k)[j]
    ensures forall i :: 0 <= i < |Members(cs, c, k)| ==> Members(cs, c, k)[i] < k && cs[Members(cs, c, k)[i]] == c
    ensures forall j :: 0 <= j < k && cs[j] == c ==> j in Members(cs, c, k)
  {
    if k > 0 {
      MembersExact(cs, c, k - 1);
    }
  }

  lemma {:induction false} MembersPrefix(cs: seq<nat>, c: nat, j: nat, k: nat)
    requires j <= k <= |cs|
    ensures |Members(cs, c, j)| <= |Members(cs, c, k)|
    ensures Members(cs, c, j) == Members(cs, c, k)[..|Members(cs, c, j)|]
    decreases k - j
  {
    if j < k {
      MembersPrefix(cs, c, j, k - 1);
    }
  }

  /** A rank sits in its own group at the slot given by its new rank. */
  lemma MemberAtSplitRank(cs: seq<nat>, r: nat)
    requires r < |cs|
    ensures SplitRank(cs, r) < |SplitGroup(cs, r)|
    ensures SplitGroup(cs, r)[SplitRank(cs, r)] == r
  {
    var c := cs[r];
    MembersExact(cs, c, r);
    MembersPrefix(cs, c, r + 1, |cs|);
    assert Members(cs, c, r + 1) == Members(cs, c, r) + [r];
  }

  /** The group member in slot k has new rank k and shares the colour. */
  lemma SplitRankOfMember(cs: seq<nat>, r: nat, k: nat)
    requires r < |cs| && k < |SplitGroup(cs, r)|
    ensures SplitGroup(cs, r)[k] < |cs|
    ensures cs[SplitGroup(cs, r)[k]] == cs[r]
    ensures SplitRank(cs, SplitGroup(cs, r)[k]) == k
  {
    var g := SplitGroup(cs, r);
    MembersExact(cs, cs[r], |cs|);
    var m := g[k];
    MemberAtSplitRank(cs, m);
    assert SplitGroup(cs, m) == g;
  }

  /** Ranks of one colour see one and the same group. */
  lemma GroupsAgree(cs: seq<nat>, r1: nat, r2: nat)
    requires r1 < |cs| && r2 < |cs| && cs[r1] == cs[r2]
    ensures SplitGroup(cs, r1) == SplitGroup(cs, r2)
    ensures SplitSize(cs, r1) == SplitSize(cs, r2)
  {
  }
}
