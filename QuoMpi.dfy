/** quo_mpi_t: one rank's view of node topology, set up from a handful of
    collectives and torn down by destruct. Each MPI call is replaced by its
    result, a function of the World; which call, if any, fails is a Fault. */
module QuoMpi {
  import opened QuoTypes
  import opened Coloring
  import opened NodeSplit
  import opened Topology

  /** The collaborator call that reports failure, if any (at most one does). */
  datatype Fault =
    | NoFault
    | InitializedQueryFails      // MPI_Initialized
    | MpiNotInitialized          // MPI_Initialized reports "not initialized"
    | BasicSetupFails            // MPI_Comm_dup, MPI_Comm_size/rank, MPI_Get_processor_name
    | NetnumsOom                 // calloc of the gathered numbers
    | ResolveFails               // get_netnum (host name lookup)
    | NetnumGatherFails          // MPI_Allgather of the network numbers
    | SplitFails(mpiCode: Pos)   // MPI_Comm_split, with its error code
    | NodeSizeFails              // MPI_Comm_size on the node communicator
    | NodeRankFails              // MPI_Comm_rank on the node communicator
    | NodeCountFails             // MPI_Allreduce of the leader indicators
    | PidMapOom                  // calloc of pid_smprank_map
    | PidTypeCreateFails         // MPI_Type_create_struct
    | PidTypeCommitFails         // MPI_Type_commit
    | PidGatherFails             // MPI_Allgather of the pid records
    | PidTypeFreeFails           // MPI_Type_free
    | RosterOom                  // calloc of node_ranks
    | RosterGatherFails          // MPI_Allgather of the global ranks

  // What each step returns, given the failing call: its own error code
  // when the failing call is one of its own, success otherwise.

  function InitSetupRc(f: Fault): Rc
  {
    if f.BasicSetupFails? then ErrMpi else Success
  }

  /** smprank_setup hands the split's MPI code back unconverted. */
  function SmprankSetupRc(f: Fault): Rc
  {
    match f
    case NetnumsOom => ErrOor
    case ResolveFails => ErrSys
    case NetnumGatherFails => ErrMpi
    case SplitFails(code) => MpiCode(code)
    case NodeSizeFails => ErrMpi
    case NodeRankFails => ErrMpi
    case NodeCountFails => ErrMpi
    case _ => Success
  }

  function PidXchangeRc(f: Fault): Rc
  {
    match f
    case PidMapOom => ErrOor
    case PidTypeCreateFails => ErrMpi
    case PidTypeCommitFails => ErrMpi
    case PidGatherFails => ErrMpi
    case PidTypeFreeFails => ErrMpi
    case _ => Success
  }

  function RosterXchangeRc(f: Fault): Rc
  {
    match f
    case RosterOom => ErrOor
    case RosterGatherFails => ErrMpi
    case _ => Success
  }

  /** The setup steps run in order and stop at the first failure. */
  function SetupRc(f: Fault): Rc
  {
    if InitSetupRc(f) != Success then InitSetupRc(f)
    else if SmprankSetupRc(f) != Success then SmprankSetupRc(f)
    else XchangeRc(f)
  }

  /** The two node-table exchanges in order: the first failing one's code. */
  function XchangeRc(f: Fault): Rc
  {
    if PidXchangeRc(f) != Success then PidXchangeRc(f) else RosterXchangeRc(f)
  }

  /** quo_mpi_init's result: a failed or negative MPI_Initialized is
      QUO_ERR_MPI, otherwise the first failing step's code. */
  function InitRc(f: Fault): Rc
  {
    if f.InitializedQueryFails? || f.MpiNotInitialized? then ErrMpi else SetupRc(f)
  }

  /** The gather of every rank's network number into `netnums`, followed
      by get_my_color on it with this rank's own number `myNetnum`. Every
      rank runs get_my_color on the same list, so rank r's colour is
      Colors(w.netnums)[r]. */
  method AllgatherAndColor(netnums: array<nat>, w: World, me: nat, myNetnum: nat) returns (myColor: nat)
    requires netnums.Length == |w.netnums| && me < |w.netnums| && myNetnum == w.netnums[me]
    modifies netnums
    ensures myColor == Colors(w.netnums)[me]
  {
    forall r | 0 <= r < netnums.Length {
      netnums[r] := w.netnums[r];
    }
    assert netnums[..] == w.netnums;
    assert netnums[..][me] == w.netnums[me];
    var colorRc;
    colorRc, myColor := GetMyColor(netnums, myNetnum);
  }

  class QuoMpi {
    var mpiInited: bool
    /** Global rank and number of ranks (of the dup of MPI_COMM_WORLD). */
    var rank: nat
    var nranks: nat
    var nnodes: int
    var smprank: nat
    var nsmpranks: nat
    var pidSmprankMap: array?<PidSmprank>
    var nodeRanks: array?<nat>
    /** The job this rank was initialised in. */
    ghost var world: World

    /** quo_mpi_construct: a zero-filled structure. */
    constructor ()
      ensures !mpiInited && rank == 0 && nranks == 0 && nnodes == 0
      ensures smprank == 0 && nsmpranks == 0
      ensures pidSmprankMap == null && nodeRanks == null
    {
      mpiInited := false;
      rank, nranks, nnodes := 0, 0, 0;
      smprank, nsmpranks := 0, 0;
      pidSmprankMap, nodeRanks := null, null;
      world := World([], []);
    }

    /** Fully initialised: every field is what the protocol gives this rank
        of `world`. */
    ghost predicate Ready()
      reads this, pidSmprankMap, nodeRanks
    {
      WellFormed(world) && rank < |world.netnums| && nranks == |world.netnums| &&
      nsmpranks == NodeSize(world, rank) && smprank == NodeRank(world, rank) &&
      nnodes == NumNodes(world) &&
      pidSmprankMap != null && pidSmprankMap[..] == NodePidMap(world, rank) &&
      nodeRanks != null && nodeRanks[..] == NodeRoster(world, rank)
    }

    /** Ready() from the values the four setup steps leave behind. */
    lemma ReadyFromSteps(w: World, me: nat)
      requires WellFormed(w) && me < |w.netnums| && world == w && rank == me && nranks == |w.netnums|
      requires nsmpranks == NodeSize(w, me) && smprank == NodeRank(w, me) && nnodes == NumNodes(w)
      requires pidSmprankMap != null && pidSmprankMap[..] == NodePidMap(w, me)
      requires nodeRanks != null && nodeRanks[..] == NodeRoster(w, me)
      ensures Ready()
    {
    }

    /** init_setup: the global rank and size (the communication channel
        and the host name are not modelled). */
    method InitSetup(w: World, me: nat, fault: Fault) returns (rc: Rc)
      requires me < |w.netnums|
      modifies this`rank, this`nranks
      ensures rc == InitSetupRc(fault)
      ensures rc == Success ==> rank == me && nranks == |w.netnums|
      ensures rc != Success ==> rank == old(rank) && nranks == old(nranks)
    {
      if fault.BasicSetupFails? {
        return ErrMpi;
      }
      nranks := |w.netnums|;
      rank := me;
      rc := Success;
    }

    /** smprank_setup: gather every rank's network number, colour, split the
        channel by colour keyed by global rank, and all-reduce the leader
        indicators into the node count. */
    method SmprankSetup(w: World, me: nat, fault: Fault) returns (rc: Rc)
      requires rank == me && me < nranks == |w.netnums|
      modifies this`smprank, this`nsmpranks, this`nnodes
      ensures rc == SmprankSetupRc(fault)
      ensures rc == Success ==>
                smprank == NodeRank(w, me) && nsmpranks == NodeSize(w, me) && nnodes == NumNodes(w)
      ensures fault.NodeRankFails? || fault.NodeCountFails? ==> nsmpranks == NodeSize(w, me)
      ensures fault.NodeCountFails? ==> smprank == NodeRank(w, me)
      ensures !(fault.NodeRankFails? || fault.NodeCountFails?) && rc != Success ==>
                nsmpranks == old(nsmpranks) && smprank == old(smprank)
      ensures rc != Success ==> nnodes == old(nnodes)
    {
      if fault.NetnumsOom? {
        return ErrOor;
      }
      var netnums := new nat[nranks];
      if fault.ResolveFails? {
        return ErrSys;
      }
      var myNetnum := w.netnums[me];
      if fault.NetnumGatherFails? {
        return ErrMpi;
      }
      var myColor := AllgatherAndColor(netnums, w, me, myNetnum);
      var colors := Colors(w.netnums);
      if fault.SplitFails? {
        return MpiCode(fault.mpiCode);
      }
      if fault.NodeSizeFails? {
        return ErrMpi;
      }
      nsmpranks := SplitSize(colors, me);
      if fault.NodeRankFails? {
        return ErrMpi;
      }
      smprank := SplitRank(colors, me);
      if fault.NodeCountFails? {
        return ErrMpi;
      }
      nnodes := NodeCount(colors);
      rc := Success;
    }

    /** pid_smprank_xchange: allocate the pid map and gather every node
        member's (pid, smprank) into it. */
    method PidSmprankXchange(w: World, me: nat, fault: Fault) returns (rc: Rc)
      requires WellFormed(w) && me < |w.netnums|
      requires nsmpranks == NodeSize(w, me)
      modifies this`pidSmprankMap
      ensures rc == PidXchangeRc(fault)
      ensures fault.PidMapOom? || fault.PidTypeCreateFails? || fault.PidTypeCommitFails? ==> pidSmprankMap == null
      ensures fault.PidGatherFails? ==>
                pidSmprankMap != null && fresh(pidSmprankMap) && pidSmprankMap.Length == nsmpranks
      ensures fault.PidTypeFreeFails? || rc == Success ==>
                pidSmprankMap != null && fresh(pidSmprankMap) && pidSmprankMap[..] == NodePidMap(w, me)
    {
      if fault.PidMapOom? {
        pidSmprankMap := null;
        return ErrOor;
      }
      pidSmprankMap := new PidSmprank[nsmpranks];
      rc := Success;
      if fault.PidTypeCreateFails? || fault.PidTypeCommitFails? {
        rc := ErrMpi;
      } else {
        if fault.PidGatherFails? {
          return ErrMpi;
        }
        var gathered := NodePidMap(w, me);
        forall k | 0 <= k < nsmpranks {
          pidSmprankMap[k] := gathered[k];
        }
        assert pidSmprankMap[..] == gathered;
      }
      // out: the error path releases the map
      if rc != Success {
        pidSmprankMap := null;
      }
      // MPI_Type_free
      if fault.PidTypeFreeFails? {
        rc := ErrMpi;
      }
    }

    /** node_rank_xchange: allocate node_ranks and gather every node member's
        global rank into it. */
    method NodeRankXchange(w: World, me: nat, fault: Fault) returns (rc: Rc)
      requires me < |w.netnums|
      requires nsmpranks == NodeSize(w, me)
      modifies this`nodeRanks
      ensures rc == RosterXchangeRc(fault)
      ensures rc != Success ==> nodeRanks == null
      ensures rc == Success ==> nodeRanks != null && fresh(nodeRanks) && nodeRanks[..] == NodeRoster(w, me)
    {
      if fault.RosterOom? {
        nodeRanks := null;
        return ErrOor;
      }
      nodeRanks := new nat[nsmpranks];
      rc := Success;
      if fault.RosterGatherFails? {
        rc := ErrMpi;
      } else {
        var gathered := NodeRoster(w, me);
        forall k | 0 <= k < nsmpranks {
          nodeRanks[k] := gathered[k];
        }
        assert nodeRanks[..] == gathered;
      }
      if rc != Success {
        nodeRanks := null;
      }
    }

    /** On a fully initialised object the pid map's entries answer the
        lookup of every node rank below nsmpranks, with the pid of the
        roster member holding it, and of no other. */
    lemma LookupWhenReady(s: int)
      requires Ready()
      ensures PidOf(pidSmprankMap[..nsmpranks], s) ==
                if 0 <= s < nsmpranks then Some(world.pids[nodeRanks[s]]) else None
    {
      assert pidSmprankMap[..nsmpranks] == NodePidMap(world, rank);
      PidLookupOnNode(world, rank, s);
    }

    /** quo_mpi_smprank2pid: search the pid map for the first entry of the
        given node rank. */
    method Smprank2Pid(smprankToFind: int) returns (rc: Rc, outPid: int)
      requires pidSmprankMap != null && nsmpranks <= pidSmprankMap.Length
      ensures rc == Success || rc == ErrNotFound
      ensures rc == Success <==> PidOf(pidSmprankMap[..nsmpranks], smprankToFind).Some?
      ensures rc == Success ==> outPid == PidOf(pidSmprankMap[..nsmpranks], smprankToFind).value
      ensures rc == ErrNotFound ==> outPid == 0
      ensures Ready() ==> (rc == Success <==> 0 <= smprankToFind < nsmpranks)
      ensures Ready() && 0 <= smprankToFind < nsmpranks ==>
                outPid == world.pids[nodeRanks[smprankToFind]]
    {
      ghost var entries := pidSmprankMap[..nsmpranks];
      if Ready() {
        LookupWhenReady(smprankToFind);
      }
      outPid := 0;
      var i := 0;
      while i < nsmpranks
        invariant 0 <= i <= nsmpranks
        invariant forall j :: 0 <= j < i ==> entries[j].smprank != smprankToFind
      {
        if pidSmprankMap[i].smprank == smprankToFind {
          outPid := pidSmprankMap[i].pid;
          PidOfFirstMatch(entries, smprankToFind, i);
          return Success, outPid;
        }
        i := i + 1;
      }
      PidOfNoMatch(entries, smprankToFind);
      rc := ErrNotFound;
    }

    /** The four setup steps of quo_mpi_init, in order, stopping at the
        first failure. */
    method Setup(w: World, me: nat, fault: Fault) returns (rc: Rc)
      requires WellFormed(w) && me < |w.netnums|
      modifies this`rank, this`nranks, this`smprank, this`nsmpranks, this`nnodes
      modifies this`pidSmprankMap, this`nodeRanks, this`world
      ensures rc == SetupRc(fault)
      ensures rc == Success ==> Ready() && world == w && rank == me
      ensures rc == Success ==> fresh(pidSmprankMap) && fresh(nodeRanks)
    {
      rc := InitSetup(w, me, fault);
      if rc != Success {
        return;
      }
      world := w;
      rc := SmprankSetup(w, me, fault);
      if rc != Success {
        return;
      }
      rc := Xchange(w, me, fault);
      if rc == Success {
        ReadyFromSteps(w, me);
      }
    }

    /** The pid-map exchange followed by the roster exchange, stopping at
        the first failure. */
    method Xchange(w: World, me: nat, fault: Fault) returns (rc: Rc)
      requires WellFormed(w) && me < |w.netnums|
      requires nsmpranks == NodeSize(w, me)
      modifies this`pidSmprankMap, this`nodeRanks
      ensures rc == XchangeRc(fault)
      ensures rc == Success ==>
                pidSmprankMap != null && fresh(pidSmprankMap) && pidSmprankMap[..] == NodePidMap(w, me) &&
                nodeRanks != null && fresh(nodeRanks) && nodeRanks[..] == NodeRoster(w, me)
    {
      rc := PidSmprankXchange(w, me, fault);
      if rc != Success {
        return;
      }
      rc := NodeRankXchange(w, me, fault);
    }

    /** quo_mpi_init: ask MPI_Initialized, then run the setup steps; on any
        failure after MPI_Initialized answered, tear the structure down. */
    method Init(w: World, me: nat, fault: Fault) returns (rc: Rc)
      requires WellFormed(w) && me < |w.netnums|
      modifies this
      ensures rc == InitRc(fault)
      ensures rc == Success <==> fault.NoFault?
      ensures rc == Success ==> Ready() && world == w && mpiInited && rank == me
      ensures rc == Success ==> fresh(pidSmprankMap) && fresh(nodeRanks)
      ensures fault.InitializedQueryFails? ==>
                rc == ErrMpi && pidSmprankMap == old(pidSmprankMap) && nodeRanks == old(nodeRanks)
      ensures rc != Success && !fault.InitializedQueryFails? ==> pidSmprankMap == null && nodeRanks == null
    {
      if fault.InitializedQueryFails? {
        return ErrMpi;
      }
      mpiInited := !fault.MpiNotInitialized?;
      if !mpiInited {
        rc := ErrMpi;
      } else {
        rc := Setup(w, me, fault);
      }
      if rc != Success {
        // err: the result of the teardown is discarded
        var _ := Destruct(true, true);
      }
    }

    /** quo_mpi_destruct: free the communicators when MPI was initialised
        (counting the frees that fail), and free and null both arrays,
        which may already be null. */
    method Destruct(commchanFreeOk: bool, smpcommFreeOk: bool) returns (rc: Rc)
      modifies this`pidSmprankMap, this`nodeRanks
      ensures pidSmprankMap == null && nodeRanks == null
      ensures rc == (if mpiInited && !(commchanFreeOk && smpcommFreeOk) then ErrMpi else Success)
    {
      var nerrs := 0;
      if mpiInited {
        if !commchanFreeOk {
          nerrs := nerrs + 1;
        }
        if !smpcommFreeOk {
          nerrs := nerrs + 1;
        }
      }
      if pidSmprankMap != null {
        pidSmprankMap := null;
      }
      if nodeRanks != null {
        nodeRanks := null;
      }
      rc := if nerrs == 0 then Success else ErrMpi;
    }

    /** quo_mpi_nnodes. */
    method NNodes() returns (n: int)
      ensures n == nnodes
      ensures Ready() ==> n == NumDistinct(world.netnums)
    {
      n := nnodes;
      NumNodesIsDistinctCount(world);
    }

    /** quo_mpi_nnoderanks. */
    method NNodeRanks() returns (n: nat)
      ensures n == nsmpranks
      ensures Ready() ==> n == |set m | 0 <= m < |world.netnums| && world.netnums[m] == world.netnums[rank]|
    {
      n := nsmpranks;
      if Ready() {
        NodeSizeCountsSameNumber(world, rank);
      }
    }

    /** quo_mpi_noderank. */
    method NodeRankOf() returns (n: nat)
      ensures n == smprank
      ensures Ready() ==> n < nsmpranks && nodeRanks[n] == rank
    {
      n := smprank;
      if Ready() {
        RosterShape(world, rank);
      }
    }

    /** quo_mpi_ranks_on_node: a fresh copy of node_ranks, owned by the caller. */
    method RanksOnNode(allocOk: bool) returns (rc: Rc, outNRanks: nat, outRanks: array?<nat>)
      requires nodeRanks != null && nsmpranks <= nodeRanks.Length
      ensures outNRanks == nsmpranks
      ensures !allocOk ==> rc == ErrOor && outRanks == null
      ensures allocOk ==> rc == Success && outRanks != null && fresh(outRanks)
      ensures allocOk ==> outRanks[..] == nodeRanks[..nsmpranks]
      ensures allocOk && Ready() ==> outRanks[..] == NodeRoster(world, rank)
    {
      outNRanks := nsmpranks;
      outRanks := null;
      if !allocOk {
        return ErrOor, outNRanks, outRanks;
      }
      var ta := new nat[nsmpranks];
      forall k | 0 <= k < nsmpranks {
        ta[k] := nodeRanks[k];
      }
      outNRanks := nsmpranks;
      outRanks := ta;
      rc := Success;
    }
  }
}
