/** The clusters that cut-off operations leak, over whole runs. */
module LostClusters {
  import opened Types
  import opened Layout
  import opened Chains
  import opened Operations
  import opened Structure
  import opened Preservation
  import opened Tree
  import opened Consequences
  import opened CrashSafety
  import opened DeleteCuts
  import opened Guarantees

  /** The clusters in use that belong to no entry. */
  function Leaks(w: World): set<nat> { set c: nat | c < CLUSTER_MAP_SIZE && Leaked(w.fat, w.g, c) }

  /** The clusters one operation leaks: those of the new chain, or of the removed entry, when the cut falls
      between the writes of the parent and of the allocation table. */
  function Lost(w: World, op: Op): set<nat>
    requires Runnable(w, op)
  {
    match op
    case CutWrite(r, k) =>
      if Admitted(Tab(w.v, r.parent), r) && k == Linking(r) then set c | c in AddedCells(w.fat, r) else {}
    case CutDelete(r, k) =>
      if Removing(w.v, w.g, r) && 0 < k < Freeing(w.v, w.fat, r) then set c | c in RemovedCells(w.v, w.fat, r) else {}
    case _ => {}
  }

  /** An operation adds exactly its loss to what has leaked before, and nothing is ever counted twice. */
  lemma StepLeaks(w: World, op: Op)
    requires Good(w) && Allowed(w, op)
    ensures Runnable(w, op) && Leaks(Step(w, op)) == Leaks(w) + Lost(w, op) && Leaks(w) !! Lost(w, op)
  {
    hide DecodeTable, FatOn, Inv, Abs, WritePlan, DeletePlan, WriteShape, DeleteShape, CanRead, CanReadDirectory,
         CanDelete,
         Linking, Freeing;
    StepRefines(w, op);
    InvCache(w.v, w.fat, w.g);
    match op {
      case DoWrite(r) => WholeWriteLeaks(w, r);
      case DoDelete(r) => WholeDeleteLeaks(w, r);
      case CutWrite(r, k) => CutWriteLeaks(w, r, k);
      case CutDelete(r, k) => CutDeleteLeaks(w, r, k);
      case MendedCut(r) => MendedCutRefines(w, r);
      case _ =>
    }
  }

  lemma CutWriteLeaks(w: World, r: Request, k: nat)
    requires Good(w) && Allowed(w, CutWrite(r, k)) && Runnable(w, CutWrite(r, k))
    ensures Leaks(Step(w, CutWrite(r, k))) == Leaks(w) + Lost(w, CutWrite(r, k)) && Leaks(w) !! Lost(w, CutWrite(r, k))
  {
    hide DecodeTable, FatOn, Inv, WriteShape, FolderPlan, FilePlan, Apply, Linking, Needed;
    if Admitted(Tab(w.v, r.parent), r) {
      FreshCells(w.v, w.fat, w.g, Needed(r));
      forall c ensures Leaked(Step(w, CutWrite(r, k)).fat, Step(w, CutWrite(r, k)).g, c) <==>
                       Leaked(w.fat, w.g, c) || (k == Linking(r) && c in AddedCells(w.fat, r))
      {
        WriteLeaks(w.v, w.fat, w.g, r, k, c);
      }
    } else {
      InvCache(w.v, w.fat, w.g);
      ApplyNone(w.v, WritePlan(w.v, w.fat, r).writes);
      NothingLinked(w, r);
    }
  }

  lemma NothingLinked(w: World, r: Request)
    requires CanWrite(w.v, w.fat, r) && r.parent in w.g.depth && !Admitted(Tab(w.v, r.parent), r)
    ensures WritePlan(w.v, w.fat, r).writes == [] && WritePlan(w.v, w.fat, r).fat == w.fat
    ensures WriteShape(w.v, w.fat, w.g, r) == w.g && CutWriteShape(w.v, w.fat, w.g, r, 0) == w.g
  {
  }

  lemma WholeWriteLeaks(w: World, r: Request)
    requires Good(w) && Allowed(w, DoWrite(r)) && Runnable(w, DoWrite(r))
    ensures Leaks(Step(w, DoWrite(r))) == Leaks(w)
  {
    hide DecodeTable, FatOn, Inv, WriteShape, WritePlan, Apply, Needed, Admitted;
    var p := WritePlan(w.v, w.fat, r);
    if Admitted(Tab(w.v, r.parent), r) {
      WriteOrder(w.v, w.fat, w.g, r);
      FatAtCut(w.v, w.fat, w.g, r, |p.writes|);
      assert p.writes[..|p.writes|] == p.writes;
      forall c ensures Leaked(p.fat, WriteShape(w.v, w.fat, w.g, r), c) <==> Leaked(w.fat, w.g, c) {
        WriteLeaks(w.v, w.fat, w.g, r, |p.writes|, c);
      }
    } else {
      NothingLinked(w, r);
    }
  }

  lemma CutDeleteLeaks(w: World, r: Request, k: nat)
    requires Good(w) && Allowed(w, CutDelete(r, k)) && Runnable(w, CutDelete(r, k))
    ensures Leaks(Step(w, CutDelete(r, k))) == Leaks(w) + Lost(w, CutDelete(r, k))
    ensures Leaks(w) !! Lost(w, CutDelete(r, k))
  {
    hide DecodeTable, FatOn, Inv, RemoveShape, Apply, Freeing, DeletePlan, Chain;
    DeleteAllowed(w.v, w.fat, w.g, r);
    if Removing(w.v, w.g, r) {
      RemovedOwned(w, r);
      forall c ensures Leaked(Step(w, CutDelete(r, k)).fat, Step(w, CutDelete(r, k)).g, c) <==>
                       Leaked(w.fat, w.g, c)
                       || (0 < k < Freeing(w.v, w.fat, r) && c in RemovedCells(w.v, w.fat, r))
      {
        DeleteLeaks(w.v, w.fat, w.g, r, k, c);
      }
    } else {
      InvCache(w.v, w.fat, w.g);
      RejectedDelete(w.v, w.fat, r);
      ApplyNone(w.v, DeletePlan(w.v, w.fat, r).writes);
    }
  }

  lemma RemovedOwned(w: World, r: Request)
    requires Good(w) && Removing(w.v, w.g, r)
    ensures InMap(RemovedCells(w.v, w.fat, r)) && forall c :: c in RemovedCells(w.v, w.fat, r) ==> c in w.g.owner
  {
    hide DecodeTable, Inv, Chain;
    FoundIsPlace(w.v, w.fat, w.g, r);
    ChainCells(w.fat, Head(Tabs(w.v), RemovedPlace(w.v, r)));
  }

  lemma WholeDeleteLeaks(w: World, r: Request)
    requires Good(w) && Allowed(w, DoDelete(r)) && Runnable(w, DoDelete(r))
    ensures Leaks(Step(w, DoDelete(r))) == Leaks(w)
  {
    hide DecodeTable, FatOn, Inv, RemoveShape, Apply, DeletePlan, Chain;
    var p := DeletePlan(w.v, w.fat, r);
    DeleteAllowed(w.v, w.fat, w.g, r);
    if Removing(w.v, w.g, r) {
      DeleteOrder(w.v, w.fat, w.g, r);
      FatAtDeleteCut(w.v, w.fat, w.g, r, |p.writes|);
      assert p.writes[..|p.writes|] == p.writes;
      forall c ensures Leaked(p.fat, DeleteShape(w.v, w.fat, w.g, r), c) <==> Leaked(w.fat, w.g, c) {
        DeleteLeaks(w.v, w.fat, w.g, r, |p.writes|, c);
      }
    } else {
      DeleteRejected(w, r);
    }
  }

  lemma DeleteRejected(w: World, r: Request)
    requires CanDelete(w.v, w.fat, r) && DeletePlan(w.v, w.fat, r).code != 0
    ensures DeletePlan(w.v, w.fat, r).fat == w.fat
  {
  }

  /** The clusters the operations of a run leak, one after the other. */
  ghost function AllLost(w: World, ops: seq<Op>): set<nat>
    requires Good(w) && RunAllowed(w, ops)
    decreases |ops|
  {
    if ops == [] then {} else StepRefines(w, ops[0]); Lost(w, ops[0]) + AllLost(Step(w, ops[0]), ops[1..])
  }

  /** Over a run with any number of cuts, exactly the clusters the cuts lost are added to what has leaked. */
  lemma {:induction false} RunLeaks(w: World, ops: seq<Op>)
    requires Good(w) && RunAllowed(w, ops)
    ensures Leaks(Run(w, ops)) == Leaks(w) + AllLost(w, ops) && Leaks(w) !! AllLost(w, ops)
    decreases |ops|
  {
    hide Good, Step, Allowed, Runnable, Leaks, Lost;
    if ops != [] {
      StepRefines(w, ops[0]);
      StepLeaks(w, ops[0]);
      RunLeaks(Step(w, ops[0]), ops[1..]);
    }
  }
}
