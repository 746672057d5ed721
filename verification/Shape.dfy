/** The live directories are exactly those reachable from the root, each by one path; the used
    clusters are exactly the disjoint chains of their entries. */
module TreeShape {
  import opened Types
  import opened Layout
  import opened Chains
  import opened Operations
  import opened Structure
  import opened Preservation
  import opened Refinement

  /** Following the directory entries in the slots `path` leads from `d` to `e`. */
  predicate Reaches(tabs: Tables, d: nat, path: seq<nat>, e: nat)
    decreases |path|
  {
    if path == [] then d == e
    else
      && d < IMAGE_CLUSTERS && FIRST_SLOT <= path[0] < TABLE_SIZE
      && Live(tabs[d][path[0]]) && IsDir(tabs[d][path[0]])
      && Reaches(tabs, FirstCluster(tabs[d][path[0]]), path[1..], e)
  }

  /** The slots from the root to a live directory. */
  function PathTo(tabs: Tables, fat: Fat, g: Shape, d: nat): seq<nat>
    requires Sound(tabs, fat, g) && d in g.depth
    decreases g.depth[d]
  {
    assert DirOk(tabs, g, d);
    if d == ROOT_CLUSTER then [] else PathTo(tabs, fat, g, g.owner[d].dir) + [g.owner[d].slot]
  }

  /** Any walk from a live directory ends in a live directory, as many levels deeper as it has steps,
      along that directory's only path. */
  lemma {:induction false} WalkIsPath(tabs: Tables, fat: Fat, g: Shape, d: nat, path: seq<nat>, e: nat)
    requires Sound(tabs, fat, g) && d in g.depth && Reaches(tabs, d, path, e)
    ensures e in g.depth && g.depth[e] == g.depth[d] + |path|
    ensures PathTo(tabs, fat, g, e) == PathTo(tabs, fat, g, d) + path
    decreases |path|
  {
    hide EntryOk, DirOk;
    if path != [] {
      var p := Place(d, path[0]);
      var c := FirstCluster(tabs[d][path[0]]);
      ChildOf(tabs, fat, g, p);
      WalkIsPath(tabs, fat, g, c, path[1..], e);
      assert PathTo(tabs, fat, g, d) + [path[0]] + path[1..] == PathTo(tabs, fat, g, d) + path by {
        assert path == [path[0]] + path[1..];
      }
    }
  }

  /** What a directory entry leads to. */
  lemma ChildOf(tabs: Tables, fat: Fat, g: Shape, p: Place)
    requires Sound(tabs, fat, g) && IsPlace(tabs, g, p) && IsDir(EntryAt(tabs, p))
    ensures p.dir < CLUSTER_MAP_SIZE && Head(tabs, p) as nat in g.depth && Head(tabs, p) != ROOT_CLUSTER
    ensures Head(tabs, p) < CLUSTER_MAP_SIZE
    ensures Head(tabs, p) as nat in g.owner && g.owner[Head(tabs, p) as nat] == p
    ensures g.depth[Head(tabs, p) as nat] == g.depth[p.dir] + 1
  {
    assert EntryOk(tabs, fat, g, p) && DirOk(tabs, g, p.dir);
    assert DirOk(tabs, g, Head(tabs, p));
  }

  lemma {:induction false} WalkAppend(tabs: Tables, d: nat, path: seq<nat>, e: nat, s: nat)
    requires Reaches(tabs, d, path, e) && e < IMAGE_CLUSTERS && FIRST_SLOT <= s < TABLE_SIZE
    requires Live(tabs[e][s]) && IsDir(tabs[e][s])
    ensures Reaches(tabs, d, path + [s], FirstCluster(tabs[e][s]))
    decreases |path|
  {
    if path != [] {
      WalkAppend(tabs, FirstCluster(tabs[d][path[0]]), path[1..], e, s);
      assert (path + [s])[1..] == path[1..] + [s];
    } else {
      assert [s][1..] == [];
      assert Reaches(tabs, FirstCluster(tabs[e][s]), [], FirstCluster(tabs[e][s]));
    }
  }

  lemma {:induction false} PathReaches(tabs: Tables, fat: Fat, g: Shape, d: nat)
    requires Sound(tabs, fat, g) && d in g.depth
    ensures Reaches(tabs, ROOT_CLUSTER, PathTo(tabs, fat, g, d), d)
    decreases g.depth[d]
  {
    assert DirOk(tabs, g, d);
    if d != ROOT_CLUSTER {
      var p := g.owner[d];
      assert DirOk(tabs, g, p.dir);
      PathReaches(tabs, fat, g, p.dir);
      WalkAppend(tabs, ROOT_CLUSTER, PathTo(tabs, fat, g, p.dir), p.dir, p.slot);
    }
  }

  /** The live directories are exactly the ones reachable from the root. */
  lemma LiveIffReachable(tabs: Tables, fat: Fat, g: Shape, d: nat)
    requires Sound(tabs, fat, g)
    ensures d in g.depth <==> exists path :: Reaches(tabs, ROOT_CLUSTER, path, d)
  {
    if d in g.depth { PathReaches(tabs, fat, g, d); }
    if path :| Reaches(tabs, ROOT_CLUSTER, path, d) {
      WalkIsPath(tabs, fat, g, ROOT_CLUSTER, path, d);
    }
  }

  /** No directory is reachable from the root along two paths. */
  lemma OnePath(tabs: Tables, fat: Fat, g: Shape, d: nat, path: seq<nat>, path': seq<nat>)
    requires Sound(tabs, fat, g)
    requires Reaches(tabs, ROOT_CLUSTER, path, d) && Reaches(tabs, ROOT_CLUSTER, path', d)
    ensures path == path'
  {
    hide Reaches;
    WalkIsPath(tabs, fat, g, ROOT_CLUSTER, path, d);
    WalkIsPath(tabs, fat, g, ROOT_CLUSTER, path', d);
    var root := PathTo(tabs, fat, g, ROOT_CLUSTER);
    assert root == [] && root + path == path && root + path' == path';
  }

  /** No walk of one step or more comes back to where it began. */
  lemma Acyclic(tabs: Tables, fat: Fat, g: Shape, d: nat, path: seq<nat>)
    requires Sound(tabs, fat, g) && d in g.depth && path != []
    ensures !Reaches(tabs, d, path, d)
  {
    if Reaches(tabs, d, path, d) { WalkIsPath(tabs, fat, g, d, path, d); }
  }

  // ----- ownership -----

  /** Cluster `c` lies on the chain of a live entry. */
  ghost predicate OnChain(tabs: Tables, fat: Fat, g: Shape, c: nat) {
    exists p :: IsPlace(tabs, g, p) && Head(tabs, p) < CLUSTER_MAP_SIZE && c in Chain(fat, Head(tabs, p))
  }

  /** The clusters on chains of live entries are in use and recorded with their owner. They are all
      the clusters in use above the root exactly when nothing has leaked. */
  lemma OwnershipExact(v: Volume, fat: Fat, g: Shape)
    requires Inv(v, fat, g)
    ensures Reserved(fat)
    ensures forall c: nat :: OnChain(Tabs(v), fat, g, c) <==> c in g.owner
    ensures forall c: nat :: OnChain(Tabs(v), fat, g, c) ==>
            ROOT_CLUSTER < c < CLUSTER_MAP_SIZE && fat[c] != EMPTY_ENTRY
    ensures NoLeak(fat, g) <==>
              forall c :: ROOT_CLUSTER < c < CLUSTER_MAP_SIZE && fat[c] != EMPTY_ENTRY ==> OnChain(Tabs(v), fat, g, c)
  {
    hide DecodeTable, EntriesWellFormed, TablesOk, Signed, FatOn;
    forall c | c in g.owner ensures OnChain(Tabs(v), fat, g, c) { assert Owned(Tabs(v), fat, g, c); }
    forall c: nat | OnChain(Tabs(v), fat, g, c)
      ensures c in g.owner && ROOT_CLUSTER < c < CLUSTER_MAP_SIZE && fat[c] != EMPTY_ENTRY
    {
      var p :| IsPlace(Tabs(v), g, p) && Head(Tabs(v), p) < CLUSTER_MAP_SIZE && c in Chain(fat, Head(Tabs(v), p));
      assert EntryOk(Tabs(v), fat, g, p);
      ChainCells(fat, Head(Tabs(v), p));
    }
  }

  /** Two live entries share no cluster. */
  lemma ChainsDisjoint(tabs: Tables, fat: Fat, g: Shape, p: Place, q: Place)
    requires Sound(tabs, fat, g) && IsPlace(tabs, g, p) && IsPlace(tabs, g, q) && p != q
    ensures Terminated(fat, Head(tabs, p)) && Terminated(fat, Head(tabs, q))
    ensures forall x :: x in Chain(fat, Head(tabs, p)) ==> x !in Chain(fat, Head(tabs, q))
  {
    assert EntryOk(tabs, fat, g, p) && EntryOk(tabs, fat, g, q);
  }

  /** The chain of a file is strictly increasing, inside the map, and has one cell for each cluster
      its recorded size calls for. */
  lemma FileChain(v: Volume, fat: Fat, g: Shape, p: Place)
    requires Inv(v, fat, g) && IsPlace(Tabs(v), g, p) && !IsDir(EntryAt(Tabs(v), p))
    ensures Terminated(fat, Head(Tabs(v), p)) && Increasing(Chain(fat, Head(Tabs(v), p)))
    ensures InMap(Chain(fat, Head(Tabs(v), p)))
    ensures |Chain(fat, Head(Tabs(v), p))| == ClustersNeeded(EntryAt(Tabs(v), p).filesize)
  {
    hide DecodeTable;
    assert EntryOk(Tabs(v), fat, g, p) && WellFormed(fat, EntryAt(Tabs(v), p));
    ChainCells(fat, Head(Tabs(v), p));
  }

  // ----- directory headers -----

  /** A child's entry 0 is its parent's entry for it. Reading the child by its own name gives the child
      again; reading ".." in it gives the parent's table, unless the child itself is called "..". */
  lemma ChildAndBack(v: Volume, fat: Fat, g: Shape, d: nat, s: nat, r: Request)
    requires Inv(v, fat, g) && d in g.depth && d < CLUSTER_MAP_SIZE && FIRST_SLOT <= s < TABLE_SIZE
    requires Live(Tab(v, d)[s]) && IsDir(Tab(v, d)[s]) && r.parent == FirstCluster(Tab(v, d)[s]) && r.name != NO_NAME
    ensures r.parent as nat in g.depth && r.parent != d && Tab(v, r.parent)[0] == Tab(v, d)[s]
    ensures CanReadDirectory(v, r)
    ensures r.name == Tab(v, d)[s].name ==> ReadDirectoryPlan(v, r) == Reading(0, [r.parent])
    ensures r.name == DOTDOT ==>
              (ReadDirectoryPlan(v, r) == Reading(0, [d]) <==> Tab(v, d)[s].name != DOTDOT)
  {
    hide DecodeTable;
    var p := Place(d, s);
    assert EntryAt(Tabs(v), p) == Tab(v, d)[s] && IsPlace(Tabs(v), g, p);
    ChildOf(Tabs(v), fat, g, p);
    LiveTable(v, fat, g, r.parent);
    LiveDirectory(v, fat, g, r.parent);
    ReadDirectoryRefines(v, fat, g, r);
    var t := Tab(v, r.parent);
    assert t[0].name == r.name ==> FindName(t, r.name, 0) == 0;
    assert t[0].name != r.name && t[1].name == r.name ==> FindName(t, r.name, 0) == 1 by {
      assert FindName(t, r.name, 0) == if t[0].name == r.name then 0 else FindName(t, r.name, 1);
    }
  }

  /** Requests whose parent is a cluster without a header in use are turned away and write nothing. */
  lemma DeadParentRejected(v: Volume, fat: Fat, r: Request)
    requires !Live(Tab(v, r.parent)[0])
    ensures CanDelete(v, fat, r) && CanRead(v, r) && CanReadDirectory(v, r)
    ensures CanWrite(v, fat, r) ==> WritePlan(v, fat, r).code == 2 && WritePlan(v, fat, r).writes == []
    ensures DeletePlan(v, fat, r).code == -1 && DeletePlan(v, fat, r).writes == []
    ensures ReadPlan(v, r).code == -1 && ReadDirectoryPlan(v, r).code == -1
  {
    hide DecodeTable;
  }

  /** As long as no operation was cut off, every free cluster is such a parent. */
  lemma FreeParentDead(v: Volume, fat: Fat, g: Shape, d: nat)
    requires Inv(v, fat, g) && FreeDead(Tabs(v), fat) && ROOT_CLUSTER < d < CLUSTER_MAP_SIZE && fat[d] == EMPTY_ENTRY
    ensures !Live(Tab(v, d)[0])
  {
    hide DecodeTable;
    assert AllDead(Tabs(v)[d]);
  }
}
