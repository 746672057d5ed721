/** Linked chains of clusters inside the file allocation table, and the scan for free cells. */
module Chains {
  import opened Types

  predicate Linked(fat: Fat, c: nat) { c < |fat| && c < fat[c] < |fat| }

  /** The cells reached from `c` while the links go strictly upwards. */
  function Chain(fat: Fat, c: nat): (cells: seq<nat>)
    requires c < |fat|
    ensures |cells| > 0 && cells[0] == c
    decreases |fat| - c
  {
    if Linked(fat, c) then [c] + Chain(fat, fat[c]) else [c]
  }

  /** Every link from `c` on goes upwards and the last cell holds the end marker. */
  predicate Terminated(fat: Fat, c: nat)
    decreases |fat| - c
  {
    c < |fat| && if Linked(fat, c) then Terminated(fat, fat[c]) else fat[c] == END_OF_FILE
  }

  predicate Increasing(cells: seq<nat>) {
    forall i, j :: 0 <= i < j < |cells| ==> cells[i] < cells[j]
  }

  predicate InMap(cells: seq<nat>) {
    forall i :: 0 <= i < |cells| ==> cells[i] < CLUSTER_MAP_SIZE
  }

  lemma IncreasingCons(x: nat, cells: seq<nat>)
    requires Increasing(cells) && forall y :: y in cells ==> x < y
    ensures Increasing([x] + cells)
  {
    forall i, j | 0 <= i < j < 1 + |cells| ensures ([x] + cells)[i] < ([x] + cells)[j] {
      if i == 0 { assert cells[j - 1] in cells; }
    }
  }

  /** The cells of a terminated chain go strictly upwards inside the map and none of them is free;
      following it therefore takes fewer than 512 steps. */
  lemma {:induction false} ChainCells(fat: Fat, c: nat)
    requires Terminated(fat, c)
    ensures forall x :: x in Chain(fat, c) ==> c <= x < CLUSTER_MAP_SIZE && fat[x] != EMPTY_ENTRY
    ensures Increasing(Chain(fat, c)) && InMap(Chain(fat, c))
    decreases |fat| - c
  {
    if Linked(fat, c) {
      ChainCells(fat, fat[c]);
      IncreasingCons(c, Chain(fat, fat[c]));
    }
    assert forall i :: 0 <= i < |Chain(fat, c)| ==> Chain(fat, c)[i] in Chain(fat, c);
  }

  /** In a terminated chain each cell holds its successor and the last one the end marker. */
  lemma {:induction false} ChainLink(fat: Fat, c: nat, i: nat)
    requires Terminated(fat, c) && i < |Chain(fat, c)|
    ensures Chain(fat, c)[i] < |fat|
    ensures fat[Chain(fat, c)[i]] == if i + 1 < |Chain(fat, c)| then Chain(fat, c)[i + 1] else END_OF_FILE
    decreases |fat| - c
  {
    if Linked(fat, c) && i > 0 {
      ChainLink(fat, fat[c], i - 1);
    }
  }

  /** Changing cells outside a chain leaves the chain alone. */
  lemma {:induction false} ChainFrame(fat: Fat, fat': Fat, c: nat)
    requires c < |fat|
    requires forall x :: x in Chain(fat, c) ==> x < |fat| && fat'[x] == fat[x]
    ensures Chain(fat', c) == Chain(fat, c)
    ensures Terminated(fat', c) == Terminated(fat, c)
    decreases |fat| - c
  {
    assert c in Chain(fat, c);
    if Linked(fat, c) {
      assert forall x :: x in Chain(fat, fat[c]) ==> x in Chain(fat, c);
      ChainFrame(fat, fat', fat[c]);
    }
  }

  /** The free cells from `i` on, in ascending order: what the scans for an empty entry meet. */
  function FreeFrom(fat: Fat, i: nat): (cells: seq<nat>)
    requires i <= |fat|
    decreases |fat| - i
  {
    if i == |fat| then []
    else if fat[i] == EMPTY_ENTRY then [i] + FreeFrom(fat, i + 1)
    else FreeFrom(fat, i + 1)
  }

  function FreeCount(fat: Fat): nat { |FreeFrom(fat, 0)| }

  /** The scan result is exactly the set of free cells, each once, in order. */
  lemma {:induction false} FreeFromExact(fat: Fat, i: nat)
    requires i <= |fat|
    ensures forall x :: x in FreeFrom(fat, i) <==> i <= x < |fat| && fat[x] == EMPTY_ENTRY
    ensures Increasing(FreeFrom(fat, i))
    decreases |fat| - i
  {
    if i < |fat| {
      FreeFromExact(fat, i + 1);
      if fat[i] == EMPTY_ENTRY { IncreasingCons(i, FreeFrom(fat, i + 1)); }
    }
  }

  /** The `n` lowest free clusters: the ones a file of `n` clusters takes. */
  function Picks(fat: Fat, n: nat): seq<nat>
    requires n <= FreeCount(fat)
  {
    FreeFrom(fat, 0)[..n]
  }

  predicate Free(fat: Fat, cells: seq<nat>) {
    Increasing(cells) && InMap(cells) && forall i :: 0 <= i < |cells| ==> fat[cells[i]] == EMPTY_ENTRY
  }

  lemma PicksFree(fat: Fat, n: nat)
    requires n <= FreeCount(fat)
    ensures |Picks(fat, n)| == n && Free(fat, Picks(fat, n))
  {
    FreeFromExact(fat, 0);
    assert forall i :: 0 <= i < n ==> FreeFrom(fat, 0)[i] in FreeFrom(fat, 0);
  }

  /** `fat` with `cells` joined into one terminated chain. */
  function Join(fat: Fat, cells: seq<nat>): Fat
    requires InMap(cells)
  {
    if cells == [] then fat
    else
      assert forall i :: 0 <= i < |cells[1..]| ==> cells[1..][i] == cells[i + 1];
      Join(fat, cells[1..])[cells[0] := if |cells| == 1 then END_OF_FILE else cells[1]]
  }

  /** What `Join` puts into cell `cells[i]`. */
  function LinkAt(cells: seq<nat>, i: nat): nat
    requires i < |cells|
  {
    if i + 1 < |cells| then cells[i + 1] else END_OF_FILE
  }

  lemma {:induction false} JoinAt(fat: Fat, cells: seq<nat>, i: nat)
    requires InMap(cells) && Increasing(cells) && i < |cells|
    ensures Join(fat, cells)[cells[i]] == LinkAt(cells, i)
  {
    var rest := cells[1..];
    assert forall k :: 0 <= k < |rest| ==> rest[k] == cells[k + 1];
    if i > 0 {
      JoinAt(fat, rest, i - 1);
      assert cells[0] < cells[i];
    }
  }

  lemma {:induction false} JoinOutside(fat: Fat, cells: seq<nat>, x: nat)
    requires InMap(cells) && x < |fat| && x !in cells
    ensures Join(fat, cells)[x] == fat[x]
  {
    if cells != [] {
      assert forall k :: 0 <= k < |cells[1..]| ==> cells[1..][k] == cells[k + 1];
      JoinOutside(fat, cells[1..], x);
    }
  }

  /** Joining free cells in order makes them one terminated chain. */
  lemma {:induction false} JoinChain(fat: Fat, cells: seq<nat>, k: nat)
    requires InMap(cells) && Increasing(cells) && k < |cells|
    ensures Terminated(Join(fat, cells), cells[k])
    ensures Chain(Join(fat, cells), cells[k]) == cells[k..]
    decreases |cells| - k
  {
    JoinAt(fat, cells, k);
    if k + 1 < |cells| {
      JoinChain(fat, cells, k + 1);
      assert cells[k] < cells[k + 1];
      assert cells[k..] == [cells[k]] + cells[k + 1..];
    } else {
      assert cells[k..] == [cells[k]];
    }
  }

  /** The two cell updates with which the write loop extends a chain that ended at `last`. */
  function Extend(fat: Fat, last: nat, x: nat): Fat
    requires last < |fat| && x < |fat|
  {
    fat[last := x][x := END_OF_FILE]
  }

  lemma JoinExtend(fat: Fat, cells: seq<nat>, x: nat)
    requires cells != [] && InMap(cells + [x]) && Increasing(cells + [x])
    requires InMap(cells) && Increasing(cells) && x < CLUSTER_MAP_SIZE
    ensures Join(fat, cells + [x]) == Extend(Join(fat, cells), cells[|cells| - 1], x)
  {
    var all, last := cells + [x], |cells| - 1;
    var r := Extend(Join(fat, cells), cells[last], x);
    forall y | 0 <= y < |fat| ensures Join(fat, all)[y] == r[y] {
      if y in all {
        var i :| 0 <= i < |all| && all[i] == y;
        JoinAt(fat, all, i);
        if i < |cells| {
          JoinAt(fat, cells, i);
          assert all[i] < all[|cells|];
          if i < last { assert all[i] < all[last]; }
        }
      } else {
        JoinOutside(fat, all, y);
        JoinOutside(fat, cells, y);
        assert all[last] in all && all[|cells|] in all;
      }
    }
  }

  /** `fat` with `cells` marked empty. */
  function Clear(fat: Fat, cells: seq<nat>): Fat
    requires InMap(cells)
  {
    if cells == [] then fat
    else
      assert forall i :: 0 <= i < |cells[1..]| ==> cells[1..][i] == cells[i + 1];
      Clear(fat, cells[1..])[cells[0] := EMPTY_ENTRY]
  }

  lemma {:induction false} ClearAt(fat: Fat, cells: seq<nat>)
    requires InMap(cells)
    ensures forall x :: 0 <= x < |fat| ==>
              Clear(fat, cells)[x] == if x in cells then EMPTY_ENTRY else fat[x]
  {
    if cells != [] {
      var rest := cells[1..];
      assert forall i :: 0 <= i < |rest| ==> rest[i] == cells[i + 1];
      ClearAt(fat, rest);
    }
  }

  lemma ClearOne(fat: Fat, c: nat)
    requires c < |fat|
    ensures InMap([c]) && Clear(fat, [c]) == fat[c := EMPTY_ENTRY]
  {
    assert [c][1..] == [];
  }

  lemma ClearExtend(fat: Fat, cells: seq<nat>, x: nat)
    requires InMap(cells) && InMap(cells + [x]) && x < |fat|
    ensures Clear(fat, cells + [x]) == Clear(fat, cells)[x := EMPTY_ENTRY]
  {
    ClearAt(fat, cells);
    ClearAt(fat, cells + [x]);
    forall y | 0 <= y < |fat| ensures Clear(fat, cells + [x])[y] == Clear(fat, cells)[x := EMPTY_ENTRY][y] {
      assert y in cells + [x] <==> y in cells || y == x;
    }
  }

  /** Deleting a freshly written chain restores the allocation table cell for cell. */
  lemma ClearJoin(fat: Fat, cells: seq<nat>)
    requires Free(fat, cells)
    ensures Clear(Join(fat, cells), cells) == fat
  {
    ClearAt(Join(fat, cells), cells);
    forall x | 0 <= x < |fat| ensures Clear(Join(fat, cells), cells)[x] == fat[x] {
      if x !in cells { JoinOutside(fat, cells, x); }
    }
  }

  // ----- the loop that fills a new chain -----

  /** Where that loop stands before cell `i`: it has taken the first `part` of `cells`, the last of
      them `last`, out of `fat`, and `now` is the table it has made of it. */
  predicate Filling(fat: Fat, cells: seq<nat>, now: Fat, i: nat, part: nat, last: nat)
  {
    && Free(fat, cells) && |cells| <= FreeCount(fat) && cells == Picks(fat, |cells|)
    && 1 <= part <= |cells| && last == cells[part - 1] < i <= CLUSTER_MAP_SIZE
    && InMap(cells[..part]) && now == Join(fat, cells[..part])
    && FreeFrom(fat, i) == FreeFrom(fat, 0)[part..]
  }

  lemma FillStart(fat: Fat, cells: seq<nat>)
    requires 0 < |cells| <= FreeCount(fat) && cells == Picks(fat, |cells|) && Free(fat, cells)
    requires FreeFrom(fat, 0) == [cells[0]] + FreeFrom(fat, cells[0] + 1)
    ensures Filling(fat, cells, fat[cells[0] := END_OF_FILE], cells[0] + 1, 1, cells[0])
  {
    assert cells[..1] == [cells[0]];
  }

  /** A free cell is left as long as clusters are still needed: the scan stays inside the map. */
  lemma FillProgress(fat: Fat, cells: seq<nat>, now: Fat, i: nat, part: nat, last: nat)
    requires Filling(fat, cells, now, i, part, last) && part < |cells|
    ensures i < CLUSTER_MAP_SIZE && now[i] == fat[i]
  {
    assert FreeFrom(fat, 0)[part..] != [];
    assert forall k :: 0 <= k < part ==> cells[k] <= cells[part - 1];
    JoinOutside(fat, cells[..part], i);
  }

  lemma FillSkip(fat: Fat, cells: seq<nat>, now: Fat, i: nat, part: nat, last: nat)
    requires Filling(fat, cells, now, i, part, last) && part < |cells|
    requires i < CLUSTER_MAP_SIZE && now[i] != EMPTY_ENTRY
    ensures Filling(fat, cells, now, i + 1, part, last)
  {
    FillProgress(fat, cells, now, i, part, last);
  }

  lemma FillTake(fat: Fat, cells: seq<nat>, now: Fat, i: nat, part: nat, last: nat)
    requires Filling(fat, cells, now, i, part, last) && part < |cells|
    requires i < CLUSTER_MAP_SIZE && now[i] == EMPTY_ENTRY
    ensures cells[part] == i && last < CLUSTER_MAP_SIZE
    ensures Filling(fat, cells, Extend(now, last, i), i + 1, part + 1, i)
  {
    FillProgress(fat, cells, now, i, part, last);
    assert FreeFrom(fat, 0)[part..][0] == i;
    assert FreeFrom(fat, i)[1..] == FreeFrom(fat, i + 1);
    assert cells[..part] + [cells[part]] == cells[..part + 1];
    JoinExtend(fat, cells[..part], i);
  }

  lemma FillDone(fat: Fat, cells: seq<nat>, now: Fat, i: nat, last: nat)
    requires Filling(fat, cells, now, i, |cells|, last)
    ensures now == Join(fat, cells)
  {
    assert cells[..|cells|] == cells;
  }

  // ----- the loop that clears a chain -----

  /** Where that loop stands: the first `k + 1` cells of the chain are cleared, the last of them
      was `c`, and `next` is what that cell held. */
  predicate Clearing(fat: Fat, first: nat, now: Fat, k: nat, c: nat, next: nat)
  {
    && Terminated(fat, first) && k < |Chain(fat, first)| && c == Chain(fat, first)[k]
    && next == LinkAt(Chain(fat, first), k)
    && InMap(Chain(fat, first)[..k + 1]) && now == Clear(fat, Chain(fat, first)[..k + 1])
  }

  lemma ClearStart(fat: Fat, first: nat)
    requires Terminated(fat, first)
    ensures Clearing(fat, first, fat[first := EMPTY_ENTRY], 0, first, fat[first])
  {
    ChainCells(fat, first);
    ChainLink(fat, first, 0);
    assert Chain(fat, first)[..1] == [first];
  }

  lemma ClearStep(fat: Fat, first: nat, now: Fat, k: nat, c: nat, next: nat)
    requires Clearing(fat, first, now, k, c, next) && next != END_OF_FILE
    ensures k + 1 < |Chain(fat, first)| && next == Chain(fat, first)[k + 1] < CLUSTER_MAP_SIZE
    ensures Clearing(fat, first, now[next := EMPTY_ENTRY], k + 1, next, now[next])
  {
    var cells := Chain(fat, first);
    ChainCells(fat, first);
    ChainLink(fat, first, k + 1);
    ClearAt(fat, cells[..k + 1]);
    assert forall i :: 0 <= i < k + 1 ==> cells[i] < cells[k + 1];
    assert cells[..k + 1] + [next] == cells[..k + 2];
    ClearExtend(fat, cells[..k + 1], next);
  }

  lemma ClearDone(fat: Fat, first: nat, now: Fat, k: nat, c: nat)
    requires Clearing(fat, first, now, k, c, END_OF_FILE)
    ensures k + 1 == |Chain(fat, first)| && InMap(Chain(fat, first)) && c == Chain(fat, first)[k]
    ensures now == Clear(fat, Chain(fat, first))
  {
    ChainCells(fat, first);
    assert Chain(fat, first)[..|Chain(fat, first)|] == Chain(fat, first);
  }
}
