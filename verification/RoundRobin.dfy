/** With a fixed set of live processes the scheduler is a round robin. */
module RoundRobin {
  import opened Paging
  import opened Processes
  import opened Scheduling

  /** Slots in use below `s`. */
  function Rank(used: Used, s: nat): nat
    requires s <= 16
  {
    if s == 0 then 0 else Rank(used, s - 1) + if used[s - 1] then 1 else 0
  }

  lemma {:induction false} RankCount(used: Used, s: nat)
    requires s <= 16
    ensures Rank(used, s) + CountUsed(used, s) == CountUsed(used, 0)
  {
    if s > 0 { RankCount(used, s - 1); }
  }

  lemma {:induction false} RankGap(used: Used, a: nat, b: nat)
    requires a <= b <= 16
    ensures Rank(used, a) <= Rank(used, b)
    ensures (forall i :: a <= i < b ==> !used[i]) ==> Rank(used, a) == Rank(used, b)
    decreases b
  {
    if a < b { RankGap(used, a, b - 1); }
  }

  /** Ranks tell slots in use apart and stay below their number. */
  lemma RankOrder(used: Used, a: nat, b: nat)
    requires a < 16 && b < 16 && used[a] && used[b]
    ensures Rank(used, a) < CountUsed(used, 0)
    ensures Rank(used, a) == Rank(used, b) <==> a == b
  {
    RankCount(used, 16);
    RankGap(used, a + 1, 16);
    if a < b { RankGap(used, a + 1, b); }
    if b < a { RankGap(used, b + 1, a); }
  }

  function Successor(r: nat, n: nat): nat
    requires n > 0
  {
    if r + 1 == n then 0 else r + 1
  }

  /** The slot found nearest above another, going round, has the next rank. */
  lemma NearestRank(used: Used, cur: nat, r: nat)
    requires cur < 16 && r < 16 && used[cur] && used[r]
    requires forall q :: 0 <= q < 16 && used[q] && q != cur ==> r != cur && Distance(cur, r) <= Distance(cur, q)
    ensures CountUsed(used, 0) > 0 && Rank(used, r) == Successor(Rank(used, cur), CountUsed(used, 0))
  {
    RankOrder(used, cur, cur);
    if cur < r { NearestAbove(used, cur, r); } else { NearestWrapped(used, cur, r); }
  }

  lemma NearestAbove(used: Used, cur: nat, r: nat)
    requires cur < r < 16 && used[cur] && used[r]
    requires forall q :: 0 <= q < 16 && used[q] && q != cur ==> Distance(cur, r) <= Distance(cur, q)
    ensures Rank(used, r) == Rank(used, cur) + 1 < CountUsed(used, 0)
  {
    hide CountUsed;
    forall i | cur < i < r ensures !used[i] { assert Distance(cur, i) < Distance(cur, r); }
    RankGap(used, cur + 1, r);
    RankOrder(used, r, r);
  }

  lemma NearestWrapped(used: Used, cur: nat, r: nat)
    requires r <= cur < 16 && used[cur] && used[r]
    requires forall q :: 0 <= q < 16 && used[q] && q != cur ==> r != cur && Distance(cur, r) <= Distance(cur, q)
    ensures Rank(used, r) == 0 && Rank(used, cur) + 1 == CountUsed(used, 0)
  {
    forall i | cur < i < 16 || 0 <= i < r ensures !used[i] {
      assert r < cur ==> Distance(cur, i) < Distance(cur, r);
    }
    RankGap(used, 0, r);
    RankGap(used, cur + 1, 16);
    RankCount(used, 16);
  }

  /** The processes that run after each of a series of ticks. */
  ghost function Trace(k: Kernel, fs: seq<Frame>): (t: seq<nat>)
    requires Scheduled(k)
    ensures |t| == |fs|
    decreases |fs|
  {
    if fs == [] then []
    else TickKeeps(k, fs[0]); [Tick(k, fs[0]).cur] + Trace(Tick(k, fs[0]), fs[1..])
  }

  /** The rank `j` places further on. */
  function Onward(r: nat, j: nat, n: nat): nat
    requires n > 0
    decreases j
  {
    if j == 0 then r else Onward(Successor(r, n), j - 1, n)
  }

  lemma {:induction false} OnwardExact(r: nat, j: nat, n: nat)
    requires r < n && j < n
    ensures Onward(r, j, n) == if r + j < n then r + j else r + j - n
    decreases j
  {
    if j > 0 { OnwardExact(Successor(r, n), j - 1, n); }
  }

  lemma {:induction false} TraceRanks(k: Kernel, fs: seq<Frame>, j: nat)
    requires Scheduled(k) && j < |fs|
    ensures k.active > 0 && Trace(k, fs)[j] < 16 && k.used[Trace(k, fs)[j]]
    ensures Rank(k.used, Trace(k, fs)[j]) == Onward(Rank(k.used, k.next), j, k.active)
    decreases j
  {
    hide Scheduled, Tick, Rank, Successor;
    TickKeeps(k, fs[0]);
    TickRank(k, fs[0]);
    if j > 0 { TraceRanks(Tick(k, fs[0]), fs[1..], j - 1); }
  }

  lemma TickRank(k: Kernel, f: Frame)
    requires Scheduled(k)
    ensures k.active > 0 && k.next < 16 && k.used[k.next] && Runnable(k, TimerTick(f))
    ensures var k' := Tick(k, f);
            && k'.cur == k.next && k'.used == k.used && k'.active == k.active && k'.next < 16
            && Rank(k.used, k'.next) == Successor(Rank(k.used, k.next), k.active)
  {
    hide FramesInRange, Unset, CountUsed, Search, SlotOk, Rank, DirectoriesDistinct, Distance;
    TickKeeps(k, f);
    TickEffect(k, f);
    TickNext(k, f);
    NearestRank(k.used, k.next, Tick(k, f).next);
  }

  /** With n live processes and no creation or destruction, every n consecutive ticks run each of them
      exactly once. */
  lemma EachExactlyOnce(k: Kernel, fs: seq<Frame>, q: nat)
    requires Scheduled(k) && |fs| == k.active && q < 16 && k.used[q]
    ensures exists j :: 0 <= j < |fs| && Trace(k, fs)[j] == q
    ensures forall i, j :: 0 <= i < j < |fs| ==> Trace(k, fs)[i] != Trace(k, fs)[j]
  {
    hide FramesInRange, Unset, CountUsed, SlotOk, Rank, Trace, Onward, DirectoriesDistinct;
    var n, r, t := k.active, Rank(k.used, k.next), Trace(k, fs);
    RankOrder(k.used, k.next, q);
    RankOrder(k.used, q, k.next);
    var j := if Rank(k.used, q) >= r then Rank(k.used, q) - r else Rank(k.used, q) + n - r;
    TraceRanks(k, fs, j);
    OnwardExact(r, j, n);
    RankOrder(k.used, t[j], q);
    assert t[j] == q;
    forall i, j | 0 <= i < j < |fs| ensures t[i] != t[j] {
      TraceRanks(k, fs, i);
      TraceRanks(k, fs, j);
      OnwardExact(r, i, n);
      OnwardExact(r, j, n);
    }
  }
}
