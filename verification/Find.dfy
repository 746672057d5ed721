/** The shell's `find`: a depth-first search of the on-disk tree through `read_directory`. */
module Find {
  import opened Types
  import opened Layout
  import opened Operations
  import opened Structure
  import opened Fat32
  import opened TreeShape

  /** A shell argument or path component: a name and an extension. */
  datatype Arg = Arg(info: Name, ext: Ext)

  /** Path components the shell has room for. */
  const PATH_CAPACITY := 10

  /** The directory `e` has an entry in use with the name and extension of `end`. */
  ghost predicate HasEntry(tabs: Tables, e: nat, end: Arg) {
    e < IMAGE_CLUSTERS
    && exists s :: FIRST_SLOT <= s < TABLE_SIZE && Live(tabs[e][s]) && Matches(tabs[e][s], end.info, end.ext)
  }

  /** `walk` leads from `d` to a directory holding `end`. */
  ghost predicate Finds(tabs: Tables, d: nat, walk: seq<nat>, e: nat, end: Arg) {
    Reaches(tabs, d, walk, e) && HasEntry(tabs, e, end)
  }

  /** `end` exists somewhere below `d`. */
  ghost predicate Below(tabs: Tables, d: nat, end: Arg) {
    exists walk, e :: Finds(tabs, d, walk, e, end)
  }

  /** The names met along a walk. */
  function Names(tabs: Tables, d: nat, walk: seq<nat>): seq<Arg>
    requires exists e :: Reaches(tabs, d, walk, e)
    decreases |walk|
  {
    if walk == [] then []
    else
      var e := tabs[d][walk[0]];
      assert forall x :: Reaches(tabs, d, walk, x) ==> Reaches(tabs, FirstCluster(e), walk[1..], x);
      [Arg(e.name, e.ext)] + Names(tabs, FirstCluster(e), walk[1..])
  }

  /** `walk` leads from `d` to the directory `e`, whose slot `s` is an entry named like `end`. */
  ghost predicate Holds(tabs: Tables, d: nat, walk: seq<nat>, e: nat, s: nat, end: Arg) {
    && Reaches(tabs, d, walk, e) && e < IMAGE_CLUSTERS && FIRST_SLOT <= s < TABLE_SIZE
    && Live(tabs[e][s]) && Matches(tabs[e][s], end.info, end.ext)
  }

  /** Lexicographic order on series of slots: the order of a depth-first search. */
  predicate NotAfter(a: seq<nat>, b: seq<nat>) {
    a == [] || (b != [] && (a[0] < b[0] || (a[0] == b[0] && NotAfter(a[1..], b[1..]))))
  }

  /** Of all entries named like `end`, the one in slot `s` at the end of `walk` comes first depth-first. */
  ghost predicate First(tabs: Tables, d: nat, walk: seq<nat>, e: nat, s: nat, end: Arg) {
    && Holds(tabs, d, walk, e, s, end)
    && forall walk', e', s' :: Holds(tabs, d, walk', e', s', end) ==> NotAfter(walk + [s], walk' + [s'])
  }

  lemma {:induction false} NotAfterBoth(a: seq<nat>, b: seq<nat>)
    requires NotAfter(a, b) && NotAfter(b, a)
    ensures a == b
  {
    if a != [] {
      NotAfterBoth(a[1..], b[1..]);
      assert a == [a[0]] + a[1..] && b == [b[0]] + b[1..];
    }
  }

  /** There is only one such entry, so only one answer. */
  lemma FirstUnique(tabs: Tables, d: nat, walk: seq<nat>, e: nat, s: nat, walk': seq<nat>, e': nat, s': nat, end: Arg)
    requires First(tabs, d, walk, e, s, end) && First(tabs, d, walk', e', s', end)
    ensures walk == walk' && s == s'
  {
    hide Holds;
    NotAfterBoth(walk + [s], walk' + [s']);
    assert (walk + [s])[..|walk|] == walk && (walk' + [s'])[..|walk'|] == walk';
  }

  /** `answer` is the path `path` continued by the names of the walk to the first holder of `end`. */
  ghost predicate Locates(tabs: Tables, d: nat, path: seq<Arg>, end: Arg, answer: seq<Arg>) {
    exists walk, e, s :: First(tabs, d, walk, e, s, end) && answer == path + Names(tabs, d, walk)
  }

  /** Below a directory is in it, or below one of its children. */
  lemma BelowStep(tabs: Tables, d: nat, end: Arg)
    requires d < IMAGE_CLUSTERS
    ensures Below(tabs, d, end) <==>
              || HasEntry(tabs, d, end)
              || exists s :: FIRST_SLOT <= s < TABLE_SIZE && Live(tabs[d][s]) && IsDir(tabs[d][s])
                   && Below(tabs, FirstCluster(tabs[d][s]), end)
  {
    if HasEntry(tabs, d, end) {
      assert Reaches(tabs, d, [], d) && Finds(tabs, d, [], d, end);
    }
    forall s | FIRST_SLOT <= s < TABLE_SIZE && Live(tabs[d][s]) && IsDir(tabs[d][s])
               && Below(tabs, FirstCluster(tabs[d][s]), end)
      ensures Below(tabs, d, end)
    {
      var walk, e :| Finds(tabs, FirstCluster(tabs[d][s]), walk, e, end);
      assert ([s] + walk)[1..] == walk;
      assert Finds(tabs, d, [s] + walk, e, end);
    }
    forall walk, e | Finds(tabs, d, walk, e, end) && walk != []
      ensures Below(tabs, FirstCluster(tabs[d][walk[0]]), end)
    {
      assert Finds(tabs, FirstCluster(tabs[d][walk[0]]), walk[1..], e, end);
    }
  }

  /** The first slot of a holder's walk leads to it, or holds the entry itself. */
  lemma HoldsStep(tabs: Tables, d: nat, walk: seq<nat>, e: nat, s: nat, end: Arg)
    requires Holds(tabs, d, walk, e, s, end)
    ensures d < IMAGE_CLUSTERS
    ensures walk == [] ==> e == d
    ensures walk != [] ==>
              && FIRST_SLOT <= walk[0] < TABLE_SIZE && Live(tabs[d][walk[0]]) && IsDir(tabs[d][walk[0]])
              && Holds(tabs, FirstCluster(tabs[d][walk[0]]), walk[1..], e, s, end)
              && Below(tabs, FirstCluster(tabs[d][walk[0]]), end)
  {
    if walk != [] {
      assert Finds(tabs, FirstCluster(tabs[d][walk[0]]), walk[1..], e, end);
    }
  }

  /** Nothing in the slots before `i` of `d` holds `end`. */
  ghost predicate NothingBefore(tabs: Tables, d: nat, i: nat, end: Arg)
    requires d < IMAGE_CLUSTERS && i <= TABLE_SIZE
  {
    && (forall s :: FIRST_SLOT <= s < i && Live(tabs[d][s]) ==> !Matches(tabs[d][s], end.info, end.ext))
    && (forall s :: FIRST_SLOT <= s < i && Live(tabs[d][s]) && IsDir(tabs[d][s]) ==>
          !Below(tabs, FirstCluster(tabs[d][s]), end))
  }

  lemma LocatesHere(tabs: Tables, d: nat, i: nat, path: seq<Arg>, end: Arg)
    requires d < IMAGE_CLUSTERS && FIRST_SLOT <= i < TABLE_SIZE && NothingBefore(tabs, d, i, end)
    requires Live(tabs[d][i]) && Matches(tabs[d][i], end.info, end.ext)
    ensures Below(tabs, d, end) && Locates(tabs, d, path, end, path)
  {
    hide Below;
    BelowStep(tabs, d, end);
    assert Reaches(tabs, d, [], d) && Holds(tabs, d, [], d, i, end);
    forall walk, e, s | Holds(tabs, d, walk, e, s, end) ensures NotAfter([] + [i], walk + [s]) {
      HoldsStep(tabs, d, walk, e, s, end);
      assert (walk + [s])[0] >= i;
    }
    assert First(tabs, d, [], d, i, end) && path == path + Names(tabs, d, []);
  }

  lemma LocatesInChild(tabs: Tables, d: nat, i: nat, path: seq<Arg>, end: Arg, answer: seq<Arg>)
    requires d < IMAGE_CLUSTERS && FIRST_SLOT <= i < TABLE_SIZE && NothingBefore(tabs, d, i, end)
    requires Live(tabs[d][i]) && IsDir(tabs[d][i]) && !Matches(tabs[d][i], end.info, end.ext)
    requires Locates(tabs, FirstCluster(tabs[d][i]), path + [Arg(tabs[d][i].name, tabs[d][i].ext)], end, answer)
    ensures Below(tabs, d, end) && Locates(tabs, d, path, end, answer)
  {
    var c, name := FirstCluster(tabs[d][i]), Arg(tabs[d][i].name, tabs[d][i].ext);
    var walk, e, s :| First(tabs, c, walk, e, s, end) && answer == path + [name] + Names(tabs, c, walk);
    var longer := [i] + walk;
    assert longer[1..] == walk;
    assert Holds(tabs, d, longer, e, s, end) && Finds(tabs, d, longer, e, end);
    forall walk', e', s' | Holds(tabs, d, walk', e', s', end) ensures NotAfter(longer + [s], walk' + [s']) {
      ChildFirst(tabs, d, i, walk, e, s, end, walk', e', s');
    }
    assert Names(tabs, d, longer) == [name] + Names(tabs, c, walk);
    assert First(tabs, d, longer, e, s, end) && answer == path + Names(tabs, d, longer);
  }

  lemma ChildFirst(tabs: Tables, d: nat, i: nat, walk: seq<nat>, e: nat, s: nat, end: Arg,
                   walk': seq<nat>, e': nat, s': nat)
    requires d < IMAGE_CLUSTERS && FIRST_SLOT <= i < TABLE_SIZE && NothingBefore(tabs, d, i, end)
    requires Live(tabs[d][i]) && IsDir(tabs[d][i]) && !Matches(tabs[d][i], end.info, end.ext)
    requires First(tabs, FirstCluster(tabs[d][i]), walk, e, s, end) && Holds(tabs, d, walk', e', s', end)
    ensures NotAfter([i] + walk + [s], walk' + [s'])
  {
    hide Below;
    HoldsStep(tabs, d, walk', e', s', end);
    assert (walk' + [s'])[0] >= i;
    if walk' != [] && walk'[0] == i {
      assert ([i] + walk + [s])[1..] == walk + [s] && (walk' + [s'])[1..] == walk'[1..] + [s'];
    }
  }

  /** The driver keeps everything but its directory buffer. */
  twostate predicate OnlyBuffer(driver: Driver)
    requires old(driver.Valid()) && driver.Valid()
    reads driver, driver.disk.image, driver.fatTable
  {
    && driver.Contents() == old(driver.Contents()) && driver.Cached() == old(driver.Cached())
    && driver.log == old(driver.log)
  }

  /** Searches the directory `d`, whose table the caller has loaded, and everything below it. Answers
      true exactly when an entry with that name and extension exists there, and then with the path of
      the directory that holds the first one in depth-first order; otherwise the caller's path variable
      stays as it was. */
  method FindRecursive(driver: Driver, ghost g: Shape, ghost d: nat, ghost deepest: nat,
                       path: seq<Arg>, table: Table, end: Arg, before: seq<Arg>)
    returns (found: bool, answer: seq<Arg>)
    requires driver.Valid() && Inv(driver.Contents(), driver.Cached(), g)
    requires d in g.depth && d < CLUSTER_MAP_SIZE && table == Tab(driver.Contents(), d)
    requires (forall e :: e in g.depth ==> g.depth[e] <= deepest) && |path| + deepest - g.depth[d] <= PATH_CAPACITY
    modifies driver.dirTable
    ensures driver.Valid() && OnlyBuffer(driver)
    ensures found <==> Below(Tabs(driver.Contents()), d, end)
    ensures found ==> Locates(Tabs(driver.Contents()), d, path, end, answer)
    ensures !found ==> answer == before
    decreases deepest - g.depth[d]
  {
    hide DecodeTable, Inv;
    ghost var v, fat := driver.Contents(), driver.Cached();
    ghost var tabs := Tabs(v);
    var i := FIRST_SLOT;
    while i < TABLE_SIZE
      invariant FIRST_SLOT <= i <= TABLE_SIZE
      invariant driver.Valid() && OnlyBuffer(driver)
      invariant NothingBefore(tabs, d, i, end)
    {
      if table[i].userAttribute == UATTR_NOT_EMPTY {
        if table[i].name == end.info && table[i].ext == end.ext {
          assert Live(tabs[d][i]) && Matches(tabs[d][i], end.info, end.ext);
          LocatesHere(tabs, d, i, path, end);
          return true, path;
        } else if table[i].attribute == ATTR_SUBDIRECTORY {
          ChildLive(v, fat, g, d, i);
          var r := Request(FirstCluster(table[i]), table[i].name, NO_EXT, CLUSTER_SIZE, []);
          ChildAndBack(v, fat, g, d, i, r);
          var code, child := driver.ReadDirectory(r, table);
          var longer := path + [Arg(table[i].name, table[i].ext)];
          found, answer := FindRecursive(driver, g, FirstCluster(table[i]), deepest, longer, child, end, before);
          if found {
            LocatesInChild(tabs, d, i, path, end, answer);
            return;
          }
        }
      }
      i := i + 1;
    }
    BelowStep(tabs, d, end);
    return false, before;
  }

  lemma ChildLive(v: Volume, fat: Fat, g: Shape, d: nat, s: nat)
    requires Inv(v, fat, g) && d in g.depth && d < CLUSTER_MAP_SIZE && FIRST_SLOT <= s < TABLE_SIZE
    requires Live(Tab(v, d)[s]) && IsDir(Tab(v, d)[s])
    ensures FirstCluster(Tab(v, d)[s]) < CLUSTER_MAP_SIZE && Tab(v, d)[s].name != NO_NAME
    ensures FirstCluster(Tab(v, d)[s]) as nat in g.depth && g.depth[FirstCluster(Tab(v, d)[s]) as nat] == g.depth[d] + 1
  {
    hide DecodeTable;
    var p := Place(d, s);
    assert EntryAt(Tabs(v), p) == Tab(v, d)[s] && IsPlace(Tabs(v), g, p);
    ChildOf(Tabs(v), fat, g, p);
    assert WellFormed(fat, EntryAt(Tabs(v), p));
  }
}
