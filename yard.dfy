/**
 * The "Yard" of src/tiles.rs (`calculate_max_cluster`): among the visited
 * tiles, those whose four orthogonal neighbours are all visited; and among
 * those, the largest 4-connected cluster, found by breadth-first search.
 */
module Yard {

  /** A tile `(x, y)` at the fixed zoom level. */
  type Tile = (nat, nat)

  /** `a` and `b` share an edge. */
  predicate Adjacent(a: Tile, b: Tile) {
    (a.0 == b.0 && (a.1 + 1 == b.1 || b.1 + 1 == a.1))
    || (a.1 == b.1 && (a.0 + 1 == b.0 || b.0 + 1 == a.0))
  }

  /** The neighbours the search looks at: left (when x > 0), right, up (when y > 0), down. */
  function Neighbours(t: Tile): (r: seq<Tile>)
    ensures forall n :: n in r <==> Adjacent(t, n)
  {
    var (x, y) := t;
    (if x > 0 then [(x - 1, y)] else []) + [(x + 1, y)] + (if y > 0 then [(x, y - 1)] else []) + [(x, y + 1)]
  }

  /** All four neighbours of `t` are visited (left and up need x > 0 and y > 0). */
  predicate Surrounded(visited: set<Tile>, t: Tile) {
    var (x, y) := t;
    && x > 0 && (x - 1, y) in visited
    && (x + 1, y) in visited
    && y > 0 && (x, y - 1) in visited
    && (x, y + 1) in visited
  }

  /** The tiles of a list, as a set (`all_visited`). */
  function Elems(s: seq<Tile>): set<Tile> {
    set t | t in s
  }

  /** `surrounded_tiles`: the input tiles whose four neighbours are all in the input. */
  function SurroundedTiles(tiles: seq<Tile>): (r: set<Tile>)
    ensures forall t :: t in r <==> t in tiles && Surrounded(Elems(tiles), t)
  {
    set t | t in tiles && Surrounded(Elems(tiles), t)
  }

  predicate Distinct(s: seq<Tile>) {
    forall i, j :: 0 <= i < j < |s| ==> s[i] != s[j]
  }

  lemma {:induction false} DistinctCard(s: seq<Tile>)
    requires Distinct(s)
    ensures |Elems(s)| == |s|
  {
    if s != [] {
      var init := s[..|s| - 1];
      assert Distinct(init);
      DistinctCard(init);
      assert Elems(s) == Elems(init) + {s[|s| - 1]};
      assert s[|s| - 1] !in Elems(init);
    }
  }

  /** `p` is a walk from tile to adjacent tile that stays inside `c`. */
  ghost predicate PathIn(p: seq<Tile>, c: set<Tile>) {
    && |p| > 0
    && (forall i :: 0 <= i < |p| ==> p[i] in c)
    && (forall i :: 0 < i < |p| ==> Adjacent(p[i - 1], p[i]))
  }

  /** `b` can be reached from `a` without leaving `c`. */
  ghost predicate Reaches(c: set<Tile>, a: Tile, b: Tile) {
    exists p :: PathIn(p, c) && p[0] == a && p[|p| - 1] == b
  }

  /** Every tile of `c` can be reached from `root` inside `c`. */
  ghost predicate SpannedFrom(c: set<Tile>, root: Tile) {
    root in c && forall b :: b in c ==> Reaches(c, root, b)
  }

  /** 4-connected: one tile reaches every other without leaving the set. */
  ghost predicate Connected(c: set<Tile>) {
    c == {} || exists root :: SpannedFrom(c, root)
  }

  /** No tile of `s` next to `c` is outside `c`. */
  ghost predicate Closed(c: set<Tile>, s: set<Tile>) {
    forall a, b :: a in c && b in s && Adjacent(a, b) ==> b in c
  }

  /** A walk inside `s` that starts in a set closed in `s` stays in that set. */
  lemma {:induction false} ClosedKeepsPath(c: set<Tile>, s: set<Tile>, p: seq<Tile>, i: nat)
    requires Closed(c, s) && PathIn(p, s) && p[0] in c && i < |p|
    decreases i
    ensures p[i] in c
  {
    if i > 0 {
      ClosedKeepsPath(c, s, p, i - 1);
    }
  }

  /** A connected part of `s` that meets a set closed in `s` lies inside it. */
  lemma ConnectedInsideClosed(x: set<Tile>, c: set<Tile>, s: set<Tile>, root: Tile)
    requires x <= s && SpannedFrom(x, root) && root in c && Closed(c, s)
    ensures x <= c
  {
    forall b | b in x
      ensures b in c
    {
      var p :| PathIn(p, x) && p[0] == root && p[|p| - 1] == b;
      assert PathIn(p, s);
      ClosedKeepsPath(c, s, p, |p| - 1);
    }
  }

  lemma SubsetCard(a: set<Tile>, b: set<Tile>)
    requires a <= b
    ensures |a| <= |b|
  {
    assert b == a + (b - a);
  }

  lemma AdjacentSymmetric(a: Tile, b: Tile)
    ensures Adjacent(a, b) <==> Adjacent(b, a)
  {
  }

  /** The tiles of `ns` still in `left`, in order: those the search enqueues. */
  function Fresh(ns: seq<Tile>, left: set<Tile>): (r: seq<Tile>)
    ensures forall u :: u in r <==> u in ns && u in left
  {
    if ns == [] then []
    else (if ns[0] in left then [ns[0]] else []) + Fresh(ns[1..], left)
  }

  lemma {:induction false} FreshDistinct(ns: seq<Tile>, left: set<Tile>)
    requires Distinct(ns)
    ensures Distinct(Fresh(ns, left)) && |Fresh(ns, left)| == |Elems(Fresh(ns, left))|
  {
    if ns != [] {
      assert Distinct(ns[1..]);
      FreshDistinct(ns[1..], left);
      var r := Fresh(ns, left);
      var tail := Fresh(ns[1..], left);
      forall i, j | 0 <= i < j < |r|
        ensures r[i] != r[j]
      {
        if ns[0] in left && i == 0 {
          assert r[j] in tail;
        }
      }
      DistinctCard(r);
    }
  }

  /**
   * `for neighbor in neighbors { if unvisited.remove(&neighbor) {
   * queue.push_back(neighbor); } }`: the neighbours still unvisited are
   * removed from `left` and queued, in order.
   */
  method Enqueue(ns: seq<Tile>, left: set<Tile>, queue: seq<Tile>) returns (left': set<Tile>, queue': seq<Tile>)
    requires Distinct(ns)
    ensures left' == left - Elems(ns)
    ensures queue' == queue + Fresh(ns, left)
  {
    left', queue' := left, queue;
    var k := 0;
    while k < |ns|
      invariant 0 <= k <= |ns|
      invariant left' == left - Elems(ns[..k])
      invariant queue' == queue + Fresh(ns[..k], left)
    {
      FreshSnoc(ns[..k], ns[k], left);
      assert ns[..k + 1] == ns[..k] + [ns[k]];
      assert ns[k] !in Elems(ns[..k]);
      if ns[k] in left' {
        left' := left' - {ns[k]};
        queue' := queue' + [ns[k]];
      }
      k := k + 1;
    }
    assert ns[..k] == ns;
  }

  lemma {:induction false} FreshSnoc(ns: seq<Tile>, n: Tile, left: set<Tile>)
    ensures Fresh(ns + [n], left) == Fresh(ns, left) + (if n in left then [n] else [])
  {
    FreshAppend(ns, [n], left);
    assert Fresh([n], left) == (if n in left then [n] else []) + Fresh([], left);
  }

  /** `Fresh` works tile by tile, so it distributes over `+`. */
  lemma {:induction false} FreshAppend(a: seq<Tile>, b: seq<Tile>, left: set<Tile>)
    decreases |a|
    ensures Fresh(a + b, left) == Fresh(a, left) + Fresh(b, left)
  {
    if a == [] {
      assert a + b == b;
    } else {
      var head := if a[0] in left then [a[0]] else [];
      assert (a + b)[0] == a[0] && (a + b)[1..] == a[1..] + b;
      FreshAppend(a[1..], b, left);
      assert head + (Fresh(a[1..], left) + Fresh(b, left)) == (head + Fresh(a[1..], left)) + Fresh(b, left);
    }
  }

  lemma NeighboursDistinct(t: Tile)
    ensures Distinct(Neighbours(t))
  {
  }

  /** `p` walks inside `c` from `a` to `b`. */
  ghost predicate Walk(p: seq<Tile>, c: set<Tile>, a: Tile, b: Tile) {
    PathIn(p, c) && p[0] == a && p[|p| - 1] == b
  }

  /**
   * What the search keeps of its queue: `reached` (those taken off `left`)
   * are the tiles in the cluster or the queue, each once, and no neighbour
   * in `s` of a tile in the cluster is still in `left`.
   */
  ghost predicate Queued(s: set<Tile>, unvisited: set<Tile>, start: Tile, cluster: seq<Tile>,
                         queue: seq<Tile>, left: set<Tile>) {
    && left <= unvisited && unvisited <= s
    && (forall u :: u in unvisited && u !in left <==> u in cluster || u in queue)
    && (forall u :: u in queue ==> u !in cluster)
    && Distinct(cluster) && Distinct(queue)
    && (start in cluster || start in queue)
    && (forall a, b :: a in cluster && b in s && Adjacent(a, b) ==> b !in left)
  }

  /** Each tile taken off `left` has a walk from `start` inside the tiles taken off. */
  ghost predicate Walked(unvisited: set<Tile>, start: Tile, left: set<Tile>, paths: map<Tile, seq<Tile>>) {
    forall u :: u in unvisited - left ==> u in paths && Walk(paths[u], unvisited - left, start, u)
  }

  /** What the search keeps: its queue and the walks to what it reached. */
  ghost predicate Searching(s: set<Tile>, unvisited: set<Tile>, start: Tile, cluster: seq<Tile>,
                            queue: seq<Tile>, left: set<Tile>, paths: map<Tile, seq<Tile>>) {
    Queued(s, unvisited, start, cluster, queue, left) && Walked(unvisited, start, left, paths)
  }

  /** The walks to the newly queued tiles: the walk to `t`, one step further. */
  ghost function Extend(paths: map<Tile, seq<Tile>>, t: Tile, added: seq<Tile>): map<Tile, seq<Tile>>
    requires t in paths
  {
    map u | u in paths.Keys + Elems(added) :: if u in added then paths[t] + [u] else paths[u]
  }

  /** A walk inside `c` is a walk inside any larger set. */
  lemma WalkWiden(p: seq<Tile>, c: set<Tile>, c': set<Tile>, a: Tile, b: Tile)
    requires Walk(p, c, a, b) && c <= c'
    ensures Walk(p, c', a, b)
  {
  }

  /** A walk to `t` goes on to a neighbour `u` of `t`. */
  lemma WalkExtend(p: seq<Tile>, c: set<Tile>, a: Tile, t: Tile, u: Tile)
    requires Walk(p, c, a, t) && u in c && Adjacent(t, u)
    ensures Walk(p + [u], c, a, u)
  {
    var q := p + [u];
    forall i | 0 < i < |q|
      ensures Adjacent(q[i - 1], q[i])
    {
      if i < |p| {
        assert q[i - 1] == p[i - 1] && q[i] == p[i];
      }
    }
  }

  /** After a step the cluster and the queue are still duplicate-free and disjoint. */
  lemma StepDistinct(cluster: seq<Tile>, queue: seq<Tile>, added: seq<Tile>)
    requires Distinct(cluster) && Distinct(queue) && Distinct(added) && queue != []
    requires forall u :: u in queue ==> u !in cluster
    requires forall u :: u in added ==> u !in queue && u !in cluster
    ensures Distinct(cluster + [queue[0]]) && Distinct(queue[1..] + added)
    ensures forall u :: u in queue[1..] + added ==> u !in cluster + [queue[0]]
  {
    var t := queue[0];
    var rest := queue[1..];
    assert forall u :: u in rest ==> u in queue && u != t;
    var queue' := rest + added;
    forall i, j | 0 <= i < j < |queue'|
      ensures queue'[i] != queue'[j]
    {
      if i < |rest| && j >= |rest| {
        assert queue'[i] in rest && queue'[j] in added;
      } else if i < |rest| {
        assert queue'[i] == queue[i + 1] && queue'[j] == queue[j + 1];
      } else {
        assert queue'[i] == added[i - |rest|] && queue'[j] == added[j - |rest|];
      }
    }
    var cluster' := cluster + [t];
    forall i, j | 0 <= i < j < |cluster'|
      ensures cluster'[i] != cluster'[j]
    {
      if j == |cluster| {
        assert cluster'[i] in cluster;
      }
    }
  }

  /** The newly reached tiles get walks one step longer than the walk to `t`. */
  lemma StepPaths(reached: set<Tile>, start: Tile, paths: map<Tile, seq<Tile>>, t: Tile, added: seq<Tile>)
    requires forall u :: u in reached ==> u in paths && Walk(paths[u], reached, start, u)
    requires t in reached
    requires forall u :: u in added ==> Adjacent(t, u)
    ensures forall u :: u in reached + Elems(added) ==>
      u in Extend(paths, t, added) && Walk(Extend(paths, t, added)[u], reached + Elems(added), start, u)
  {
    var reached' := reached + Elems(added);
    var paths' := Extend(paths, t, added);
    forall u | u in reached'
      ensures u in paths' && Walk(paths'[u], reached', start, u)
    {
      WalkWiden(paths[t], reached, reached', start, t);
      if u in added {
        WalkExtend(paths[t], reached', start, t, u);
      } else {
        WalkWiden(paths[u], reached, reached', start, u);
      }
    }
  }

  /** The search shrinks `left` by what it queues, and the queue by one. */
  lemma StepDecreases(left: set<Tile>, queue: seq<Tile>, added: seq<Tile>)
    requires queue != [] && Distinct(added) && Elems(added) <= left
    ensures |left - Elems(added)| + |queue[1..] + added| < |left| + |queue|
  {
    DistinctCard(added);
    assert left == (left - Elems(added)) + Elems(added);
  }

  /** One round of the search: take the head of the queue, enqueue its unvisited neighbours. */
  lemma QueueStep(s: set<Tile>, unvisited: set<Tile>, start: Tile, cluster: seq<Tile>,
                  queue: seq<Tile>, left: set<Tile>, ns: seq<Tile>)
    requires Queued(s, unvisited, start, cluster, queue, left) && queue != []
    requires Distinct(ns) && forall n :: n in ns <==> Adjacent(queue[0], n)
    ensures var added := Fresh(ns, left);
      && Queued(s, unvisited, start, cluster + [queue[0]], queue[1..] + added, left - Elems(ns))
      && |left - Elems(ns)| + |queue[1..] + added| < |left| + |queue|
  {
    var t := queue[0];
    var added := Fresh(ns, left);
    FreshDistinct(ns, left);
    assert left - Elems(ns) == left - Elems(added);
    StepDistinct(cluster, queue, added);
    StepDecreases(left, queue, added);
    StepMembers(unvisited, cluster, queue, left, ns, added);
    StepNeighbours(s, cluster, queue, left, ns);
    assert start in cluster + [t] || start in queue[1..] + added by {
      if start in queue {
        assert start == t || start in queue[1..];
      }
    }
  }

  /** The tiles the round takes off `left` are reached by a walk one step longer than the walk to `t`. */
  lemma WalkStep(unvisited: set<Tile>, start: Tile, left: set<Tile>, paths: map<Tile, seq<Tile>>,
                 t: Tile, ns: seq<Tile>)
    requires Walked(unvisited, start, left, paths) && left <= unvisited
    requires t in unvisited && t !in left
    requires forall n :: n in ns ==> Adjacent(t, n)
    ensures t in paths
    ensures Walked(unvisited, start, left - Elems(ns), Extend(paths, t, Fresh(ns, left)))
  {
    var added := Fresh(ns, left);
    assert unvisited - (left - Elems(ns)) == (unvisited - left) + Elems(added);
    StepPaths(unvisited - left, start, paths, t, added);
  }

  /** The tiles taken off `left` are still those in the cluster or the queue. */
  lemma StepMembers(unvisited: set<Tile>, cluster: seq<Tile>, queue: seq<Tile>, left: set<Tile>,
                    ns: seq<Tile>, added: seq<Tile>)
    requires queue != [] && left <= unvisited
    requires forall u :: u in unvisited && u !in left <==> u in cluster || u in queue
    requires forall u :: u in added <==> u in ns && u in left
    ensures forall u :: u in unvisited && u !in left - Elems(ns) <==> u in cluster + [queue[0]] || u in queue[1..] + added
  {
    forall u
      ensures u in unvisited && u !in left - Elems(ns) <==> u in cluster + [queue[0]] || u in queue[1..] + added
    {
      if u in queue {
        assert u == queue[0] || u in queue[1..];
      }
    }
  }

  /** Once `t` leaves the queue, none of its neighbours is still in `left`. */
  lemma StepNeighbours(s: set<Tile>, cluster: seq<Tile>, queue: seq<Tile>, left: set<Tile>, ns: seq<Tile>)
    requires queue != [] && forall n :: n in ns <==> Adjacent(queue[0], n)
    requires forall a, b :: a in cluster && b in s && Adjacent(a, b) ==> b !in left
    ensures forall a, b :: a in cluster + [queue[0]] && b in s && Adjacent(a, b) ==> b !in left - Elems(ns)
  {
    var t := queue[0];
    forall a, b | a in cluster + [t] && b in s && Adjacent(a, b)
      ensures b !in left - Elems(ns)
    {
      if a == t {
        assert b in ns;
      }
    }
  }

  /**
   * The breadth-first search from `start` over `unvisited` (one round of
   * the outer loop): the tiles reached, in the order they leave the queue,
   * and what is still unvisited afterwards. What was visited before is
   * closed in `s`, so the cluster is the whole component of `start`.
   */
  method Explore(s: set<Tile>, unvisited: set<Tile>, start: Tile) returns (cluster: seq<Tile>, left: set<Tile>)
    requires unvisited <= s && start in unvisited
    requires Closed(s - unvisited, s)
    ensures Distinct(cluster) && start in cluster
    ensures Elems(cluster) <= unvisited && left == unvisited - Elems(cluster)
    ensures Closed(Elems(cluster), s)
    ensures SpannedFrom(Elems(cluster), start)
  {
    var queue := [start];
    cluster := [];
    left := unvisited - {start};
    ghost var paths: map<Tile, seq<Tile>> := map[start := [start]];
    assert unvisited - left == {start};
    while queue != []
      invariant Searching(s, unvisited, start, cluster, queue, left, paths)
      decreases |left| + |queue|
    {
      var t := queue[0];
      NeighboursDistinct(t);
      QueueStep(s, unvisited, start, cluster, queue, left, Neighbours(t));
      assert t in queue;
      WalkStep(unvisited, start, left, paths, t, Neighbours(t));
      queue := queue[1..];
      cluster := cluster + [t];
      paths := Extend(paths, t, Fresh(Neighbours(t), left));
      left, queue := Enqueue(Neighbours(t), left, queue);
    }
    ExploreDone(s, unvisited, start, cluster, left, paths);
  }

  /** With the queue empty, the cluster is the reached set, closed and spanned from `start`. */
  lemma ExploreDone(s: set<Tile>, unvisited: set<Tile>, start: Tile, cluster: seq<Tile>,
                    left: set<Tile>, paths: map<Tile, seq<Tile>>)
    requires Searching(s, unvisited, start, cluster, [], left, paths)
    requires Closed(s - unvisited, s)
    ensures start in cluster
    ensures Elems(cluster) <= unvisited && left == unvisited - Elems(cluster)
    ensures Closed(Elems(cluster), s)
    ensures SpannedFrom(Elems(cluster), start)
  {
    var c := Elems(cluster);
    assert unvisited - left == c;
    forall a, b | a in c && b in s && Adjacent(a, b)
      ensures b in c
    {
      AdjacentSymmetric(a, b);
    }
    forall b | b in c
      ensures Reaches(c, start, b)
    {
      assert Walk(paths[b], c, start, b);
    }
  }

  /**
   * What the outer loop keeps: what has been searched is closed in `s`;
   * each searched tile belongs to a found cluster, closed in `s`, no larger
   * than the best so far; and the best so far is a cluster itself.
   */
  ghost predicate Scanned(s: set<Tile>, unvisited: set<Tile>, owner: map<Tile, set<Tile>>, result: seq<Tile>) {
    && unvisited <= s
    && Closed(s - unvisited, s)
    && (forall t :: t in s - unvisited ==>
          t in owner && t in owner[t] && Closed(owner[t], s) && |owner[t]| <= |result|)
    && Distinct(result) && Elems(result) <= s
    && (result == [] <==> unvisited == s)
    && (result != [] ==> Connected(Elems(result)) && Closed(Elems(result), s))
  }

  /** The union of two sets closed in `s` is closed in `s`. */
  lemma ClosedUnion(a: set<Tile>, b: set<Tile>, s: set<Tile>)
    requires Closed(a, s) && Closed(b, s)
    ensures Closed(a + b, s)
  {
  }

  /** The owners after a round: the new cluster owns its tiles, the rest keep theirs. */
  lemma RoundOwners(s: set<Tile>, done: set<Tile>, owner: map<Tile, set<Tile>>, best: nat,
                    found: set<Tile>, best': nat)
    requires forall t :: t in done ==> t in owner && t in owner[t] && Closed(owner[t], s) && |owner[t]| <= best
    requires Closed(found, s) && |found| <= best' && best <= best'
    ensures var owner' := map t | t in owner.Keys + found :: if t in found then found else owner[t];
      forall t :: t in done + found ==> t in owner' && t in owner'[t] && Closed(owner'[t], s) && |owner'[t]| <= best'
  {
  }

  /** One round of the outer loop keeps `Scanned`. */
  lemma RoundStep(s: set<Tile>, unvisited: set<Tile>, owner: map<Tile, set<Tile>>, result: seq<Tile>,
                  start: Tile, cluster: seq<Tile>, left: set<Tile>)
    requires Scanned(s, unvisited, owner, result) && start in unvisited
    requires Distinct(cluster) && start in cluster
    requires Elems(cluster) <= unvisited && left == unvisited - Elems(cluster)
    requires Closed(Elems(cluster), s) && SpannedFrom(Elems(cluster), start)
    ensures var found := Elems(cluster);
            var owner' := map t | t in owner.Keys + found :: if t in found then found else owner[t];
            var result' := if |cluster| > |result| then cluster else result;
      Scanned(s, left, owner', result') && |left| < |unvisited|
  {
    var found := Elems(cluster);
    var result' := if |cluster| > |result| then cluster else result;
    DistinctCard(cluster);
    DistinctCard(result);
    assert s - left == (s - unvisited) + found;
    ClosedUnion(s - unvisited, found, s);
    RoundOwners(s, s - unvisited, owner, |result|, found, |result'|);
    assert start in found && start !in left;
    assert Connected(found);
    SubsetCard(left, unvisited - {start});
  }

  /** Once everything is searched, no connected part of `s` outnumbers the best cluster. */
  lemma ScanDone(s: set<Tile>, owner: map<Tile, set<Tile>>, result: seq<Tile>)
    requires Scanned(s, {}, owner, result)
    ensures forall x :: x <= s && Connected(x) ==> |x| <= |result|
  {
    forall x | x <= s && Connected(x)
      ensures |x| <= |result|
    {
      if x != {} {
        var root :| SpannedFrom(x, root);
        ConnectedInsideClosed(x, owner[root], s, root);
        SubsetCard(x, owner[root]);
      }
    }
  }

  /**
   * `calculate_max_cluster`: the size and the tiles of the largest
   * 4-connected cluster of surrounded tiles. Which of several equally large
   * clusters is returned depends on the order in which the search seeds are
   * drawn, which the source leaves to a hash set.
   */
  method MaxCluster(tiles: seq<Tile>) returns (size: nat, result: seq<Tile>)
    ensures size == |result| && Distinct(result)
    ensures result == [] <==> SurroundedTiles(tiles) == {}
    ensures forall t :: t in result ==> t in tiles && Surrounded(Elems(tiles), t)
    ensures Connected(Elems(result)) && Closed(Elems(result), SurroundedTiles(tiles))
    ensures forall x :: x <= SurroundedTiles(tiles) && Connected(x) ==> |x| <= size
  {
    if tiles == [] {
      return 0, [];
    }
    var s := SurroundedTiles(tiles);
    if s == {} {
      return 0, [];
    }
    var unvisited := s;
    result := [];
    ghost var owner: map<Tile, set<Tile>> := map[];
    while unvisited != {}
      invariant Scanned(s, unvisited, owner, result)
      decreases |unvisited|
    {
      var start :| start in unvisited;
      var cluster, left := Explore(s, unvisited, start);
      RoundStep(s, unvisited, owner, result, start, cluster, left);
      ghost var found := Elems(cluster);
      owner := map t | t in owner.Keys + found :: if t in found then found else owner[t];
      if |cluster| > |result| {
        result := cluster;
      }
      unvisited := left;
    }
    size := |result|;
    ScanDone(s, owner, result);
  }

  /** Every tile of `tiles` lies in the square `lo..hi` on both axes. */
  predicate WithinBox(tiles: seq<Tile>, lo: nat, hi: nat) {
    forall i :: 0 <= i < |tiles| ==> lo <= tiles[i].0 <= hi && lo <= tiles[i].1 <= hi
  }

  /** A surrounded tile of a set inside a box lies strictly inside it. */
  lemma SurroundedInside(tiles: seq<Tile>, lo: nat, hi: nat, t: Tile)
    requires WithinBox(tiles, lo, hi) && Surrounded(Elems(tiles), t)
    ensures lo < t.0 < hi && lo < t.1 < hi
  {
    var (x, y) := t;
    var visited := Elems(tiles);
    assert (x - 1, y) in tiles && (x + 1, y) in tiles && (x, y - 1) in tiles && (x, y + 1) in tiles;
  }

  /** A full 3×3 block away from the axes has only its centre surrounded. */
  lemma BlockHasCentreOnly()
    ensures SurroundedTiles([(1, 1), (2, 1), (3, 1), (1, 2), (2, 2), (3, 2), (1, 3), (2, 3), (3, 3)]) == {(2, 2)}
  {
    var tiles := [(1, 1), (2, 1), (3, 1), (1, 2), (2, 2), (3, 2), (1, 3), (2, 3), (3, 3)];
    var r := SurroundedTiles(tiles);
    BlockWithin();
    assert (2, 2) in r by {
      assert tiles[1] == (2, 1) && tiles[3] == (1, 2) && tiles[4] == (2, 2) && tiles[5] == (3, 2) && tiles[7] == (2, 3);
    }
    OnlyCentre(tiles, 1);
  }

  /** In a box three tiles wide, at most the centre tile can be surrounded. */
  lemma OnlyCentre(tiles: seq<Tile>, lo: nat)
    requires WithinBox(tiles, lo, lo + 2)
    ensures SurroundedTiles(tiles) <= {(lo + 1, lo + 1)}
  {
    forall t | t in SurroundedTiles(tiles)
      ensures t == (lo + 1, lo + 1)
    {
      SurroundedInside(tiles, lo, lo + 2, t);
    }
  }

  lemma BlockWithin()
    ensures WithinBox([(1, 1), (2, 1), (3, 1), (1, 2), (2, 2), (3, 2), (1, 3), (2, 3), (3, 3)], 1, 3)
  {
  }
}
