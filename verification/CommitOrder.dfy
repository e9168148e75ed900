// The order in which commits come out while the walk serves its first reference.

module CommitOrder {
  import opened Objects
  import opened CommitWalk

  // No commit comes out before one that is strictly nearer to the root.
  ghost predicate NearestFirst(repo: Repository, root: Hash, vs: seq<Visit>) {
    forall i, j, m: nat, n: nat | 0 <= i < j < |vs| && Shortest(repo, root, vs[i].key, m)
                                  && Shortest(repo, root, vs[j].key, n) :: m <= n
  }

  // p waits in the queue at a level of at most n.
  ghost predicate Queued(queue: seq<Hash>, levels: seq<nat>, p: Hash, n: nat) {
    exists i :: 0 <= i < |queue| && i < |levels| && queue[i] == p && levels[i] <= n
  }

  // The queue with the path length at which each hash was put there.
  ghost predicate Levelled(repo: Repository, root: Hash, queue: seq<Hash>, levels: seq<nat>, low: nat) {
    && |levels| == |queue|
    && (forall i, j :: 0 <= i < j < |levels| ==> levels[i] <= levels[j])
    && (forall i :: 0 <= i < |levels| ==> low <= levels[i] <= low + 1 && levels[i] > 0)
    && (forall i :: 0 <= i < |levels| ==> Path(repo, root, queue[i], levels[i]))
  }

  // Every unmarked parent of a served commit is queued one level below it.
  ghost predicate Fringe(repo: Repository, root: Hash, seen: set<Hash>, queue: seq<Hash>, levels: seq<nat>) {
    forall b, p, n: nat | (b in seen || b == root) && Shortest(repo, root, b, n) && p in Parents(repo, b)
                          && p !in seen :: Queued(queue, levels, p, n + 1)
  }

  // Whoever has not been served lies no nearer than the head of the queue.
  lemma {:induction false} FringeBlocks(repo: Repository, root: Hash, seen: set<Hash>, queue: seq<Hash>,
                                        levels: seq<nat>, low: nat, x: Hash, n: nat)
    requires Levelled(repo, root, queue, levels, low) && Fringe(repo, root, seen, queue, levels)
    requires Path(repo, root, x, n) && x !in seen && x != root
    ensures |queue| > 0 && levels[0] <= n
    decreases n
  {
    var y :| Path(repo, root, y, n - 1) && x in Parents(repo, y);
    if y in seen || y == root {
      var d := SomeShortest(repo, root, y, n - 1);
      assert Queued(queue, levels, x, d + 1);
    } else {
      FringeBlocks(repo, root, seen, queue, levels, low, y, n - 1);
    }
  }

  ghost predicate NoCycle(repo: Repository, root: Hash) {
    forall n: nat :: n > 0 ==> !Path(repo, root, root, n)
  }

  lemma HeadIsShortest(repo: Repository, root: Hash, seen: set<Hash>, queue: seq<Hash>, levels: seq<nat>, low: nat)
    requires Levelled(repo, root, queue, levels, low) && Fringe(repo, root, seen, queue, levels)
    requires |queue| > 0 && queue[0] !in seen && (root in seen || NoCycle(repo, root))
    ensures queue[0] != root && Shortest(repo, root, queue[0], levels[0])
  {
    assert Path(repo, root, queue[0], levels[0]);
    forall m: nat | m < levels[0] ensures !Path(repo, root, queue[0], m) {
      if Path(repo, root, queue[0], m) {
        FringeBlocks(repo, root, seen, queue, levels, low, queue[0], m);
      }
    }
  }

  ghost function Repeat(n: nat, level: nat): (r: seq<nat>)
    ensures |r| == n && forall i :: 0 <= i < n ==> r[i] == level
  {
    seq(n, i => level)
  }

  lemma DropKeepsQueued(queue: seq<Hash>, levels: seq<nat>, more: seq<Hash>, moreLevels: seq<nat>, p: Hash, n: nat)
    requires |queue| == |levels| > 0 && Queued(queue, levels, p, n) && p != queue[0]
    ensures Queued(queue[1..] + more, levels[1..] + moreLevels, p, n)
  {
    var i :| 0 <= i < |queue| && queue[i] == p && levels[i] <= n;
    assert (queue[1..] + more)[i - 1] == p;
    assert (levels[1..] + moreLevels)[i - 1] == levels[i];
  }

  // Serving the head of the queue keeps both invariants.
  lemma ServeKeepsFringe(repo: Repository, root: Hash, seen: set<Hash>, queue: seq<Hash>, levels: seq<nat>, low: nat)
    requires Levelled(repo, root, queue, levels, low) && Fringe(repo, root, seen, queue, levels)
    requires |queue| > 0 && queue[0] !in seen && Shortest(repo, root, queue[0], levels[0])
    ensures var ps := Parents(repo, queue[0]);
            Fringe(repo, root, seen + {queue[0]}, queue[1..] + ps, levels[1..] + Repeat(|ps|, levels[0] + 1))
  {
    var h := queue[0];
    var ps := Parents(repo, h);
    var queue', levels' := queue[1..] + ps, levels[1..] + Repeat(|ps|, levels[0] + 1);
    forall b, p, n: nat | (b in seen + {h} || b == root) && Shortest(repo, root, b, n) && p in Parents(repo, b)
                          && p !in seen + {h}
      ensures Queued(queue', levels', p, n + 1)
    {
      if b == h {
        ShortestIsUnique(repo, root, h, n, levels[0]);
        var k :| 0 <= k < |ps| && ps[k] == p;
        assert queue'[|queue| - 1 + k] == p && levels'[|queue| - 1 + k] == n + 1;
      } else {
        DropKeepsQueued(queue, levels, ps, Repeat(|ps|, levels[0] + 1), p, n + 1);
      }
    }
  }

  lemma ServeKeepsLevels(repo: Repository, root: Hash, queue: seq<Hash>, levels: seq<nat>, low: nat)
    requires Levelled(repo, root, queue, levels, low) && |queue| > 0
    ensures var ps := Parents(repo, queue[0]);
            Levelled(repo, root, queue[1..] + ps, levels[1..] + Repeat(|ps|, levels[0] + 1), levels[0])
    ensures Levelled(repo, root, queue[1..], levels[1..], levels[0])
  {
    var h := queue[0];
    var ps := Parents(repo, h);
    var queue', levels' := queue[1..] + ps, levels[1..] + Repeat(|ps|, levels[0] + 1);
    forall i | 0 <= i < |levels'| ensures Path(repo, root, queue'[i], levels'[i]) {
      if i >= |queue| - 1 {
        PathStep(repo, root, h, ps[i - (|queue| - 1)], levels[0]);
      } else {
        assert queue'[i] == queue[i + 1];
      }
    }
  }

  lemma SkipKeepsFringe(repo: Repository, root: Hash, seen: set<Hash>, queue: seq<Hash>, levels: seq<nat>)
    requires |levels| == |queue| > 0 && queue[0] in seen && Fringe(repo, root, seen, queue, levels)
    ensures Fringe(repo, root, seen, queue[1..], levels[1..])
  {
    forall b, p, n: nat | (b in seen || b == root) && Shortest(repo, root, b, n) && p in Parents(repo, b) && p !in seen
      ensures Queued(queue[1..], levels[1..], p, n + 1)
    {
      DropKeepsQueued(queue, levels, [], [], p, n + 1);
      assert queue[1..] + [] == queue[1..] && levels[1..] + [] == levels[1..];
    }
  }

  ghost predicate AtLeast(repo: Repository, root: Hash, vs: seq<Visit>, low: nat) {
    forall v, n: nat :: v in vs && Shortest(repo, root, v.key, n) ==> n >= low
  }

  lemma Prepend(repo: Repository, root: Hash, v: Visit, later: seq<Visit>, n: nat)
    requires Shortest(repo, root, v.key, n) && NearestFirst(repo, root, later) && AtLeast(repo, root, later, n)
    ensures NearestFirst(repo, root, [v] + later)
    ensures AtLeast(repo, root, [v] + later, n)
  {
    var vs := [v] + later;
    forall i, j, a: nat, b: nat | 0 <= i < j < |vs| && Shortest(repo, root, vs[i].key, a)
                                  && Shortest(repo, root, vs[j].key, b)
      ensures a <= b
    {
      assert vs[j] in later;
      if i == 0 {
        ShortestIsUnique(repo, root, v.key, a, n);
      } else {
        assert vs[i] == later[i - 1] && vs[j] == later[j - 1];
      }
    }
    forall u, a: nat | u in vs && Shortest(repo, root, u.key, a) ensures a >= n {
      if u == v {
        ShortestIsUnique(repo, root, v.key, a, n);
      }
    }
  }

  // The queue is served nearest first, although a hash is marked only when it leaves the queue and
  // may wait there several times.
  lemma {:induction false} QueueIsServedNearestFirst(repo: Repository, root: Hash, seen: set<Hash>, queue: seq<Hash>,
                                                     levels: seq<nat>, low: nat)
    requires Valid(repo, Crawl([], seen, queue))
    requires Levelled(repo, root, queue, levels, low) && Fringe(repo, root, seen, queue, levels)
    requires root in seen || NoCycle(repo, root)
    ensures NearestFirst(repo, root, Visits(repo, Crawl([], seen, queue)))
    ensures AtLeast(repo, root, Visits(repo, Crawl([], seen, queue)), low)
    decreases Known(repo) - seen, |queue|
  {
    if queue != [] {
      var c := Crawl([], seen, queue);
      StepKeepsValid(repo, c);
      assert queue[0] in Known(repo);
      ServeKeepsLevels(repo, root, queue, levels, low);
      var later := Visits(repo, Step(repo, c));
      if queue[0] in seen {
        SkipKeepsFringe(repo, root, seen, queue, levels);
        QueueIsServedNearestFirst(repo, root, seen, queue[1..], levels[1..], levels[0]);
        assert Visits(repo, c) == later;
      } else {
        var v := FromParent(queue[0]);
        var ps := Parents(repo, queue[0]);
        HeadIsShortest(repo, root, seen, queue, levels, low);
        ServeKeepsFringe(repo, root, seen, queue, levels, low);
        assert Step(repo, c) == Crawl([], seen + {queue[0]}, queue[1..] + ps);
        QueueIsServedNearestFirst(repo, root, seen + {queue[0]}, queue[1..] + ps,
                                  levels[1..] + Repeat(|ps|, levels[0] + 1), levels[0]);
        Prepend(repo, root, v, later, levels[0]);
        assert Visits(repo, c) == [v] + later;
      }
    }
  }

  // The walk empties its queue before it looks at the next reference.
  lemma {:induction false} QueueComesFirst(repo: Repository, c: Crawl) returns (seen: set<Hash>)
    requires Valid(repo, c)
    ensures Valid(repo, Crawl([], c.seen, c.queue)) && Valid(repo, Crawl(c.refs, seen, []))
    ensures Visits(repo, c) == Visits(repo, Crawl([], c.seen, c.queue)) + Visits(repo, Crawl(c.refs, seen, []))
    decreases Known(repo) - c.seen, |c.queue|
  {
    if c.queue == [] {
      seen := c.seen;
    } else {
      var alone := Crawl([], c.seen, c.queue);
      StepKeepsValid(repo, c);
      StepKeepsValid(repo, alone);
      assert c.queue[0] in Known(repo) && Step(repo, alone) == Step(repo, c).(refs := []);
      seen := QueueComesFirst(repo, Step(repo, c));
      var first := match Mark(c) case None => [] case Some(v) => [v];
      Associative(first, Visits(repo, Step(repo, alone)), Visits(repo, Crawl(c.refs, seen, [])));
    }
  }

  // References that hold no hash are passed over.
  lemma {:induction false} SymbolicRefsAreSkipped(repo: Repository, refs: seq<Reference>, k: nat)
    requires k <= |refs| && forall i :: 0 <= i < k ==> refs[i].SymbolicRef?
    ensures Visits(repo, Crawl(refs, {}, [])) == Visits(repo, Crawl(refs[k..], {}, []))
    decreases k
  {
    if k == 0 {
      assert refs[0..] == refs;
    } else {
      SymbolicRefsAreSkipped(repo, refs[1..], k - 1);
      assert refs[1..][k - 1..] == refs[k..];
      var rest := Visits(repo, Crawl(refs[1..], {}, []));
      assert [] + rest == rest;
    }
  }

  ghost predicate Ancestor(repo: Repository, root: Hash, x: Hash) {
    exists n: nat :: n > 0 && Path(repo, root, x, n)
  }

  lemma ParentsAreAncestors(repo: Repository, root: Hash, b: Hash)
    requires b == root || Ancestor(repo, root, b)
    ensures forall p :: p in Parents(repo, b) ==> Ancestor(repo, root, p)
  {
    var n: nat :| Path(repo, root, b, n) by {
      assert Path(repo, root, root, 0);
    }
    forall p | p in Parents(repo, b) ensures Ancestor(repo, root, p) {
      PathStep(repo, root, b, p, n);
    }
  }

  // Without references left, only ancestors are served.
  lemma {:induction false} FloodIsAncestors(repo: Repository, root: Hash, c: Crawl)
    requires Valid(repo, c) && c.refs == [] && forall p :: p in c.queue ==> Ancestor(repo, root, p)
    ensures forall v :: v in Visits(repo, c) ==> v.FromParent? && Ancestor(repo, root, v.key)
    decreases Known(repo) - c.seen, |c.queue|
  {
    if c.queue != [] {
      StepKeepsValid(repo, c);
      assert c.queue[0] in Known(repo) && c.queue[0] in c.queue;
      ParentsAreAncestors(repo, root, c.queue[0]);
      FloodIsAncestors(repo, root, Step(repo, c));
    }
  }

  // A run opens with the commit of the first reference that holds a hash and then exactly its other
  // ancestors, nearest first.
  lemma FirstRefNearestFirst(repo: Repository, k: nat) returns (flood: seq<Visit>, rest: seq<Visit>)
    requires k < |repo.refs| && forall i :: 0 <= i < k ==> repo.refs[i].SymbolicRef?
    requires repo.refs[k].HashRef? && Resolve(repo, repo.refs[k].hash).Found?
    requires var root := Resolve(repo, repo.refs[k].hash).commit; root == repo.refs[k].hash || NoCycle(repo, root)
    ensures var h := repo.refs[k].hash;
            var root := Resolve(repo, h).commit;
            && Visits(repo, Start(repo)) == [FromRef(h)] + flood + rest
            && NearestFirst(repo, root, flood)
            && (forall x :: FromParent(x) in flood <==> x != h && Ancestor(repo, root, x))
            && (forall v :: v in flood ==> v.FromParent?)
  {
    var h := repo.refs[k].hash;
    var root := Resolve(repo, h).commit;
    SymbolicRefsAreSkipped(repo, repo.refs, k);
    var start := Crawl(repo.refs[k..], {}, []);
    var c := Step(repo, start);
    StepKeepsValid(repo, start);
    ResolveFindsCommit(repo, h);
    assert repo.refs[k..][1..] == repo.refs[k + 1..];
    assert c == Crawl(repo.refs[k + 1..], {h}, Parents(repo, root));
    var seen := QueueComesFirst(repo, c);
    var alone := Crawl([], {h}, Parents(repo, root));
    flood, rest := Visits(repo, alone), Visits(repo, Crawl(c.refs, seen, []));
    assert [FromRef(h)] + (flood + rest) == [FromRef(h)] + flood + rest;
    var levels := Repeat(|Parents(repo, root)|, 1);
    RootFringe(repo, root, h);
    QueueIsServedNearestFirst(repo, root, {h}, Parents(repo, root), levels, 1);
    FloodIsExact(repo, root, h);
  }

  lemma FloodIsExact(repo: Repository, root: Hash, h: Hash)
    requires IsCommit(repo, root) && Resolve(repo, h) == Found(root)
    requires Valid(repo, Crawl([], {h}, Parents(repo, root)))
    ensures var flood := Visits(repo, Crawl([], {h}, Parents(repo, root)));
            && (forall x :: FromParent(x) in flood <==> x != h && Ancestor(repo, root, x))
            && (forall v :: v in flood ==> v.FromParent?)
  {
    var alone := Crawl([], {h}, Parents(repo, root));
    ParentsAreAncestors(repo, root, root);
    FloodIsAncestors(repo, root, alone);
    FloodIsComplete(repo, root, h);
    VisitsDistinct(repo, alone);
  }

  // -------------------------------------------------------------------------
  // The same of the results
  // -------------------------------------------------------------------------

  // No result comes before one that is strictly nearer to the root.
  ghost predicate ResultsNearestFirst(repo: Repository, root: Hash, items: seq<Item>) {
    forall i, j, m: nat, n: nat | 0 <= i < j < |items| && items[i].Emit? && items[j].Emit?
                                  && Shortest(repo, root, items[i].commit, m)
                                  && Shortest(repo, root, items[j].commit, n) :: m <= n
  }

  lemma {:induction false} DeliverAppend(repo: Repository, skip: bool, a: seq<Visit>, b: seq<Visit>)
    ensures Deliver(repo, skip, a + b) == Deliver(repo, skip, a) + Deliver(repo, skip, b)
  {
    if a == [] {
      assert a + b == b;
    } else {
      DeliverAppend(repo, skip, a[1..], b);
      assert (a + b)[1..] == a[1..] + b;
      Associative(ItemsOf(repo, skip, a[0]), Deliver(repo, skip, a[1..]), Deliver(repo, skip, b));
    }
  }

  lemma {:induction false} FloodDelivers(repo: Repository, skip: bool, vs: seq<Visit>)
    requires forall v :: v in vs ==> v.FromParent?
    ensures forall x :: Emit(x) in Deliver(repo, skip, vs) <==> FromParent(x) in vs && IsCommit(repo, x)
  {
    if vs != [] {
      FloodDelivers(repo, skip, vs[1..]);
      assert vs[0] in vs && vs == [vs[0]] + vs[1..];
    }
  }

  lemma {:induction false} FloodResultsNearestFirst(repo: Repository, skip: bool, root: Hash, vs: seq<Visit>)
    requires NearestFirst(repo, root, vs) && forall v :: v in vs ==> v.FromParent?
    ensures ResultsNearestFirst(repo, root, Deliver(repo, skip, vs))
  {
    if vs != [] {
      var v, rest := vs[0], vs[1..];
      assert NearestFirst(repo, root, rest) by {
        assert forall i :: 0 <= i < |rest| ==> rest[i] == vs[i + 1];
      }
      assert v in vs;
      FloodResultsNearestFirst(repo, skip, root, rest);
      if IsCommit(repo, v.key) {
        FloodDelivers(repo, skip, rest);
        forall x, m: nat, n: nat | Emit(x) in Deliver(repo, skip, rest) && Shortest(repo, root, v.key, m)
                                   && Shortest(repo, root, x, n)
          ensures m <= n
        {
          var j :| 0 <= j < |rest| && rest[j] == FromParent(x);
          assert vs[j + 1] == rest[j];
        }
        ResultInFront(repo, root, v.key, Deliver(repo, skip, rest));
      } else {
        ErrorInFront(repo, root, ItemsOf(repo, skip, v), Deliver(repo, skip, rest));
      }
    }
  }

  lemma ResultInFront(repo: Repository, root: Hash, c: Hash, items: seq<Item>)
    requires ResultsNearestFirst(repo, root, items)
    requires forall x, m: nat, n: nat :: Emit(x) in items && Shortest(repo, root, c, m) && Shortest(repo, root, x, n) ==> m <= n
    ensures ResultsNearestFirst(repo, root, [Emit(c)] + items)
  {
    var all := [Emit(c)] + items;
    forall i, j, m: nat, n: nat | 0 <= i < j < |all| && all[i].Emit? && all[j].Emit?
                                  && Shortest(repo, root, all[i].commit, m) && Shortest(repo, root, all[j].commit, n)
      ensures m <= n
    {
      assert all[j] == items[j - 1] && Emit(all[j].commit) in items;
      assert i > 0 ==> all[i] == items[i - 1];
    }
  }

  lemma ErrorInFront(repo: Repository, root: Hash, errors: seq<Item>, items: seq<Item>)
    requires ResultsNearestFirst(repo, root, items) && forall e :: e in errors ==> e.Fail?
    ensures ResultsNearestFirst(repo, root, errors + items)
  {
    var all := errors + items;
    forall i | 0 <= i < |errors| ensures all[i].Fail? {
      assert all[i] in errors;
    }
    forall i, j, m: nat, n: nat | 0 <= i < j < |all| && all[i].Emit? && all[j].Emit?
                                  && Shortest(repo, root, all[i].commit, m) && Shortest(repo, root, all[j].commit, n)
      ensures m <= n
    {
      assert i >= |errors|;
      assert all[i] == items[i - |errors|] && all[j] == items[j - |errors|];
    }
  }

  // The results open with the commit of the first reference that holds a hash; then come its other
  // ancestors that are commits, each of them and nothing else but errors, nearest first.
  lemma FirstResultsNearestFirst(repo: Repository, skip: bool, k: nat) returns (flood: seq<Item>, rest: seq<Item>)
    requires k < |repo.refs| && forall i :: 0 <= i < k ==> repo.refs[i].SymbolicRef?
    requires repo.refs[k].HashRef? && Resolve(repo, repo.refs[k].hash).Found?
    requires var root := Resolve(repo, repo.refs[k].hash).commit; root == repo.refs[k].hash || NoCycle(repo, root)
    ensures var root := Resolve(repo, repo.refs[k].hash).commit;
            && AllCommits(repo, skip) == [Emit(root)] + flood + rest
            && ResultsNearestFirst(repo, root, flood)
            && (forall c :: Emit(c) in flood <==> IsCommit(repo, c) && c != root && Ancestor(repo, root, c))
  {
    var h := repo.refs[k].hash;
    var root := Resolve(repo, h).commit;
    var visits, later := FirstRefNearestFirst(repo, k);
    flood, rest := Deliver(repo, skip, visits), Deliver(repo, skip, later);
    DeliverAppend(repo, skip, [FromRef(h)] + visits, later);
    DeliverAppend(repo, skip, [FromRef(h)], visits);
    assert [FromRef(h)][1..] == [] && Deliver(repo, skip, [FromRef(h)]) == [Emit(root)] + Deliver(repo, skip, []);
    FloodDelivers(repo, skip, visits);
    FloodResultsNearestFirst(repo, skip, root, visits);
    ResolveFindsCommit(repo, h);
  }

  lemma RootFringe(repo: Repository, root: Hash, h: Hash)
    requires IsCommit(repo, root) && Resolve(repo, h) == Found(root)
    ensures var levels := Repeat(|Parents(repo, root)|, 1);
            && Levelled(repo, root, Parents(repo, root), levels, 1)
            && Fringe(repo, root, {h}, Parents(repo, root), levels)
  {
    var ps := Parents(repo, root);
    var levels := Repeat(|ps|, 1);
    forall i | 0 <= i < |ps| ensures Path(repo, root, ps[i], levels[i]) {
      PathStep(repo, root, root, ps[i], 0);
    }
    forall b, p, n: nat | (b in {h} || b == root) && Shortest(repo, root, b, n) && p in Parents(repo, b) && p !in {h}
      ensures Queued(ps, levels, p, n + 1)
    {
      ResolveFindsCommit(repo, h);
      assert b == root;
      var k :| 0 <= k < |ps| && ps[k] == p;
    }
  }

  lemma FloodIsComplete(repo: Repository, root: Hash, h: Hash)
    requires IsCommit(repo, root) && Resolve(repo, h) == Found(root)
    requires Valid(repo, Crawl([], {h}, Parents(repo, root)))
    ensures forall x, n: nat :: n > 0 && Path(repo, root, x, n) && x != h
              ==> exists v :: v in Visits(repo, Crawl([], {h}, Parents(repo, root))) && v.key == x
  {
    var alone := Crawl([], {h}, Parents(repo, root));
    VisitsCover(repo, alone);
    var met := Met(repo, alone) + iset{root};
    forall b, p | b in met && p in Parents(repo, b) ensures p in met {
      if b != root && b != h {
        var v :| v in Visits(repo, alone) && v.key == b;
        FloodYields(repo, alone, v);
      } else {
        ResolveFindsCommit(repo, h);
      }
    }
    forall x, n: nat | n > 0 && Path(repo, root, x, n) && x != h
      ensures exists v :: v in Visits(repo, alone) && v.key == x
    {
      var m :| Path(repo, root, m, n - 1) && x in Parents(repo, m);
      ClosedHoldsPath(repo, met, root, m, n - 1);
      if m != root && m != h {
        var v :| v in Visits(repo, alone) && v.key == m;
        FloodYields(repo, alone, v);
        assert x in ParentsOf(repo, v);
      } else {
        ResolveFindsCommit(repo, h);
        assert x in alone.queue;
      }
      assert x in Met(repo, alone);
    }
  }

  lemma FloodYields(repo: Repository, c: Crawl, v: Visit)
    requires Valid(repo, c) && c.refs == [] && v in Visits(repo, c)
    ensures ParentsOf(repo, v) == Parents(repo, v.key)
  {
    VisitsJustified(repo, c);
    assert Justified(repo, c, Visits(repo, c), v);
  }
}
