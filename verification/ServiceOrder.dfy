// The order of an acyclic history, and its conditions as statements about the parents alone.

module ServiceOrder {
  import opened Objects
  import opened Layout
  import opened IndexedCommits
  import opened HistoryOnce
  import opened HistoryDistances
  import opened FirstPaths

  // What has been served among the hashes that h reaches is complete.
  ghost predicate Guarded(repo: Repository, h: Hash, seen: set<Hash>) {
    forall x, p :: x in seen && p in Parents(repo, x) && Reachable(repo, h, x) ==> p in seen
  }

  lemma {:induction false} GuardedHolds(repo: Repository, h: Hash, seen: set<Hash>, x: Hash, y: Hash, n: nat)
    requires Guarded(repo, h, seen) && x in seen && Reachable(repo, h, x) && Path(repo, x, y, n)
    ensures y in seen && Reachable(repo, h, y)
    decreases n
  {
    if n > 0 {
      var m :| Path(repo, x, m, n - 1) && y in Parents(repo, m);
      GuardedHolds(repo, h, seen, x, m, n - 1);
      ReachableStep(repo, h, m, y);
    }
  }

  // Before h comes x: its first path from the start does.
  ghost predicate Before(repo: Repository, start: Hash, x: Hash, h: Hash)
    requires Acyclic(repo)
  {
    Reachable(repo, start, x) && Reachable(repo, start, h) && Lex(FirstPath(repo, start, x), FirstPath(repo, start, h))
  }

  ghost predicate InOrder(repo: Repository, start: Hash, hashes: seq<Hash>)
    requires Acyclic(repo)
  {
    forall i, j :: 0 <= i < j < |hashes| ==> Before(repo, start, hashes[i], hashes[j])
  }

  // Nothing is served while something it reaches is only half served.
  ghost predicate AllGuarded(repo: Repository, hashes: seq<Hash>, seen: set<Hash>) {
    forall k :: 0 <= k < |hashes| ==> Guarded(repo, hashes[k], seen + Elements(hashes[..k]))
  }

  ghost predicate ReachesAll(repo: Repository, h: Hash, hashes: seq<Hash>, seen: set<Hash>) {
    forall x :: x in hashes <==> Reachable(repo, h, x) && x !in seen
  }

  // -------------------------------------------------------------------------
  // A tour of everything below one hash
  // -------------------------------------------------------------------------

  // Everything below the first m parents of h has been served, and h itself.
  ghost predicate Underway(repo: Repository, h: Hash, seen: set<Hash>, m: nat)
  {
    && m <= |Parents(repo, h)| && h in Known(repo) && h in seen
    && (forall i :: 0 <= i < m ==> Parents(repo, h)[i] in seen)
    && (forall x, p :: x in seen && x != h && p in Parents(repo, x) && Reachable(repo, h, x) ==> p in seen)
  }

  lemma UnderwayGuards(repo: Repository, h: Hash, seen: set<Hash>, m: nat, i: nat)
    requires Acyclic(repo) && Underway(repo, h, seen, m) && i < |Parents(repo, h)|
    ensures Guarded(repo, Parents(repo, h)[i], seen)
  {
    var p := Parents(repo, h)[i];
    forall x, q | x in seen && q in Parents(repo, x) && Reachable(repo, p, x) ensures q in seen {
      NotItsOwnAncestor(repo, h, p);
      ParentReaches(repo, h, p, x);
    }
  }

  // What an earlier parent reaches has been served.
  lemma UnderwayHolds(repo: Repository, h: Hash, seen: set<Hash>, m: nat, i: nat, x: Hash)
    requires Acyclic(repo) && Underway(repo, h, seen, m) && i < |Parents(repo, h)|
    requires Parents(repo, h)[i] in seen && Reachable(repo, Parents(repo, h)[i], x)
    ensures x in seen
  {
    var p := Parents(repo, h)[i];
    UnderwayGuards(repo, h, seen, m, i);
    assert Path(repo, p, p, 0);
    var n: nat :| Path(repo, p, x, n);
    GuardedHolds(repo, p, seen, p, x, n);
  }

  lemma FirstLinkIsLeft(repo: Repository, h: Hash, seen: set<Hash>, m: nat, x: Hash)
    requires Acyclic(repo) && Underway(repo, h, seen, m) && Reachable(repo, h, x) && x !in seen
    ensures h != x && FirstLink(repo, h, x) >= m
  {
    var i := FirstLink(repo, h, x);
    if i < m {
      UnderwayHolds(repo, h, seen, m, i, x);
    }
  }

  // Each of these is first reached by parent m or a later one.
  ghost predicate StartsFrom(repo: Repository, h: Hash, hashes: seq<Hash>, m: nat)
    requires Acyclic(repo)
  {
    forall x :: x in hashes ==> Reachable(repo, h, x) && h != x && FirstLink(repo, h, x) >= m
  }

  ghost predicate Toured(repo: Repository, h: Hash, hashes: seq<Hash>, seen: set<Hash>)
    requires Acyclic(repo)
  {
    ReachesAll(repo, h, hashes, seen) && AllGuarded(repo, hashes, seen) && InOrder(repo, h, hashes)
  }

  lemma ParentsFromKnown(repo: Repository, h: Hash, m: nat)
    requires m <= |Parents(repo, h)|
    ensures AllKnown(repo, Parents(repo, h)[m..])
  {
    ParentsAllKnown(repo, h, []);
    assert Parents(repo, h) + [] == Parents(repo, h);
  }

  // Behind one more parent.
  lemma BehindParent(repo: Repository, h: Hash, m: nat, p: Hash, seen: set<Hash>, hashes: seq<Hash>)
    requires Acyclic(repo) && Underway(repo, h, seen, m) && m < |Parents(repo, h)| && p == Parents(repo, h)[m]
    requires Toured(repo, p, hashes, seen) && p in hashes
    ensures Underway(repo, h, seen + Elements(hashes), m + 1)
    ensures InOrder(repo, h, hashes) && forall x :: x in hashes ==> IsFirstLink(repo, h, x, m)
  {
    forall x | x in hashes ensures IsFirstLink(repo, h, x, m) {
      forall i | 0 <= i < m ensures !Reachable(repo, Parents(repo, h)[i], x) {
        if Reachable(repo, Parents(repo, h)[i], x) {
          UnderwayHolds(repo, h, seen, m, i, x);
        }
      }
    }
    var seen' := seen + Elements(hashes);
    forall x, q | x in seen' && x != h && q in Parents(repo, x) && Reachable(repo, h, x) ensures q in seen' {
      if x !in seen {
        ReachableStep(repo, p, x, q);
      }
    }
    forall i, j | 0 <= i < j < |hashes| ensures Before(repo, h, hashes[i], hashes[j]) {
      assert hashes[i] in hashes && hashes[j] in hashes && Before(repo, p, hashes[i], hashes[j]);
      BeforeBehind(repo, h, m, hashes[i], hashes[j]);
    }
  }

  lemma BeforeBehind(repo: Repository, h: Hash, m: nat, x: Hash, y: Hash)
    requires Acyclic(repo) && IsFirstLink(repo, h, x, m) && IsFirstLink(repo, h, y, m)
    requires Before(repo, Parents(repo, h)[m], x, y)
    ensures Before(repo, h, x, y)
  {
    var p := Parents(repo, h)[m];
    NotItsOwnAncestor(repo, h, p);
    FirstPathIs(repo, h, x, m);
    FirstPathIs(repo, h, y, m);
    LexBehind(m, FirstPath(repo, p, x), m, FirstPath(repo, p, y));
  }

  lemma BeforeByLink(repo: Repository, h: Hash, x: Hash, y: Hash)
    requires Acyclic(repo) && Reachable(repo, h, x) && Reachable(repo, h, y) && h != x && h != y
    requires FirstLink(repo, h, x) < FirstLink(repo, h, y)
    ensures Before(repo, h, x, y)
  {
    var i, j := FirstLink(repo, h, x), FirstLink(repo, h, y);
    FirstPathIs(repo, h, x, i);
    FirstPathIs(repo, h, y, j);
    LexBehind(i, FirstPath(repo, Parents(repo, h)[i], x), j, FirstPath(repo, Parents(repo, h)[j], y));
  }

  lemma GuardedAfter(repo: Repository, a: seq<Hash>, b: seq<Hash>, seen: set<Hash>)
    requires AllGuarded(repo, a, seen) && AllGuarded(repo, b, seen + Elements(a))
    ensures AllGuarded(repo, a + b, seen)
  {
    var all := a + b;
    forall k | 0 <= k < |all| ensures Guarded(repo, all[k], seen + Elements(all[..k])) {
      if k < |a| {
        assert all[..k] == a[..k];
      } else {
        assert all[..k] == a + b[..k - |a|];
        assert seen + Elements(a + b[..k - |a|]) == seen + Elements(a) + Elements(b[..k - |a|]);
        assert Guarded(repo, b[k - |a|], seen + Elements(a) + Elements(b[..k - |a|]));
      }
    }
  }

  lemma OrderedAfter(repo: Repository, h: Hash, a: seq<Hash>, b: seq<Hash>, m: nat)
    requires Acyclic(repo) && InOrder(repo, h, a) && InOrder(repo, h, b)
    requires forall x :: x in a ==> IsFirstLink(repo, h, x, m) && Reachable(repo, h, x) && h != x
    requires StartsFrom(repo, h, b, m + 1)
    ensures InOrder(repo, h, a + b)
  {
    var all := a + b;
    forall i, j | 0 <= i < j < |all| ensures Before(repo, h, all[i], all[j]) {
      if j < |a| {
        assert all[i] == a[i] && all[j] == a[j];
      } else if i >= |a| {
        assert all[i] == b[i - |a|] && all[j] == b[j - |a|];
      } else {
        assert all[i] in a && all[j] in b;
        FirstLinkIs(repo, h, all[i], m);
        BeforeByLink(repo, h, all[i], all[j]);
      }
    }
  }

  // From parent m on.
  lemma {:induction false} TourFrom(repo: Repository, h: Hash, m: nat, seen: set<Hash>)
    requires Acyclic(repo) && Underway(repo, h, seen, m)
    ensures AllKnown(repo, Parents(repo, h)[m..])
    ensures var hashes := Served(repo, Parents(repo, h)[m..], seen);
            Toured(repo, h, hashes, seen) && StartsFrom(repo, h, hashes, m)
    decreases ReachableFrom(repo, h), 0, |Parents(repo, h)| - m
  {
    ParentsFromKnown(repo, h, m);
    if m == |Parents(repo, h)| {
      NothingIsLeft(repo, h, seen);
    } else {
      var p, rest := Parents(repo, h)[m], Parents(repo, h)[m + 1..];
      assert Parents(repo, h)[m..] == [p] + rest;
      ParentsFromKnown(repo, h, m + 1);
      ParentReachesLess(repo, h, p);
      if p in seen {
        ServedNext(repo, p, rest, seen);
        TourFrom(repo, h, m + 1, seen);
      } else {
        TourOneMore(repo, h, m, seen);
      }
    }
  }

  lemma NothingIsLeft(repo: Repository, h: Hash, seen: set<Hash>)
    requires Acyclic(repo) && Underway(repo, h, seen, |Parents(repo, h)|)
    ensures Toured(repo, h, [], seen)
  {
    forall x | Reachable(repo, h, x) ensures x in seen {
      if x !in seen {
        FirstLinkIsLeft(repo, h, seen, |Parents(repo, h)|, x);
      }
    }
  }

  lemma {:induction false} TourOneMore(repo: Repository, h: Hash, m: nat, seen: set<Hash>)
    requires Acyclic(repo) && Underway(repo, h, seen, m) && m < |Parents(repo, h)| && Parents(repo, h)[m] !in seen
    requires ReachableFrom(repo, Parents(repo, h)[m]) < ReachableFrom(repo, h)
    ensures AllKnown(repo, Parents(repo, h)[m..])
    ensures var hashes := Served(repo, Parents(repo, h)[m..], seen);
            Toured(repo, h, hashes, seen) && StartsFrom(repo, h, hashes, m)
    decreases ReachableFrom(repo, h), 0, |Parents(repo, h)| - m, 0
  {
    var p, rest := Parents(repo, h)[m], Parents(repo, h)[m + 1..];
    assert Parents(repo, h)[m..] == [p] + rest;
    ParentsFromKnown(repo, h, m);
    ParentsFromKnown(repo, h, m + 1);
    assert AllKnown(repo, [p]) by { ParentReachesLess(repo, h, p); }
    UnderwayGuards(repo, h, seen, m, m);
    Tour(repo, p, seen);
    var a := Served(repo, [p], seen);
    assert p in a by { assert Path(repo, p, p, 0); }
    BehindParent(repo, h, m, p, seen, a);
    TourFrom(repo, h, m + 1, seen + Elements(a));
    ServedAppend(repo, [p], rest, seen);
    TourParts(repo, h, m, seen, a, Served(repo, rest, seen + Elements(a)));
  }

  lemma TourParts(repo: Repository, h: Hash, m: nat, seen: set<Hash>, a: seq<Hash>, b: seq<Hash>)
    requires Acyclic(repo) && Underway(repo, h, seen, m) && m < |Parents(repo, h)|
    requires Toured(repo, Parents(repo, h)[m], a, seen) && InOrder(repo, h, a)
    requires forall x :: x in a ==> IsFirstLink(repo, h, x, m)
    requires Toured(repo, h, b, seen + Elements(a)) && StartsFrom(repo, h, b, m + 1)
    ensures Toured(repo, h, a + b, seen) && StartsFrom(repo, h, a + b, m)
  {
    forall x | x in a ensures Reachable(repo, h, x) && h != x && FirstLink(repo, h, x) >= m {
      ParentReaches(repo, h, Parents(repo, h)[m], x);
      NotItsOwnAncestor(repo, h, Parents(repo, h)[m]);
      FirstLinkIs(repo, h, x, m);
    }
    GuardedAfter(repo, a, b, seen);
    OrderedAfter(repo, h, a, b, m);
    forall x ensures x in a + b <==> Reachable(repo, h, x) && x !in seen {
      assert x in a ==> x !in seen;
    }
  }

  // Everything below h that was not served before is served, in order.
  lemma {:induction false} Tour(repo: Repository, h: Hash, seen: set<Hash>)
    requires Acyclic(repo) && h in Known(repo) && h !in seen && Guarded(repo, h, seen)
    ensures AllKnown(repo, [h]) && Toured(repo, h, Served(repo, [h], seen), seen)
    decreases ReachableFrom(repo, h), 1, 0
  {
    var ps := Parents(repo, h);
    ParentsFromKnown(repo, h, 0);
    assert ps[0..] == ps && ps + [] == ps && [h] + [] == [h];
    TourFrom(repo, h, 0, seen + {h});
    ServedNext(repo, h, [], seen);
    TourStarts(repo, h, seen, Served(repo, ps, seen + {h}));
  }

  lemma GuardedFirst(repo: Repository, h: Hash, seen: set<Hash>)
    requires Guarded(repo, h, seen)
    ensures AllGuarded(repo, [h], seen) && seen + Elements([h]) == seen + {h}
  {
    assert [h][..0] == [] && seen + Elements([]) == seen;
  }

  lemma OrderedFirst(repo: Repository, h: Hash, later: seq<Hash>)
    requires Acyclic(repo) && InOrder(repo, h, later) && StartsFrom(repo, h, later, 0)
    ensures InOrder(repo, h, [h] + later)
  {
    var all := [h] + later;
    forall x | x in later ensures Before(repo, h, h, x) {
      BeforeAllOthers(repo, h, x);
    }
    forall i, j | 0 <= i < j < |all| ensures Before(repo, h, all[i], all[j]) {
      assert all[j] == later[j - 1] && later[j - 1] in later;
      assert i > 0 ==> all[i] == later[i - 1];
    }
  }

  lemma BeforeAllOthers(repo: Repository, h: Hash, x: Hash)
    requires Acyclic(repo) && Reachable(repo, h, x) && h != x
    ensures Before(repo, h, h, x)
  {
    assert Path(repo, h, h, 0);
    FirstPathIs(repo, h, x, FirstLink(repo, h, x));
  }

  lemma TourStarts(repo: Repository, h: Hash, seen: set<Hash>, later: seq<Hash>)
    requires Acyclic(repo) && h !in seen && Guarded(repo, h, seen)
    requires Toured(repo, h, later, seen + {h}) && StartsFrom(repo, h, later, 0)
    ensures Toured(repo, h, [h] + later, seen)
  {
    assert Path(repo, h, h, 0);
    GuardedFirst(repo, h, seen);
    GuardedAfter(repo, [h], later, seen);
    OrderedFirst(repo, h, later);
    forall x ensures x in [h] + later <==> Reachable(repo, h, x) && x !in seen {
      assert x in later <==> Reachable(repo, h, x) && x !in seen + {h};
    }
  }

  // -------------------------------------------------------------------------
  // Whole runs
  // -------------------------------------------------------------------------

  // The first visits, each hash once.
  function Firsts(vs: seq<Visit>, seen: set<Hash>): seq<Hash> {
    if vs == [] then []
    else if vs[0].hash in seen then Firsts(vs[1..], seen)
    else [vs[0].hash] + Firsts(vs[1..], seen + {vs[0].hash})
  }

  lemma FirstsNext(v: Visit, later: seq<Visit>, seen: set<Hash>)
    ensures Firsts([v] + later, seen)
            == if v.hash in seen then Firsts(later, seen) else [v.hash] + Firsts(later, seen + {v.hash})
  {
    assert ([v] + later)[1..] == later;
  }

  lemma {:induction false} FirstsAreNew(repo: Repository, w: Walk)
    requires Valid(repo, w)
    ensures Firsts(Visits(repo, w), w.seen) == New(repo, w)
    decreases Known(repo) - w.seen, Waiting(w.stack)
  {
    if w.stack == [] {
      assert Upcoming(w.stack) == [];
    } else {
      VisitsNext(repo, w);
      NewNext(repo, w);
      FirstsAreNew(repo, Step(repo, w));
      FirstsNext(Current(w), Visits(repo, Step(repo, w)), w.seen);
      if Current(w).hash in w.seen {
        SeenPushesNothing(repo, w);
      }
    }
  }

  // The whole tour from the start.
  lemma StartTour(repo: Repository, start: Hash)
    requires Acyclic(repo) && start in Known(repo)
    ensures Valid(repo, Start(start)) && Toured(repo, start, New(repo, Start(start)), {})
  {
    NewOfStart(repo, start);
    Tour(repo, start, {});
  }

  // On an acyclic history, everything reachable is first served in the order of the first paths.
  lemma FirstVisitsAreInOrder(repo: Repository, start: Hash)
    requires Acyclic(repo) && start in Known(repo)
    ensures Valid(repo, Start(start))
    ensures var firsts := Firsts(Visits(repo, Start(start)), {});
            (forall x :: x in firsts <==> Reachable(repo, start, x)) && InOrder(repo, start, firsts)
  {
    StartTour(repo, start);
    FirstsAreNew(repo, Start(start));
  }

  // What was served before the k-th first visit.
  lemma BeforeIsServed(repo: Repository, start: Hash, hashes: seq<Hash>, k: nat, x: Hash)
    requires Acyclic(repo) && Toured(repo, start, hashes, {}) && k < |hashes|
    ensures x in Elements(hashes[..k]) <==> Before(repo, start, x, hashes[k])
  {
    if x in hashes[..k] {
      var i :| 0 <= i < k && hashes[..k][i] == x;
      assert hashes[i] == x;
    }
    if Before(repo, start, x, hashes[k]) {
      assert x in hashes;
      var i :| 0 <= i < |hashes| && hashes[i] == x;
      BeforeIsEarlier(repo, start, hashes, i, k);
      assert hashes[..k][i] == x;
    }
  }

  lemma BeforeIsEarlier(repo: Repository, start: Hash, hashes: seq<Hash>, i: nat, k: nat)
    requires Acyclic(repo) && InOrder(repo, start, hashes) && i < |hashes| && k < |hashes|
    requires Before(repo, start, hashes[i], hashes[k])
    ensures i < k
  {
    LexIsStrict(FirstPath(repo, start, hashes[i]), FirstPath(repo, start, hashes[k]));
  }

  // What has been served with the k-th first visit.
  lemma ServedWith(repo: Repository, start: Hash, hashes: seq<Hash>, k: nat)
    requires Acyclic(repo) && Toured(repo, start, hashes, {}) && k < |hashes|
    ensures {} + Elements(hashes[..k + 1]) == Elements(hashes[..k]) + {hashes[k]}
    ensures Guarded(repo, hashes[k], Elements(hashes[..k]))
  {
    assert hashes[..k + 1] == hashes[..k] + [hashes[k]];
    assert {} + Elements(hashes[..k]) == Elements(hashes[..k]);
  }

  // -------------------------------------------------------------------------
  // Commits that come once
  // -------------------------------------------------------------------------

  // On what h reaches, being led to through hashes yet to come is being reached and yet to come.
  lemma {:induction false} LeadsWhereGuarded(repo: Repository, h: Hash, a: Hash, b: Hash, seen: set<Hash>, n: nat)
    requires Acyclic(repo) && Guarded(repo, h, seen) && a in Parents(repo, h)
    requires Path(repo, a, b, n) && b !in seen
    ensures Leads(repo, a, b, seen + {h})
    decreases n
  {
    assert Reachable(repo, a, b);
    ParentReaches(repo, h, a, b);
    NotItsOwnAncestor(repo, h, a);
    if n == 0 {
      assert FreshPath(repo, a, a, 0, seen + {h});
    } else {
      var m :| Path(repo, a, m, n - 1) && b in Parents(repo, m);
      if m in seen {
        assert Reachable(repo, a, m);
        ParentReaches(repo, h, a, m);
      }
      LeadsWhereGuarded(repo, h, a, m, seen, n - 1);
      LeadsStep(repo, a, m, b, seen + {h});
    }
  }

  // Of the parents of h, a commit that an earlier one reaches comes before h.
  ghost predicate Untwined(repo: Repository, start: Hash, h: Hash)
    requires Acyclic(repo)
  {
    forall i, j :: 0 <= i < j < |Parents(repo, h)| && IsCommit(repo, Parents(repo, h)[j])
                   && Reachable(repo, Parents(repo, h)[i], Parents(repo, h)[j]) ==>
      Before(repo, start, Parents(repo, h)[j], h)
  }

  lemma ClearIsUntwined(repo: Repository, start: Hash, hashes: seq<Hash>, k: nat)
    requires Acyclic(repo) && Toured(repo, start, hashes, {}) && k < |hashes|
    ensures HoldsAt(hashes, {}, ClearTurn(repo), k) <==> Untwined(repo, start, hashes[k])
  {
    var h, seen := hashes[k], Elements(hashes[..k]);
    ServedWith(repo, start, hashes, k);
    forall x ensures x in seen <==> Before(repo, start, x, h) {
      BeforeIsServed(repo, start, hashes, k, x);
    }
    ClearIffUntwined(repo, start, h, seen);
  }

  lemma ClearIffUntwined(repo: Repository, start: Hash, h: Hash, seen: set<Hash>)
    requires Acyclic(repo) && Guarded(repo, h, seen) && forall x :: x in seen <==> Before(repo, start, x, h)
    ensures Clear(repo, h, seen + {h}) <==> Untwined(repo, start, h)
  {
    var ps := Parents(repo, h);
    forall i, j | 0 <= i < j < |ps|
      ensures Leads(repo, ps[i], ps[j], seen + {h}) <==> Reachable(repo, ps[i], ps[j]) && !Before(repo, start, ps[j], h)
    {
      LeadsIff(repo, h, ps[i], ps[j], seen);
    }
  }

  lemma LeadsIff(repo: Repository, h: Hash, a: Hash, b: Hash, seen: set<Hash>)
    requires Acyclic(repo) && Guarded(repo, h, seen) && a in Parents(repo, h)
    ensures Leads(repo, a, b, seen + {h}) <==> Reachable(repo, a, b) && b !in seen
  {
    if Leads(repo, a, b, seen + {h}) {
      var n: nat :| FreshPath(repo, a, b, n, seen + {h});
      FreshPathEnds(repo, a, b, n, seen + {h});
    }
    if Reachable(repo, a, b) && b !in seen {
      var n: nat :| Path(repo, a, b, n);
      LeadsWhereGuarded(repo, h, a, b, seen, n);
    }
  }

  // On an acyclic history, every commit is returned once exactly if, of the parents of each reachable
  // commit, one that an earlier parent reaches has a first path before that of the commit.
  lemma AcyclicReturnedOnceIff(repo: Repository, skip: bool, start: Hash)
    requires Acyclic(repo) && start in Known(repo)
    ensures ReturnedOnce(History(repo, skip, start))
            <==> forall h :: Reachable(repo, start, h) ==> Untwined(repo, start, h)
  {
    var w := Start(start);
    ReturnedOnceIff(repo, skip, start);
    StartTour(repo, start);
    OrderlyAlong(repo, w);
    var hashes := New(repo, w);
    AlongAt(hashes, {}, ClearTurn(repo));
    forall k | 0 <= k < |hashes| ensures HoldsAt(hashes, {}, ClearTurn(repo), k) <==> Untwined(repo, start, hashes[k]) {
      ClearIsUntwined(repo, start, hashes, k);
    }
    ForEach(hashes, h => Reachable(repo, start, h), h => Untwined(repo, start, h));
  }

  lemma ForEach(hashes: seq<Hash>, p: Hash -> bool, q: Hash -> bool)
    requires forall h :: h in hashes <==> p(h)
    ensures (forall k :: 0 <= k < |hashes| ==> q(hashes[k])) <==> forall h :: p(h) ==> q(h)
  {
    forall h | p(h) ensures exists k :: 0 <= k < |hashes| && hashes[k] == h {
      assert h in hashes;
    }
    forall k | 0 <= k < |hashes| ensures p(hashes[k]) {
      assert hashes[k] in hashes;
    }
  }

  // -------------------------------------------------------------------------
  // Distances
  // -------------------------------------------------------------------------

  // Each parent of h that is a commit lies one link further from the start, or comes before h.
  ghost predicate Spaced(repo: Repository, start: Hash, h: Hash)
    requires Acyclic(repo)
  {
    forall p, n: nat :: p in Parents(repo, h) && IsCommit(repo, p) && Shortest(repo, start, h, n) ==>
      Shortest(repo, start, p, n + 1) || Before(repo, start, p, h)
  }

  lemma FartherIsSpaced(repo: Repository, start: Hash, hashes: seq<Hash>, k: nat)
    requires Acyclic(repo) && Toured(repo, start, hashes, {}) && k < |hashes|
    ensures HoldsAt(hashes, {}, FartherTurn(repo, start), k) <==> Spaced(repo, start, hashes[k])
  {
    var h, seen := hashes[k], Elements(hashes[..k]);
    ServedWith(repo, start, hashes, k);
    forall p | p in Parents(repo, h) ensures p in seen + {h} <==> Before(repo, start, p, h) {
      BeforeIsServed(repo, start, hashes, k, p);
      NotItsOwnAncestor(repo, h, p);
      assert Path(repo, p, p, 0);
    }
  }

  // On an acyclic history, every result has its distance from the start as its index exactly if each
  // parent link from a reachable commit to a commit leads one link further or back in the order.
  lemma AcyclicLeastIndexIff(repo: Repository, skip: bool, start: Hash)
    requires Acyclic(repo) && start in Known(repo)
    ensures (forall e :: e in History(repo, skip, start) ==> LeastIndex(repo, start, e))
            <==> forall h :: Reachable(repo, start, h) ==> Spaced(repo, start, h)
  {
    var w := Start(start);
    LeastIndexIff(repo, skip, start);
    StartTour(repo, start);
    PromptAlong(repo, start, w);
    var hashes := New(repo, w);
    AlongAt(hashes, {}, FartherTurn(repo, start));
    forall k | 0 <= k < |hashes| ensures HoldsAt(hashes, {}, FartherTurn(repo, start), k) <==> Spaced(repo, start, hashes[k]) {
      FartherIsSpaced(repo, start, hashes, k);
    }
    ForEach(hashes, h => Reachable(repo, start, h), h => Spaced(repo, start, h));
  }
}
