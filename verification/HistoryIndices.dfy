// The index a history returns a commit with.

module HistoryIndices {
  import opened Objects
  import opened IndexedCommits
  import opened HistoryOnce

  // -------------------------------------------------------------------------
  // With which index
  // -------------------------------------------------------------------------

  // The first result that has e as a parent has an index smaller by one.
  ghost predicate FollowsChild(repo: Repository, items: seq<Item>, e: Item) {
    exists m :: FirstChild(repo, items, e, m)
  }

  ghost predicate FirstChild(repo: Repository, items: seq<Item>, e: Item, m: int) {
    && e.Emit? && 0 <= m < |items| && items[m].Emit?
    && e.hash in Parents(repo, items[m].hash) && e.idx == items[m].idx + 1
    && forall l :: 0 <= l < m && items[l].Emit? ==> e.hash !in Parents(repo, items[l].hash)
  }

  lemma FollowsChildAppend(repo: Repository, items: seq<Item>, more: seq<Item>, e: Item)
    requires FollowsChild(repo, items, e)
    ensures FollowsChild(repo, items + more, e)
  {
    var m :| FirstChild(repo, items, e, m);
    assert FirstChild(repo, items + more, e, m);
  }

  // Every commit that waits has the index of the frame it waits in.
  ghost predicate Dated(repo: Repository, done: seq<Item>, stack: seq<Frame>) {
    forall l: nat, s: nat :: WaitsIn(stack, l, s) && IsCommit(repo, stack[l].hashes[s]) ==>
      FollowsChild(repo, done, Emit(stack[l].hashes[s], stack[l].idx))
  }

  lemma ParentWaits(repo: Repository, w: Walk, c: Hash, p: Hash) returns (j: nat, r: nat)
    requires Valid(repo, w) && c in w.seen && p in Parents(repo, c) && p !in w.seen
    ensures WaitsIn(w.stack, j, r) && w.stack[j].hashes[r] == p
  {
    j :| WaitsAt(w.stack, c, p, j);
    var i :| 0 <= i < |Pending(w.stack[j])| && Pending(w.stack[j])[i] == p;
    r := w.stack[j].pos + i;
  }

  // A commit that is pushed was no parent of anything served before.
  lemma PushedIsNew(repo: Repository, w: Walk, bases: seq<set<Hash>>, c: Hash, s: nat)
    requires Valid(repo, w) && Layered(repo, w, bases) && w.stack != []
    requires Clear(repo, Current(w).hash, w.seen + {Current(w).hash})
    requires c in w.seen && s < |Pushed(repo, w).hashes| && IsCommit(repo, Pushed(repo, w).hashes[s])
    ensures Pushed(repo, w).hashes[s] !in Parents(repo, c)
  {
    var p, next := Pushed(repo, w).hashes[s], Step(repo, w);
    UnseenHas(Parents(repo, Current(w).hash), w.seen + {Current(w).hash});
    assert p in Pushed(repo, w).hashes;
    if p in Parents(repo, c) {
      var j, r := ParentWaits(repo, w, c, p);
      Stays(repo, w, j, r);
      StepStack(repo, w);
      StepKeepsLayered(repo, w, bases);
      WaitsOnce(repo, next, NextBases(repo, w, bases), j, r, |Consume(w.stack)|, s);
    }
  }

  lemma PushedFollows(repo: Repository, w: Walk, bases: seq<set<Hash>>, done: seq<Item>, s: nat)
    requires Valid(repo, w) && Layered(repo, w, bases) && w.stack != []
    requires Clear(repo, Current(w).hash, w.seen + {Current(w).hash})
    requires Hashes(done) <= w.seen
    requires s < |Pushed(repo, w).hashes| && IsCommit(repo, Pushed(repo, w).hashes[s])
    ensures FollowsChild(repo, done + [Emit(Current(w).hash, Current(w).idx)],
                         Emit(Pushed(repo, w).hashes[s], Current(w).idx + 1))
  {
    var e, items := Emit(Pushed(repo, w).hashes[s], Current(w).idx + 1), done + [Emit(Current(w).hash, Current(w).idx)];
    UnseenHas(Parents(repo, Current(w).hash), w.seen + {Current(w).hash});
    assert e.hash in Pushed(repo, w).hashes;
    forall l | 0 <= l < |done| && done[l].Emit? ensures e.hash !in Parents(repo, done[l].hash) {
      assert done[l].hash in Hashes(done);
      PushedIsNew(repo, w, bases, done[l].hash, s);
    }
    assert FirstChild(repo, items, e, |done|);
  }

  // What one step adds to the results.
  function Returned(repo: Repository, skip: bool, v: Visit): seq<Item> {
    if IsCommit(repo, v.hash) then [Emit(v.hash, v.idx)] else if skip then [] else [Fail]
  }

  lemma DatedStays(repo: Repository, stack: seq<Frame>, done: seq<Item>, more: seq<Item>, l: nat, s: nat)
    requires ValidStack(stack) && stack != [] && Dated(repo, done, stack)
    requires WaitsIn(Consume(stack), l, s) && IsCommit(repo, Consume(stack)[l].hashes[s])
    ensures FollowsChild(repo, done + more, Emit(Consume(stack)[l].hashes[s], Consume(stack)[l].idx))
  {
    WaitedIn(stack, l, s);
    FollowsChildAppend(repo, done, more, Emit(stack[l].hashes[s], stack[l].idx));
  }

  lemma StepKeepsDated(repo: Repository, skip: bool, w: Walk, bases: seq<set<Hash>>, done: seq<Item>)
    requires Valid(repo, w) && Layered(repo, w, bases) && w.stack != []
    requires Clear(repo, Current(w).hash, w.seen + {Current(w).hash})
    requires Hashes(done) <= w.seen && Dated(repo, done, w.stack)
    ensures Dated(repo, done + Returned(repo, skip, Current(w)), Step(repo, w).stack)
  {
    var more, rest, stack := Returned(repo, skip, Current(w)), Consume(w.stack), Step(repo, w).stack;
    StepStack(repo, w);
    forall l: nat, s: nat | WaitsIn(stack, l, s) && IsCommit(repo, stack[l].hashes[s])
      ensures FollowsChild(repo, done + more, Emit(stack[l].hashes[s], stack[l].idx))
    {
      if l < |rest| {
        DatedStays(repo, w.stack, done, more, l, s);
        assert stack[l] == rest[l];
      } else {
        assert stack[l] == Pushed(repo, w);
        assert stack[l].hashes[s] in Pushed(repo, w).hashes;
        PushedFollows(repo, w, bases, done, s);
      }
    }
  }

  // Each of the later results follows its first child.
  ghost predicate AllFollow(repo: Repository, done: seq<Item>, later: seq<Item>) {
    forall n :: 0 <= n < |later| && later[n].Emit? ==> FollowsChild(repo, done + later[..n], later[n])
  }

  lemma AllFollowAfter(repo: Repository, done: seq<Item>, now: seq<Item>, later: seq<Item>)
    requires AllFollow(repo, done + now, later) && AllFollow(repo, done, now)
    ensures AllFollow(repo, done, now + later)
  {
    var all := now + later;
    forall n | 0 <= n < |all| && all[n].Emit? ensures FollowsChild(repo, done + all[..n], all[n]) {
      if n < |now| {
        assert all[..n] == now[..n];
      } else {
        assert done + all[..n] == done + now + later[..n - |now|];
      }
    }
  }

  lemma StepKeepsRun(repo: Repository, skip: bool, w: Walk, bases: seq<set<Hash>>, done: seq<Item>)
    requires Valid(repo, w) && Layered(repo, w, bases) && w.stack != []
    requires Clear(repo, Current(w).hash, w.seen + {Current(w).hash})
    requires Hashes(done) <= w.seen && Dated(repo, done, w.stack)
    ensures Layered(repo, Step(repo, w), NextBases(repo, w, bases))
    ensures var all := done + Returned(repo, skip, Current(w));
            Hashes(all) <= Step(repo, w).seen && Dated(repo, all, Step(repo, w).stack)
  {
    StepKeepsDated(repo, skip, w, bases, done);
    StepKeepsLayered(repo, w, bases);
    HashesAppend(done, Returned(repo, skip, Current(w)));
  }

  lemma {:induction false} RunFollows(repo: Repository, skip: bool, w: Walk, bases: seq<set<Hash>>, done: seq<Item>)
    requires Valid(repo, w) && Layered(repo, w, bases) && Orderly(repo, w)
    requires Hashes(done) <= w.seen && Dated(repo, done, w.stack)
    ensures AllFollow(repo, done, Deliver(repo, skip, Visits(repo, w)))
    decreases Known(repo) - w.seen, Waiting(w.stack)
  {
    if w.stack != [] {
      var now := Returned(repo, skip, Current(w));
      VisitsNext(repo, w);
      StepKeepsRun(repo, skip, w, bases, done);
      RunFollows(repo, skip, Step(repo, w), NextBases(repo, w, bases), done + now);
      NowFollows(repo, skip, w, done);
      AllFollowAfter(repo, done, now, Deliver(repo, skip, Visits(repo, Step(repo, w))));
      TurnReturns(repo, skip, w);
    }
  }

  lemma HashesAppend(items: seq<Item>, more: seq<Item>)
    ensures Hashes(items + more) == Hashes(items) + Hashes(more)
  {}

  lemma TurnReturns(repo: Repository, skip: bool, w: Walk)
    requires Valid(repo, w) && w.stack != []
    ensures Valid(repo, Step(repo, w))
    ensures Deliver(repo, skip, Visits(repo, w))
            == Returned(repo, skip, Current(w)) + Deliver(repo, skip, Visits(repo, Step(repo, w)))
  {
    TurnTakesFront(repo, skip, w);
    var later := Deliver(repo, skip, Visits(repo, Step(repo, w)));
    assert [] + later == later;
  }

  lemma NowFollows(repo: Repository, skip: bool, w: Walk, done: seq<Item>)
    requires ValidStack(w.stack) && w.stack != [] && Dated(repo, done, w.stack)
    ensures AllFollow(repo, done, Returned(repo, skip, Current(w)))
  {
    var t, now := |w.stack| - 1, Returned(repo, skip, Current(w));
    assert WaitsIn(w.stack, t, w.stack[t].pos);
    assert done + now[..0] == done;
  }

  // -------------------------------------------------------------------------
  // Whole runs
  // -------------------------------------------------------------------------

  lemma ParentsFollowStart(repo: Repository, start: Hash)
    requires IsCommit(repo, start) && start in Known(repo)
    ensures Dated(repo, [Emit(start, 0)], Step(repo, Start(start)).stack)
  {
    var w := Start(start);
    var stack := Step(repo, w).stack;
    StepStack(repo, w);
    UnseenHas(Parents(repo, start), w.seen + {start});
    forall l: nat, s: nat | WaitsIn(stack, l, s) && IsCommit(repo, stack[l].hashes[s])
      ensures FollowsChild(repo, [Emit(start, 0)], Emit(stack[l].hashes[s], stack[l].idx))
    {
      assert stack == [Pushed(repo, w)] && stack[l].hashes[s] in Pushed(repo, w).hashes;
      assert FirstChild(repo, [Emit(start, 0)], Emit(stack[l].hashes[s], 1), 0);
    }
  }

  lemma {:induction false} OrderlyNext(repo: Repository, w: Walk)
    requires Valid(repo, w) && Orderly(repo, w) && w.stack != []
    ensures Valid(repo, Step(repo, w)) && Orderly(repo, Step(repo, w))
    ensures Clear(repo, Current(w).hash, w.seen + {Current(w).hash})
  {
    VisitsNext(repo, w);
  }

  lemma RunFollowsStart(repo: Repository, skip: bool, start: Hash)
    requires IsCommit(repo, start) && start in Known(repo) && Valid(repo, Start(start)) && Orderly(repo, Start(start))
    ensures Valid(repo, Step(repo, Start(start)))
    ensures AllFollow(repo, [Emit(start, 0)], Deliver(repo, skip, Visits(repo, Step(repo, Start(start)))))
  {
    var w := Start(start);
    OrderlyNext(repo, w);
    StartIsLayered(repo, start);
    StepKeepsLayered(repo, w, [{}]);
    ParentsFollowStart(repo, start);
    assert Hashes([Emit(start, 0)]) == {start};
    RunFollows(repo, skip, Step(repo, w), NextBases(repo, w, [{}]), [Emit(start, 0)]);
  }

  // Each result but the first follows its first child.
  ghost predicate Following(repo: Repository, items: seq<Item>) {
    forall n :: 1 <= n < |items| && items[n].Emit? ==> FollowsChild(repo, items[..n], items[n])
  }

  lemma FollowingAfter(repo: Repository, first: Item, later: seq<Item>)
    requires AllFollow(repo, [first], later)
    ensures Following(repo, [first] + later)
  {
    var items := [first] + later;
    forall n | 1 <= n < |items| && items[n].Emit? ensures FollowsChild(repo, items[..n], items[n]) {
      assert items[n] == later[n - 1] && items[..n] == [first] + later[..n - 1];
    }
  }

  // When every commit is returned once, each but the start follows its first child.
  lemma IndexFollowsChild(repo: Repository, skip: bool, start: Hash)
    requires IsCommit(repo, start)
    ensures start in Known(repo)
    ensures var items := History(repo, skip, start); ReturnedOnce(items) ==> Following(repo, items)
  {
    var w := Start(start);
    ServedOnceIff(repo, start);
    ReturnedOnceIsServedOnce(repo, skip, Visits(repo, w));
    if ReturnedOnce(History(repo, skip, start)) {
      RunFollowsStart(repo, skip, start);
      TurnReturns(repo, skip, w);
      FollowingAfter(repo, Emit(start, 0), Deliver(repo, skip, Visits(repo, Step(repo, w))));
    }
  }

  // No commit among the parents of h can be reached from an earlier parent.
  ghost predicate Diverges(repo: Repository, h: Hash) {
    forall i, j :: 0 <= i < j < |Parents(repo, h)| && IsCommit(repo, Parents(repo, h)[j]) ==>
      !Reachable(repo, Parents(repo, h)[i], Parents(repo, h)[j])
  }

  ghost predicate ReturnedAt(items: seq<Item>, h: Hash, n: int) {
    0 <= n < |items| && items[n].Emit? && items[n].hash == h
  }

  lemma DivergesIsClear(repo: Repository, h: Hash, seen: set<Hash>)
    requires Diverges(repo, h)
    ensures Clear(repo, h, seen)
  {
    var ps := Parents(repo, h);
    forall i, j | 0 <= i < j < |ps| && IsCommit(repo, ps[j]) ensures !Leads(repo, ps[i], ps[j], seen) {
      if n: nat :| FreshPath(repo, ps[i], ps[j], n, seen) {
        FreshPathEnds(repo, ps[i], ps[j], n, seen);
      }
    }
  }

  lemma DivergingIsReturnedOnce(repo: Repository, skip: bool, start: Hash)
    requires start in Known(repo)
    requires forall h :: Reachable(repo, start, h) ==> Diverges(repo, h)
    ensures ReturnedOnce(History(repo, skip, start))
  {
    var items := History(repo, skip, start);
    HistoryIsExact(repo, skip, start);
    CommitsComeOnceIff(repo, skip, start);
    forall n | 0 <= n < |items| ensures ClearAt(repo, items, n, {}) {
      if items[n].Emit? {
        assert Emit(items[n].hash, items[n].idx) in items;
        DivergesIsClear(repo, items[n].hash, {} + Hashes(items[..n + 1]));
      }
    }
  }

  // Where histories part at every merge, each reachable commit is returned at exactly one place, with
  // an index one above that of the first result it is a parent of.
  lemma DivergingHistory(repo: Repository, skip: bool, start: Hash)
    requires IsCommit(repo, start)
    requires forall h :: Reachable(repo, start, h) ==> Diverges(repo, h)
    ensures start in Known(repo)
    ensures var items := History(repo, skip, start);
            && (forall h :: Reachable(repo, start, h) && IsCommit(repo, h) ==>
                  exists n :: ReturnedAt(items, h, n) && forall m :: ReturnedAt(items, h, m) ==> m == n)
            && Following(repo, items)
  {
    DivergingIsReturnedOnce(repo, skip, start);
    IndexFollowsChild(repo, skip, start);
    HistoryIsExact(repo, skip, start);
    var items := History(repo, skip, start);
    forall h | Reachable(repo, start, h) && IsCommit(repo, h)
      ensures exists n :: ReturnedAt(items, h, n) && forall m :: ReturnedAt(items, h, m) ==> m == n
    {
      var i: nat :| Emit(h, i) in items;
      var n :| 0 <= n < |items| && items[n] == Emit(h, i);
      assert ReturnedAt(items, h, n);
    }
  }

  // -------------------------------------------------------------------------
  // Linear histories
  // -------------------------------------------------------------------------

  ghost predicate Linear(repo: Repository, items: seq<Item>) {
    forall i :: 0 <= i < |items| ==> items[i].Emit? && |Parents(repo, items[i].hash)| <= 1
  }

  lemma OnlyChild(repo: Repository, items: seq<Item>, n: nat) returns (m: nat)
    requires 1 <= n < |items| && Linear(repo, items) && Following(repo, items)
    ensures m < n && Parents(repo, items[m].hash) == [items[n].hash] && items[n].idx == items[m].idx + 1
  {
    assert FollowsChild(repo, items[..n], items[n]);
    m :| FirstChild(repo, items[..n], items[n], m);
  }

  // On distinct results without a second parent, the child of each is the result before it.
  lemma {:induction false} ChildIsBefore(repo: Repository, items: seq<Item>, n: nat)
    requires 1 <= n < |items| && Linear(repo, items) && Following(repo, items) && ReturnedOnce(items)
    requires items[0].idx == 0
    ensures items[n].idx == n && items[n - 1].idx == n - 1 && Parents(repo, items[n - 1].hash) == [items[n].hash]
    decreases n
  {
    var m := OnlyChild(repo, items, n);
    if m < n - 1 {
      ChildIsBefore(repo, items, m + 1);
      assert false;
    }
    if n > 1 {
      ChildIsBefore(repo, items, n - 1);
    }
  }

  lemma LinearIsDiverging(repo: Repository, start: Hash)
    requires IsCommit(repo, start) && start in Known(repo)
    requires forall h :: Reachable(repo, start, h) ==> |Parents(repo, h)| <= 1
    ensures Linear(repo, History(repo, true, start)) && ReturnedOnce(History(repo, true, start))
  {
    HistoryIsExact(repo, true, start);
    DivergingIsReturnedOnce(repo, true, start);
    var items := History(repo, true, start);
    forall n | 0 <= n < |items| ensures items[n].Emit? && |Parents(repo, items[n].hash)| <= 1 {
      assert items[n] in items;
      assert Emit(items[n].hash, items[n].idx) in items;
    }
  }

  // On a linear history the n-th result is n parent links away, and the only parent of the one before.
  lemma LinearHistory(repo: Repository, start: Hash)
    requires IsCommit(repo, start)
    requires forall h :: Reachable(repo, start, h) ==> |Parents(repo, h)| <= 1
    ensures start in Known(repo)
    ensures var items := History(repo, true, start);
            && (forall n :: 0 <= n < |items| ==> items[n].Emit? && items[n].idx == n)
            && (forall n :: 1 <= n < |items| ==> Parents(repo, items[n - 1].hash) == [items[n].hash])
  {
    HistoryStartsOnce(repo, true, start);
    IndexFollowsChild(repo, true, start);
    LinearIsDiverging(repo, start);
    var items := History(repo, true, start);
    forall n | 1 <= n < |items| ensures items[n].idx == n && Parents(repo, items[n - 1].hash) == [items[n].hash] {
      ChildIsBefore(repo, items, n);
    }
  }
}
