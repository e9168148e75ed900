// When a history returns every commit with its distance from the start.

module HistoryDistances {
  import opened Objects
  import opened IndexedCommits
  import opened HistoryOnce

  // Every parent of h that is still to be served lies one link further from the start than h.
  ghost predicate Farther(repo: Repository, start: Hash, h: Hash, seen: set<Hash>) {
    forall p, n: nat :: p in Parents(repo, h) && p !in seen && IsCommit(repo, p) && Shortest(repo, start, h, n) ==>
      Shortest(repo, start, p, n + 1)
  }

  // That holds whenever a hash is served from here on.
  ghost predicate Prompt(repo: Repository, start: Hash, w: Walk)
    requires Valid(repo, w)
    decreases Known(repo) - w.seen, Waiting(w.stack)
  {
    w.stack == [] ||
    (StepKeepsValid(repo, w);
     StepDecreases(repo, w);
     Farther(repo, start, Current(w).hash, w.seen + {Current(w).hash}) && Prompt(repo, start, Step(repo, w)))
  }

  lemma {:induction false} PromptNext(repo: Repository, start: Hash, w: Walk)
    requires Valid(repo, w) && w.stack != []
    ensures Valid(repo, Step(repo, w))
    ensures Prompt(repo, start, w)
            <==> Farther(repo, start, Current(w).hash, w.seen + {Current(w).hash}) && Prompt(repo, start, Step(repo, w))
  {
    VisitsNext(repo, w);
  }

  // -------------------------------------------------------------------------
  // Frames that wait at their distance
  // -------------------------------------------------------------------------

  // Every commit that waits has its distance as the index of its frame.
  ghost predicate Timely(repo: Repository, start: Hash, stack: seq<Frame>) {
    forall l: nat, s: nat :: WaitsIn(stack, l, s) && IsCommit(repo, stack[l].hashes[s]) ==>
      Shortest(repo, start, stack[l].hashes[s], stack[l].idx)
  }

  lemma CurrentIsTimely(repo: Repository, start: Hash, w: Walk)
    requires ValidStack(w.stack) && w.stack != [] && Timely(repo, start, w.stack) && IsCommit(repo, Current(w).hash)
    ensures Shortest(repo, start, Current(w).hash, Current(w).idx)
  {
    var t := |w.stack| - 1;
    assert WaitsIn(w.stack, t, w.stack[t].pos);
  }

  lemma PushedIsTimely(repo: Repository, start: Hash, w: Walk, s: nat)
    requires ValidStack(w.stack) && w.stack != [] && Timely(repo, start, w.stack)
    requires Farther(repo, start, Current(w).hash, w.seen + {Current(w).hash})
    requires s < |Pushed(repo, w).hashes| && IsCommit(repo, Pushed(repo, w).hashes[s])
    ensures Shortest(repo, start, Pushed(repo, w).hashes[s], Current(w).idx + 1)
  {
    var h := Current(w).hash;
    UnseenHas(Parents(repo, h), w.seen + {h});
    assert Pushed(repo, w).hashes[s] in Pushed(repo, w).hashes;
    CurrentIsTimely(repo, start, w);
  }

  lemma StepKeepsTimely(repo: Repository, start: Hash, w: Walk)
    requires ValidStack(w.stack) && w.stack != [] && Timely(repo, start, w.stack)
    requires Farther(repo, start, Current(w).hash, w.seen + {Current(w).hash})
    ensures Timely(repo, start, Step(repo, w).stack)
  {
    var rest, stack := Consume(w.stack), Step(repo, w).stack;
    StepStack(repo, w);
    forall l: nat, s: nat | WaitsIn(stack, l, s) && IsCommit(repo, stack[l].hashes[s])
      ensures Shortest(repo, start, stack[l].hashes[s], stack[l].idx)
    {
      if l < |rest| {
        assert stack[l] == rest[l];
        WaitedIn(w.stack, l, s);
      } else {
        assert stack[l] == Pushed(repo, w);
        PushedIsTimely(repo, start, w, s);
      }
    }
  }

  ghost predicate AllShortest(repo: Repository, start: Hash, vs: seq<Visit>) {
    forall v :: v in vs && IsCommit(repo, v.hash) ==> Shortest(repo, start, v.hash, v.idx)
  }

  lemma {:induction false} PromptIsShortest(repo: Repository, start: Hash, w: Walk)
    requires Valid(repo, w) && Timely(repo, start, w.stack) && Prompt(repo, start, w)
    ensures AllShortest(repo, start, Visits(repo, w))
    decreases Known(repo) - w.seen, Waiting(w.stack)
  {
    if w.stack != [] {
      VisitsNext(repo, w);
      PromptNext(repo, start, w);
      StepKeepsTimely(repo, start, w);
      PromptIsShortest(repo, start, Step(repo, w));
      if IsCommit(repo, Current(w).hash) {
        CurrentIsTimely(repo, start, w);
      }
    }
  }

  // -------------------------------------------------------------------------
  // What waits is served with the index of its frame
  // -------------------------------------------------------------------------

  lemma {:induction false} WaitingKeepsIndex(repo: Repository, w: Walk, l: nat, s: nat)
    requires Valid(repo, w) && WaitsIn(w.stack, l, s)
    ensures Visit(w.stack[l].hashes[s], w.stack[l].idx) in Visits(repo, w)
    decreases Known(repo) - w.seen, Waiting(w.stack)
  {
    VisitsNext(repo, w);
    if l == |w.stack| - 1 && s == w.stack[l].pos {
      assert Current(w) == Visit(w.stack[l].hashes[s], w.stack[l].idx);
    } else {
      Stays(repo, w, l, s);
      WaitingKeepsIndex(repo, Step(repo, w), l, s);
    }
  }

  lemma PushedIsServed(repo: Repository, w: Walk, p: Hash)
    requires Valid(repo, w) && w.stack != [] && p in Parents(repo, Current(w).hash) && p !in w.seen + {Current(w).hash}
    ensures Valid(repo, Step(repo, w)) && Visit(p, Current(w).idx + 1) in Visits(repo, Step(repo, w))
  {
    StepKeepsValid(repo, w);
    var l, s := PushedWaits(repo, w, p);
    WaitingKeepsIndex(repo, Step(repo, w), l, s);
  }

  lemma PushedWaits(repo: Repository, w: Walk, p: Hash) returns (l: nat, s: nat)
    requires ValidStack(w.stack) && w.stack != []
    requires p in Parents(repo, Current(w).hash) && p !in w.seen + {Current(w).hash}
    ensures WaitsIn(Step(repo, w).stack, l, s)
    ensures Step(repo, w).stack[l].hashes[s] == p && Step(repo, w).stack[l].idx == Current(w).idx + 1
  {
    var f := Pushed(repo, w);
    StepStack(repo, w);
    UnseenHas(Parents(repo, Current(w).hash), w.seen + {Current(w).hash});
    l := |Consume(w.stack)|;
    s :| s < |f.hashes| && f.hashes[s] == p;
  }

  lemma ShortestNext(repo: Repository, start: Hash, v: Visit, later: seq<Visit>)
    requires AllShortest(repo, start, [v] + later)
    ensures IsCommit(repo, v.hash) ==> Shortest(repo, start, v.hash, v.idx)
    ensures AllShortest(repo, start, later)
  {
    assert forall u :: u == v || u in later ==> u in [v] + later;
  }

  lemma ShortestIsFarther(repo: Repository, start: Hash, w: Walk)
    requires Valid(repo, w) && w.stack != [] && Valid(repo, Step(repo, w))
    requires IsCommit(repo, Current(w).hash) ==> Shortest(repo, start, Current(w).hash, Current(w).idx)
    requires AllShortest(repo, start, Visits(repo, Step(repo, w)))
    ensures Farther(repo, start, Current(w).hash, w.seen + {Current(w).hash})
  {
    var v := Current(w);
    forall p, n: nat | p in Parents(repo, v.hash) && p !in w.seen + {v.hash} && IsCommit(repo, p)
                       && Shortest(repo, start, v.hash, n)
      ensures Shortest(repo, start, p, n + 1)
    {
      ShortestIsUnique(repo, start, v.hash, n, v.idx);
      PushedIsServed(repo, w, p);
    }
  }

  lemma {:induction false} ShortestIsPrompt(repo: Repository, start: Hash, w: Walk)
    requires Valid(repo, w) && AllShortest(repo, start, Visits(repo, w))
    ensures Prompt(repo, start, w)
    decreases Known(repo) - w.seen, Waiting(w.stack)
  {
    if w.stack != [] {
      VisitsNext(repo, w);
      ShortestNext(repo, start, Current(w), Visits(repo, Step(repo, w)));
      ShortestIsFarther(repo, start, w);
      ShortestIsPrompt(repo, start, Step(repo, w));
      PromptNext(repo, start, w);
    }
  }

  // -------------------------------------------------------------------------
  // Results
  // -------------------------------------------------------------------------

  ghost predicate LeastIndex(repo: Repository, start: Hash, e: Item) {
    e.Emit? ==> Shortest(repo, start, e.hash, e.idx)
  }

  // On any store, every result has its distance from the start as its index exactly if, whenever a hash
  // is served, its parents still to be served lie one link further from the start.
  lemma LeastIndexIff(repo: Repository, skip: bool, start: Hash)
    requires start in Known(repo)
    ensures Valid(repo, Start(start))
    ensures (forall e :: e in History(repo, skip, start) ==> LeastIndex(repo, start, e)) <==> Prompt(repo, start, Start(start))
  {
    var w, items := Start(start), History(repo, skip, start);
    StartIsValid(repo, start);
    var vs := Visits(repo, w);
    DeliverMembers(repo, skip, vs);
    if Prompt(repo, start, w) {
      assert Path(repo, start, start, 0);
      PromptIsShortest(repo, start, w);
      forall e | e in items && e.Emit? ensures LeastIndex(repo, start, e) {
        assert Emit(e.hash, e.idx) in items && Visit(e.hash, e.idx) in vs;
      }
    }
    if forall e :: e in items ==> LeastIndex(repo, start, e) {
      forall v | v in vs && IsCommit(repo, v.hash) ensures Shortest(repo, start, v.hash, v.idx) {
        assert Visit(v.hash, v.idx) in vs && Emit(v.hash, v.idx) in items;
        assert LeastIndex(repo, start, Emit(v.hash, v.idx));
      }
      ShortestIsPrompt(repo, start, w);
    }
  }

  // Every parent link from a reachable commit to a commit leads one link further from the start.
  ghost predicate Graded(repo: Repository, start: Hash) {
    forall h, p, n: nat :: p in Parents(repo, h) && IsCommit(repo, p) && Shortest(repo, start, h, n) ==>
      Shortest(repo, start, p, n + 1)
  }

  lemma {:induction false} GradedIsPrompt(repo: Repository, start: Hash, w: Walk)
    requires Valid(repo, w) && Graded(repo, start)
    ensures Prompt(repo, start, w)
    decreases Known(repo) - w.seen, Waiting(w.stack)
  {
    if w.stack != [] {
      VisitsNext(repo, w);
      PromptNext(repo, start, w);
      GradedIsPrompt(repo, start, Step(repo, w));
    }
  }

  lemma GradedHistory(repo: Repository, skip: bool, start: Hash)
    requires start in Known(repo) && Graded(repo, start)
    ensures forall e :: e in History(repo, skip, start) ==> LeastIndex(repo, start, e)
  {
    LeastIndexIff(repo, skip, start);
    GradedIsPrompt(repo, start, Start(start));
  }

  // A commit that is a parent of the start and of its first parent fails both conditions.
  lemma SharedAncestorFails(repo: Repository, a: Hash, b: Hash, c: Hash)
    requires a != b && a != c && b != c && IsCommit(repo, a) && IsCommit(repo, c)
    requires Parents(repo, a) == [b, c] && Parents(repo, b) == [c] && Parents(repo, c) == []
    ensures a in Known(repo) && Valid(repo, Start(a))
    ensures !Prompt(repo, a, Start(a)) && !Orderly(repo, Start(a))
  {
    SharedAncestorComesTwice(repo, a, b, c);
    var vs := Visits(repo, Start(a));
    assert vs[2] == Visit(c, 2) && vs[3] == Visit(c, 1);
    ServedOnceIff(repo, a);
    DeliverMembers(repo, true, vs);
    NotLeast(repo, a, c);
    LeastIndexIff(repo, true, a);
    assert Emit(c, 2) in History(repo, true, a);
  }

  lemma NotLeast(repo: Repository, a: Hash, c: Hash)
    requires c in Parents(repo, a)
    ensures !LeastIndex(repo, a, Emit(c, 2))
  {
    PathStep(repo, a, a, c, 0);
  }
}
