// The history of one reference: the walk over a stack of frames behind the table ref_commits.

module IndexedCommits {
  import opened Objects

  // `idx` counts parent links from the start commit; `pos` is the next hash to serve.
  datatype Frame = Frame(idx: nat, pos: nat, hashes: seq<Hash>)

  datatype Walk = Walk(stack: seq<Frame>, seen: set<Hash>)

  // One turn of the walk takes one hash off the stack, whether or not it names a commit.
  datatype Visit = Visit(hash: Hash, idx: nat)

  function Start(start: Hash): Walk {
    Walk([Frame(0, 0, [start])], {})
  }

  function Unseen(hashes: seq<Hash>, seen: set<Hash>): (r: seq<Hash>)
    ensures |r| <= |hashes|
  {
    if hashes == [] then []
    else
      var last := hashes[|hashes| - 1];
      Unseen(hashes[..|hashes| - 1], seen) + if last in seen then [] else [last]
  }

  lemma {:induction false} UnseenHas(hashes: seq<Hash>, seen: set<Hash>)
    ensures forall h :: h in Unseen(hashes, seen) <==> h in hashes && h !in seen
    decreases |hashes|
  {
    if hashes != [] {
      UnseenHas(hashes[..|hashes| - 1], seen);
    }
  }

  function Pending(f: Frame): seq<Hash> {
    if f.pos <= |f.hashes| then f.hashes[f.pos..] else []
  }

  function Current(w: Walk): Visit
    requires ValidStack(w.stack) && w.stack != []
  {
    var top := w.stack[|w.stack| - 1];
    Visit(top.hashes[top.pos], top.idx)
  }

  // Serves the current hash: the frame moves on and is dropped once it is used up.
  function Consume(stack: seq<Frame>): seq<Frame>
    requires ValidStack(stack) && stack != []
  {
    var top := stack[|stack| - 1];
    var below := stack[..|stack| - 1];
    if top.pos + 1 >= |top.hashes| then below else below + [top.(pos := top.pos + 1)]
  }

  // One turn: mark, consume, and push the parents that have not been seen.
  function Step(repo: Repository, w: Walk): Walk
    requires ValidStack(w.stack) && w.stack != []
  {
    var v := Current(w);
    var seen := w.seen + {v.hash};
    var rest := Consume(w.stack);
    var unseen := Unseen(Parents(repo, v.hash), seen);
    Walk(if unseen == [] then rest else rest + [Frame(v.idx + 1, 0, unseen)], seen)
  }

  // -------------------------------------------------------------------------
  // The invariant that ends the walk
  // -------------------------------------------------------------------------

  ghost predicate ValidStack(stack: seq<Frame>) {
    forall f :: f in stack ==> f.pos < |f.hashes|
  }

  // p waits in frame j, and s waits neither there nor above.
  ghost predicate WaitsAt(stack: seq<Frame>, s: Hash, p: Hash, j: nat) {
    j < |stack| && p in Pending(stack[j]) && forall i :: j <= i < |stack| ==> s !in Pending(stack[i])
  }

  // p waits in a frame strictly above every frame in which s waits.
  ghost predicate WaitsAbove(stack: seq<Frame>, s: Hash, p: Hash) {
    exists j: nat :: WaitsAt(stack, s, p, j)
  }

  ghost predicate Valid(repo: Repository, w: Walk) {
    && ValidStack(w.stack)
    && (forall f, h :: f in w.stack && h in f.hashes ==> h in Known(repo))
    && (forall s, p :: s in w.seen && p in Parents(repo, s) && p !in w.seen ==> WaitsAbove(w.stack, s, p))
  }

  lemma StartIsValid(repo: Repository, start: Hash)
    requires start in Known(repo)
    ensures Valid(repo, Start(start))
  {}

  // Serving an already seen commit pushes nothing: its unseen parents would have to wait above the
  // top of the stack.
  lemma SeenPushesNothing(repo: Repository, w: Walk)
    requires Valid(repo, w) && w.stack != [] && Current(w).hash in w.seen
    ensures Step(repo, w) == Walk(Consume(w.stack), w.seen)
  {
    var h := Current(w).hash;
    assert h == Pending(w.stack[|w.stack| - 1])[0];
    assert w.seen + {h} == w.seen;
    forall p | p in Parents(repo, h) ensures p in w.seen {
      NothingWaitsAboveTop(w.stack, h, p);
    }
    NoneUnseen(Parents(repo, h), w.seen);
  }

  lemma NothingWaitsAboveTop(stack: seq<Frame>, s: Hash, p: Hash)
    requires stack != [] && s in Pending(stack[|stack| - 1])
    ensures !WaitsAbove(stack, s, p)
  {}

  lemma {:induction false} NoneUnseen(hashes: seq<Hash>, seen: set<Hash>)
    requires forall h :: h in hashes ==> h in seen
    ensures Unseen(hashes, seen) == []
    decreases |hashes|
  {
    if hashes != [] {
      NoneUnseen(hashes[..|hashes| - 1], seen);
    }
  }

  lemma ConsumeKeeps(stack: seq<Frame>)
    requires ValidStack(stack) && stack != []
    ensures ValidStack(Consume(stack))
    ensures forall i :: 0 <= i < |stack| - 1 ==> i < |Consume(stack)| && Consume(stack)[i] == stack[i]
    ensures |stack| - 1 <= |Consume(stack)| <= |stack|
    ensures var top := stack[|stack| - 1];
            Pending(top) == [top.hashes[top.pos]] + Pending(top)[1..]
            && (if |Consume(stack)| == |stack| then
                  var top' := Consume(stack)[|stack| - 1];
                  top'.hashes == top.hashes && top'.idx == top.idx && Pending(top') == Pending(top)[1..]
                else Pending(top)[1..] == [])
  {}

  lemma ConsumeWaits(stack: seq<Frame>, s: Hash, p: Hash, j: nat)
    requires ValidStack(stack) && stack != []
    requires WaitsAt(stack, s, p, j)
    requires var top := stack[|stack| - 1]; p != top.hashes[top.pos]
    ensures WaitsAt(Consume(stack), s, p, j)
  {
    ConsumeKeeps(stack);
    var rest := Consume(stack);
    var top := |stack| - 1;
    forall i | j <= i < |rest| ensures s !in Pending(rest[i]) {
      assert s !in Pending(stack[i]);
    }
  }

  lemma PushWaits(stack: seq<Frame>, f: Frame, s: Hash, p: Hash, j: nat)
    requires WaitsAt(stack, s, p, j) && s !in Pending(f)
    ensures WaitsAt(stack + [f], s, p, j)
  {}

  // The current commit waits nowhere in what is pushed for it, and its unseen parents all do.
  lemma PushedWait(repo: Repository, w: Walk, p: Hash)
    requires ValidStack(w.stack) && w.stack != []
    requires p in Parents(repo, Current(w).hash) && p !in Step(repo, w).seen
    ensures WaitsAbove(Step(repo, w).stack, Current(w).hash, p)
  {
    var next, rest := Step(repo, w), Consume(w.stack);
    ConsumeKeeps(w.stack);
    UnseenHas(Parents(repo, Current(w).hash), w.seen + {Current(w).hash});
    var pushed := next.stack[|rest|];
    assert pushed.pos == 0 && Pending(pushed) == pushed.hashes;
    assert WaitsAt(next.stack, Current(w).hash, p, |rest|);
  }

  // What one step leaves on the stack: what was there, and the frame pushed if there is one.
  lemma StepPushes(repo: Repository, w: Walk)
    requires ValidStack(w.stack) && w.stack != []
    ensures Step(repo, w).stack == Consume(w.stack)
            || exists f :: Step(repo, w).stack == Consume(w.stack) + [f] && forall h :: h in Pending(f) ==> h !in w.seen
  {
    var v := Current(w);
    var f := Frame(v.idx + 1, 0, Unseen(Parents(repo, v.hash), w.seen + {v.hash}));
    UnseenHas(Parents(repo, v.hash), w.seen + {v.hash});
    assert Pending(f) == f.hashes;
    if f.hashes != [] {
      assert Step(repo, w).stack == Consume(w.stack) + [f];
    }
  }

  lemma StillWaits(repo: Repository, w: Walk, s: Hash, p: Hash, j: nat)
    requires ValidStack(w.stack) && w.stack != [] && WaitsAt(w.stack, s, p, j)
    requires s in w.seen && p !in Step(repo, w).seen
    ensures WaitsAt(Step(repo, w).stack, s, p, j)
  {
    StepPushes(repo, w);
    ConsumeWaits(w.stack, s, p, j);
    if Step(repo, w).stack != Consume(w.stack) {
      var f :| Step(repo, w).stack == Consume(w.stack) + [f] && forall h :: h in Pending(f) ==> h !in w.seen;
      PushWaits(Consume(w.stack), f, s, p, j);
    }
  }

  lemma StepWaits(repo: Repository, w: Walk, s: Hash, p: Hash)
    requires Valid(repo, w) && w.stack != []
    requires var next := Step(repo, w); s in next.seen && p in Parents(repo, s) && p !in next.seen
    ensures WaitsAbove(Step(repo, w).stack, s, p)
  {
    if s == Current(w).hash {
      PushedWait(repo, w, p);
    } else {
      var j: nat :| WaitsAt(w.stack, s, p, j);
      StillWaits(repo, w, s, p, j);
    }
  }

  lemma StepKeepsFrames(repo: Repository, w: Walk)
    requires Valid(repo, w) && w.stack != []
    ensures ValidStack(Step(repo, w).stack)
    ensures forall f, x :: f in Step(repo, w).stack && x in f.hashes ==> x in Known(repo)
  {
    ConsumeKeeps(w.stack);
    UnseenHas(Parents(repo, Current(w).hash), w.seen + {Current(w).hash});
    forall f, x | f in Step(repo, w).stack && x in f.hashes ensures x in Known(repo) {
      StepFrame(repo, w, f);
      if x in Parents(repo, Current(w).hash) {
        ParentsAreKnown(repo, Current(w).hash, x);
      }
    }
  }

  lemma StepKeepsValid(repo: Repository, w: Walk)
    requires Valid(repo, w) && w.stack != []
    ensures Valid(repo, Step(repo, w))
  {
    StepKeepsFrames(repo, w);
    var next := Step(repo, w);
    forall s, p | s in next.seen && p in Parents(repo, s) && p !in next.seen
      ensures WaitsAbove(next.stack, s, p)
    {
      StepWaits(repo, w, s, p);
    }
  }

  function Waiting(stack: seq<Frame>): nat {
    if stack == [] then 0 else Waiting(stack[..|stack| - 1]) + |Pending(stack[|stack| - 1])|
  }

  lemma ConsumeWaiting(stack: seq<Frame>)
    requires ValidStack(stack) && stack != []
    ensures Waiting(Consume(stack)) == Waiting(stack) - 1
  {
    var top := stack[|stack| - 1];
    if top.pos + 1 < |top.hashes| {
      assert Consume(stack)[..|stack| - 1] == stack[..|stack| - 1];
    }
  }

  // Each turn either meets a new hash or leaves one hash fewer on the stack.
  lemma StepDecreases(repo: Repository, w: Walk)
    requires Valid(repo, w) && w.stack != []
    ensures var next := Step(repo, w);
            || Known(repo) - next.seen < Known(repo) - w.seen
            || (next.seen == w.seen && Waiting(next.stack) < Waiting(w.stack))
  {
    var h := Current(w).hash;
    if h in w.seen {
      SeenPushesNothing(repo, w);
      ConsumeWaiting(w.stack);
    } else {
      var top := w.stack[|w.stack| - 1];
      assert top in w.stack && h in top.hashes;
      assert h in Known(repo) - w.seen;
    }
  }

  // Everything the walk serves from here on, in order. The walk ends on any store, cycles included.
  function Visits(repo: Repository, w: Walk): seq<Visit>
    requires Valid(repo, w)
    decreases Known(repo) - w.seen, Waiting(w.stack)
  {
    if w.stack == [] then []
    else
      StepKeepsValid(repo, w);
      StepDecreases(repo, w);
      [Current(w)] + Visits(repo, Step(repo, w))
  }

  // -------------------------------------------------------------------------
  // What a whole run serves
  // -------------------------------------------------------------------------

  ghost predicate OnPath(repo: Repository, start: Hash, f: Frame) {
    forall h :: h in f.hashes ==> Path(repo, start, h, f.idx)
  }

  // A frame of the next stack was there before, possibly one position back, or was just pushed.
  lemma StepFrame(repo: Repository, w: Walk, f: Frame)
    requires ValidStack(w.stack) && w.stack != [] && f in Step(repo, w).stack
    ensures var v := Current(w);
            || f == Frame(v.idx + 1, 0, Unseen(Parents(repo, v.hash), w.seen + {v.hash}))
            || exists g :: g in w.stack && f.idx == g.idx && f.hashes == g.hashes
                           && forall h :: h in Pending(f) ==> h in Pending(g)
  {
    ConsumeKeeps(w.stack);
    var rest := Consume(w.stack);
    if f in rest {
      var i :| 0 <= i < |rest| && rest[i] == f;
      assert w.stack[i] in w.stack;
    }
  }

  lemma StepOnPath(repo: Repository, start: Hash, w: Walk)
    requires Valid(repo, w) && w.stack != []
    requires forall f :: f in w.stack ==> OnPath(repo, start, f)
    ensures Path(repo, start, Current(w).hash, Current(w).idx)
    ensures forall f :: f in Step(repo, w).stack ==> OnPath(repo, start, f)
  {
    var v := Current(w);
    UnseenHas(Parents(repo, v.hash), w.seen + {v.hash});
    assert OnPath(repo, start, w.stack[|w.stack| - 1]);
    forall f | f in Step(repo, w).stack ensures OnPath(repo, start, f) {
      StepFrame(repo, w, f);
      if f.hashes == Unseen(Parents(repo, v.hash), w.seen + {v.hash}) && f.idx == v.idx + 1 {
        forall h | h in f.hashes ensures Path(repo, start, h, f.idx) {
          PathStep(repo, start, v.hash, h, v.idx);
        }
      }
    }
  }

  // Every hash is served with the length of some parent path that leads to it.
  lemma {:induction false} VisitsFollowPaths(repo: Repository, start: Hash, w: Walk)
    requires Valid(repo, w)
    requires forall f :: f in w.stack ==> OnPath(repo, start, f)
    ensures forall v :: v in Visits(repo, w) ==> Path(repo, start, v.hash, v.idx)
    decreases Known(repo) - w.seen, Waiting(w.stack)
  {
    if w.stack != [] {
      StepKeepsValid(repo, w);
      StepDecreases(repo, w);
      StepOnPath(repo, start, w);
      VisitsFollowPaths(repo, start, Step(repo, w));
    }
  }

  // What has been or will be served.
  ghost function Met(repo: Repository, w: Walk): iset<Hash>
    requires Valid(repo, w)
  {
    iset h | h in w.seen || exists i: nat :: Visit(h, i) in Visits(repo, w)
  }

  lemma StepKeepsMet(repo: Repository, w: Walk)
    requires Valid(repo, w) && w.stack != []
    ensures Valid(repo, Step(repo, w))
    ensures Met(repo, Step(repo, w)) == Met(repo, w)
  {
    StepKeepsValid(repo, w);
    StepDecreases(repo, w);
    var v := Current(w);
    var later := Visits(repo, Step(repo, w));
    assert Visits(repo, w) == [v] + later;
    forall h ensures h in Met(repo, Step(repo, w)) <==> h in Met(repo, w) {
      if h == v.hash {
        assert Visit(h, v.idx) in Visits(repo, w);
      } else {
        assert forall i: nat :: Visit(h, i) in Visits(repo, w) <==> Visit(h, i) in later;
      }
    }
  }

  // At the end of a run nothing a served commit points at is left out.
  lemma {:induction false} MetIsClosed(repo: Repository, w: Walk)
    requires Valid(repo, w)
    ensures Closed(repo, Met(repo, w))
    decreases Known(repo) - w.seen, Waiting(w.stack)
  {
    if w.stack == [] {
      forall s, p | s in Met(repo, w) && p in Parents(repo, s) ensures p in Met(repo, w) {
        if p !in w.seen {
          assert false;
        }
      }
    } else {
      StepKeepsValid(repo, w);
      StepDecreases(repo, w);
      StepKeepsMet(repo, w);
      MetIsClosed(repo, Step(repo, w));
    }
  }

  lemma VisitsReachable(repo: Repository, start: Hash)
    requires start in Known(repo)
    ensures Valid(repo, Start(start))
    ensures forall v :: v in Visits(repo, Start(start)) ==> Path(repo, start, v.hash, v.idx)
    ensures forall h :: Reachable(repo, start, h) ==> exists i: nat :: Visit(h, i) in Visits(repo, Start(start))
  {
    var w := Start(start);
    StartIsValid(repo, start);
    assert OnPath(repo, start, w.stack[0]);
    VisitsFollowPaths(repo, start, w);
    MetIsClosed(repo, w);
    StepKeepsValid(repo, w);
    StepDecreases(repo, w);
    assert Visits(repo, w)[0] == Visit(start, 0);
    assert start in Met(repo, w);
    forall h | Reachable(repo, start, h) ensures exists i: nat :: Visit(h, i) in Visits(repo, w) {
      ClosedHoldsReachable(repo, Met(repo, w), start, h);
    }
  }

  // -------------------------------------------------------------------------
  // How long a run can be
  // -------------------------------------------------------------------------

  ghost function ParentLinks(repo: Repository, s: set<Hash>): nat {
    if s == {} then 0
    else var h :| h in s; |Parents(repo, h)| + ParentLinks(repo, s - {h})
  }

  lemma {:induction false} ParentLinksWithout(repo: Repository, s: set<Hash>, x: Hash)
    requires x in s
    ensures ParentLinks(repo, s) == |Parents(repo, x)| + ParentLinks(repo, s - {x})
    decreases s
  {
    var h :| h in s && ParentLinks(repo, s) == |Parents(repo, h)| + ParentLinks(repo, s - {h});
    if h != x {
      ParentLinksWithout(repo, s - {h}, x);
      ParentLinksWithout(repo, s - {x}, h);
      assert s - {h} - {x} == s - {x} - {h};
    }
  }

  lemma StepWaiting(repo: Repository, w: Walk)
    requires Valid(repo, w) && w.stack != []
    ensures var next := Step(repo, w);
            Waiting(next.stack) <= Waiting(w.stack) - 1 +
            (if Current(w).hash in w.seen then 0 else |Parents(repo, Current(w).hash)|)
  {
    ConsumeWaiting(w.stack);
    var next := Step(repo, w);
    var rest := Consume(w.stack);
    if Current(w).hash in w.seen {
      SeenPushesNothing(repo, w);
    } else if next.stack != rest {
      assert next.stack[..|rest|] == rest;
    }
  }

  // A step pays for what it pushes with the links of the commit it marks.
  lemma StepPays(repo: Repository, w: Walk, within: set<Hash>)
    requires Valid(repo, w) && w.stack != [] && Current(w).hash in within
    ensures var next := Step(repo, w);
            Waiting(next.stack) + ParentLinks(repo, within - next.seen) + 1
            <= Waiting(w.stack) + ParentLinks(repo, within - w.seen)
  {
    var next, h := Step(repo, w), Current(w).hash;
    StepWaiting(repo, w);
    if h in w.seen {
      assert next.seen == w.seen;
    } else {
      ParentLinksWithout(repo, within - w.seen, h);
      assert within - next.seen == within - w.seen - {h};
    }
  }

  lemma VisitsNext(repo: Repository, w: Walk)
    requires Valid(repo, w) && w.stack != []
    ensures Valid(repo, Step(repo, w)) && Visits(repo, w) == [Current(w)] + Visits(repo, Step(repo, w))
    ensures Known(repo) - w.seen > Known(repo) - Step(repo, w).seen
            || (Known(repo) - w.seen == Known(repo) - Step(repo, w).seen && Waiting(Step(repo, w).stack) < Waiting(w.stack))
  {
    StepKeepsValid(repo, w);
    StepDecreases(repo, w);
  }

  // Each link from a commit to a parent is put on the stack at most once.
  lemma {:induction false} VisitsBounded(repo: Repository, w: Walk, within: set<Hash>)
    requires Valid(repo, w)
    requires forall v :: v in Visits(repo, w) ==> v.hash in within
    ensures |Visits(repo, w)| <= Waiting(w.stack) + ParentLinks(repo, within - w.seen)
    decreases Known(repo) - w.seen, Waiting(w.stack)
  {
    if w.stack != [] {
      VisitsNext(repo, w);
      assert Current(w) in Visits(repo, w);
      VisitsBounded(repo, Step(repo, w), within);
      StepPays(repo, w, within);
    }
  }

  // -------------------------------------------------------------------------
  // The start commit
  // -------------------------------------------------------------------------

  ghost predicate Past(f: Frame, start: Hash) {
    f.idx >= 1 && start !in Pending(f)
  }

  lemma StepPast(repo: Repository, w: Walk, start: Hash)
    requires Valid(repo, w) && w.stack != [] && start in w.seen
    requires forall f :: f in w.stack ==> Past(f, start)
    ensures Current(w).hash != start && Current(w).idx >= 1
    ensures forall f :: f in Step(repo, w).stack ==> Past(f, start)
  {
    var top := w.stack[|w.stack| - 1];
    UnseenHas(Parents(repo, Current(w).hash), w.seen + {Current(w).hash});
    assert Past(top, start) && Current(w).hash == Pending(top)[0];
    forall f | f in Step(repo, w).stack ensures Past(f, start) {
      StepFrame(repo, w, f);
    }
  }

  lemma {:induction false} VisitsPast(repo: Repository, w: Walk, start: Hash)
    requires Valid(repo, w) && start in w.seen
    requires forall f :: f in w.stack ==> Past(f, start)
    ensures forall v :: v in Visits(repo, w) ==> v.hash != start && v.idx >= 1
    decreases Known(repo) - w.seen, Waiting(w.stack)
  {
    if w.stack != [] {
      StepKeepsValid(repo, w);
      StepDecreases(repo, w);
      StepPast(repo, w, start);
      VisitsPast(repo, Step(repo, w), start);
    }
  }

  lemma VisitsStartOnce(repo: Repository, start: Hash)
    requires start in Known(repo)
    ensures Valid(repo, Start(start))
    ensures var vs := Visits(repo, Start(start));
            |vs| > 0 && vs[0] == Visit(start, 0) && forall v :: v in vs[1..] ==> v.hash != start && v.idx >= 1
  {
    var w := Start(start);
    StartIsValid(repo, start);
    StepKeepsValid(repo, w);
    StepDecreases(repo, w);
    assert Consume(w.stack) == [];
    UnseenHas(Parents(repo, start), {} + {start});
    VisitsPast(repo, Step(repo, w), start);
    assert Visits(repo, w) == [Visit(start, 0)] + Visits(repo, Step(repo, w));
  }

  // -------------------------------------------------------------------------
  // From visits to results
  // -------------------------------------------------------------------------

  // A hash that names no commit is an error, or nothing when git errors are skipped.
  datatype Item = Emit(hash: Hash, idx: nat) | Fail

  function Deliver(repo: Repository, skip: bool, visits: seq<Visit>): seq<Item> {
    if visits == [] then []
    else
      var v := visits[0];
      (if IsCommit(repo, v.hash) then [Emit(v.hash, v.idx)] else if skip then [] else [Fail])
      + Deliver(repo, skip, visits[1..])
  }

  // The results of draining a fresh iterator.
  function History(repo: Repository, skip: bool, start: Hash): seq<Item>
    requires start in Known(repo)
  {
    StartIsValid(repo, start);
    Deliver(repo, skip, Visits(repo, Start(start)))
  }

  lemma {:induction false} DeliverMembers(repo: Repository, skip: bool, visits: seq<Visit>)
    ensures |Deliver(repo, skip, visits)| <= |visits|
    ensures forall h, i: nat :: Emit(h, i) in Deliver(repo, skip, visits) <==> Visit(h, i) in visits && IsCommit(repo, h)
    ensures Fail in Deliver(repo, skip, visits) <==> !skip && exists v :: v in visits && !IsCommit(repo, v.hash)
  {
    if visits != [] {
      DeliverMembers(repo, skip, visits[1..]);
      assert visits == [visits[0]] + visits[1..];
    }
  }

  // Soundness and completeness of a whole run, on any store.
  lemma HistoryIsExact(repo: Repository, skip: bool, start: Hash)
    requires start in Known(repo)
    ensures forall h, i: nat :: Emit(h, i) in History(repo, skip, start) ==> IsCommit(repo, h) && Path(repo, start, h, i)
    ensures forall h :: (exists i: nat :: Emit(h, i) in History(repo, skip, start))
                        <==> Reachable(repo, start, h) && IsCommit(repo, h)
    ensures Fail in History(repo, skip, start)
            <==> !skip && exists h :: Reachable(repo, start, h) && !IsCommit(repo, h)
  {
    VisitsReachable(repo, start);
    var vs := Visits(repo, Start(start));
    DeliverMembers(repo, skip, vs);
    forall h | Reachable(repo, start, h) && IsCommit(repo, h)
      ensures exists i: nat :: Emit(h, i) in History(repo, skip, start)
    {
      var i: nat :| Visit(h, i) in vs;
      assert Emit(h, i) in History(repo, skip, start);
    }
    forall v | v in vs ensures Reachable(repo, start, v.hash) {
      assert Path(repo, start, v.hash, v.idx);
    }
    if h :| Reachable(repo, start, h) && !IsCommit(repo, h) {
      var i: nat :| Visit(h, i) in vs;
    }
  }

  ghost function ReachableFrom(repo: Repository, start: Hash): set<Hash> {
    set h | h in Known(repo) && Reachable(repo, start, h)
  }

  lemma {:induction false} PathStaysKnown(repo: Repository, start: Hash, h: Hash, n: nat)
    requires start in Known(repo) && Path(repo, start, h, n)
    ensures h in Known(repo)
  {
    if n > 0 {
      var m :| Path(repo, start, m, n - 1) && h in Parents(repo, m);
      ParentsAreKnown(repo, m, h);
    }
  }

  // A run is never longer than the parent links of the reachable commits, plus one.
  lemma HistoryIsBounded(repo: Repository, skip: bool, start: Hash)
    requires start in Known(repo)
    ensures |History(repo, skip, start)| <= 1 + ParentLinks(repo, ReachableFrom(repo, start))
  {
    VisitsReachable(repo, start);
    var w := Start(start);
    var vs := Visits(repo, w);
    DeliverMembers(repo, skip, vs);
    forall v | v in vs ensures v.hash in ReachableFrom(repo, start) {
      PathStaysKnown(repo, start, v.hash, v.idx);
    }
    VisitsBounded(repo, w, ReachableFrom(repo, start));
    assert ReachableFrom(repo, start) - {} == ReachableFrom(repo, start);
    assert w.stack[..0] == [];
  }

  // The start commit comes first, with index 0, and never again; no other result has index 0.
  lemma HistoryStartsOnce(repo: Repository, skip: bool, start: Hash)
    requires IsCommit(repo, start)
    ensures start in Known(repo)
    ensures var items := History(repo, skip, start);
            |items| > 0 && items[0] == Emit(start, 0)
            && forall e :: e in items[1..] && e.Emit? ==> e.hash != start && e.idx >= 1
  {
    VisitsStartOnce(repo, start);
    var vs := Visits(repo, Start(start));
    DeliverMembers(repo, skip, vs[1..]);
    assert History(repo, skip, start)[1..] == Deliver(repo, skip, vs[1..]);
  }

  function WithoutErrors(items: seq<Item>): seq<Item> {
    if items == [] then [] else (if items[0].Fail? then [] else [items[0]]) + WithoutErrors(items[1..])
  }

  // Skipping errors takes the errors out of a run and changes nothing else.
  lemma {:induction false} SkippingDropsErrors(repo: Repository, visits: seq<Visit>)
    ensures Deliver(repo, true, visits) == WithoutErrors(Deliver(repo, false, visits))
  {
    if visits != [] {
      var v, rest := visits[0], Deliver(repo, false, visits[1..]);
      SkippingDropsErrors(repo, visits[1..]);
      if IsCommit(repo, v.hash) {
        assert ([Emit(v.hash, v.idx)] + rest)[1..] == rest;
      } else {
        assert ([Fail] + rest)[1..] == rest;
      }
    }
  }

  lemma UnseenOf(seen: set<Hash>, a: Hash, b: Hash)
    requires a !in seen && b !in seen
    ensures Unseen([], seen) == [] && Unseen([a], seen) == [a] && Unseen([a, b], seen) == [a, b]
  {
    assert [a][..0] == [] && [a, b][..1] == [a];
    assert Unseen([a], seen) == Unseen([], seen) + [a];
  }

  lemma ConsumeIs(below: seq<Frame>, top: Frame)
    requires ValidStack(below + [top])
    ensures Consume(below + [top]) == if top.pos + 1 >= |top.hashes| then below else below + [top.(pos := top.pos + 1)]
  {
    assert (below + [top])[..|below|] == below && (below + [top])[|below|] == top;
  }

  // One step, written as the frames below the top one and what becomes of the top one.
  lemma StepIs(repo: Repository, below: seq<Frame>, top: Frame, seen: set<Hash>, h: Hash, unseen: seq<Hash>)
    requires ValidStack(below + [top]) && h == top.hashes[top.pos] && unseen == Unseen(Parents(repo, h), seen + {h})
    ensures var rest := if top.pos + 1 >= |top.hashes| then below else below + [top.(pos := top.pos + 1)];
            Step(repo, Walk(below + [top], seen))
            == Walk(if unseen == [] then rest else rest + [Frame(top.idx + 1, 0, unseen)], seen + {h})
  {
    ConsumeIs(below, top);
    assert top in below + [top];
    assert Current(Walk(below + [top], seen)) == Visit(h, top.idx);
  }

  lemma FirstOfFour(repo: Repository, a: Hash, b: Hash, c: Hash)
    requires a != b && a != c && a in Known(repo) && Parents(repo, a) == [b, c]
    ensures Valid(repo, Start(a)) && Valid(repo, Walk([Frame(1, 0, [b, c])], {a}))
    ensures Visits(repo, Start(a)) == [Visit(a, 0)] + Visits(repo, Walk([Frame(1, 0, [b, c])], {a}))
  {
    var first := Frame(0, 0, [a]);
    StartIsValid(repo, a);
    UnseenOf({a}, b, c);
    assert [] + [first] == [first] && {} + {a} == {a};
    StepIs(repo, [], first, {}, a, [b, c]);
    assert [] + [Frame(1, 0, [b, c])] == [Frame(1, 0, [b, c])];
    StepsTo(repo, Start(a), Walk([Frame(1, 0, [b, c])], {a}));
  }

  lemma SecondOfFour(repo: Repository, a: Hash, b: Hash, c: Hash)
    requires a != b && a != c && b != c && Parents(repo, b) == [c] && Valid(repo, Walk([Frame(1, 0, [b, c])], {a}))
    ensures Valid(repo, Walk([Frame(1, 1, [b, c])] + [Frame(2, 0, [c])], {a, b}))
    ensures Visits(repo, Walk([Frame(1, 0, [b, c])], {a}))
            == [Visit(b, 1)] + Visits(repo, Walk([Frame(1, 1, [b, c])] + [Frame(2, 0, [c])], {a, b}))
  {
    var parents := Frame(1, 0, [b, c]);
    assert {a} + {b} == {a, b} && [] + [parents] == [parents];
    UnseenOf({a, b}, c, c);
    StepIs(repo, [], parents, {a}, b, [c]);
    assert [] + [Frame(1, 1, [b, c])] == [Frame(1, 1, [b, c])];
    StepsTo(repo, Walk([parents], {a}), Walk([Frame(1, 1, [b, c])] + [Frame(2, 0, [c])], {a, b}));
  }

  // A commit may come more than once, and not with its least index first: here c is a parent of a and
  // of its first parent b.
  lemma SharedAncestorComesTwice(repo: Repository, a: Hash, b: Hash, c: Hash)
    requires a != b && a != c && b != c && a in Known(repo)
    requires Parents(repo, a) == [b, c] && Parents(repo, b) == [c] && Parents(repo, c) == []
    ensures Valid(repo, Start(a))
    ensures Visits(repo, Start(a)) == [Visit(a, 0), Visit(b, 1), Visit(c, 2), Visit(c, 1)]
  {
    FirstOfFour(repo, a, b, c);
    SecondOfFour(repo, a, b, c);
    var rest, again := [Frame(1, 1, [b, c])], Frame(2, 0, [c]);
    LastTwo(repo, rest, again, {a, b}, c);
    InARow(Visit(a, 0), Visit(b, 1), [Visit(c, 2), Visit(c, 1)], Visits(repo, Walk([Frame(1, 0, [b, c])], {a})));
  }

  lemma InARow(v: Visit, w: Visit, rest: seq<Visit>, after: seq<Visit>)
    requires after == [w] + rest
    ensures [v] + after == [v, w] + rest
  {}

  lemma LastTwo(repo: Repository, rest: seq<Frame>, again: Frame, seen: set<Hash>, c: Hash)
    requires Valid(repo, Walk(rest + [again], seen)) && Parents(repo, c) == []
    requires |rest| == 1 && rest[0].pos == |rest[0].hashes| - 1 && rest[0].hashes[rest[0].pos] == c
    requires again == Frame(again.idx, 0, [c])
    ensures Visits(repo, Walk(rest + [again], seen)) == [Visit(c, again.idx), Visit(c, rest[0].idx)]
  {
    assert Unseen([], seen + {c}) == [];
    StepIs(repo, rest, again, seen, c, []);
    StepsTo(repo, Walk(rest + [again], seen), Walk(rest, seen + {c}));
    assert [] + [rest[0]] == rest && seen + {c} + {c} == seen + {c};
    StepIs(repo, [], rest[0], seen + {c}, c, []);
    StepsTo(repo, Walk(rest, seen + {c}), Walk([], seen + {c}));
  }

  lemma StepsTo(repo: Repository, w: Walk, next: Walk)
    requires Valid(repo, w) && w.stack != [] && Step(repo, w) == next
    ensures Valid(repo, next) && Visits(repo, w) == [Current(w)] + Visits(repo, next)
  {
    StepKeepsValid(repo, w);
    StepDecreases(repo, w);
  }

  lemma {:induction false} UnseenFirst(hashes: seq<Hash>, seen: set<Hash>)
    requires hashes != [] && hashes[0] !in seen
    ensures Unseen(hashes, seen) != [] && Unseen(hashes, seen)[0] == hashes[0]
    decreases |hashes|
  {
    if |hashes| > 1 {
      UnseenFirst(hashes[..|hashes| - 1], seen);
    }
  }

  // After the start comes its first parent, as the commit lists them.
  lemma FirstParentComesNext(repo: Repository, skip: bool, start: Hash)
    requires start in repo.objects && repo.objects[start].Commit? && repo.objects[start].parents != []
    requires var p := repo.objects[start].parents[0]; p != start && IsCommit(repo, p)
    ensures start in Known(repo)
    ensures var items := History(repo, skip, start);
            |items| >= 2 && items[0] == Emit(start, 0) && items[1] == Emit(repo.objects[start].parents[0], 1)
  {
    var p, w := repo.objects[start].parents[0], Start(start);
    UnseenFirst(repo.objects[start].parents, {start});
    StartIsValid(repo, start);
    var next := Step(repo, w);
    assert Consume(w.stack) == [] && w.seen + {start} == {start};
    assert next.stack == [Frame(1, 0, Unseen(repo.objects[start].parents, {start}))];
    StepsTo(repo, w, next);
    StepsTo(repo, next, Step(repo, next));
    assert Current(w) == Visit(start, 0) && Current(next) == Visit(p, 1);
    DeliverTwo(repo, skip, Visit(start, 0), Visit(p, 1), Visits(repo, Step(repo, next)));
  }

  lemma DeliverTwo(repo: Repository, skip: bool, v: Visit, w: Visit, rest: seq<Visit>)
    requires IsCommit(repo, v.hash) && IsCommit(repo, w.hash)
    ensures Deliver(repo, skip, [v] + ([w] + rest)) == [Emit(v.hash, v.idx), Emit(w.hash, w.idx)] + Deliver(repo, skip, rest)
  {
    assert ([v] + ([w] + rest))[1..] == [w] + rest && ([w] + rest)[1..] == rest;
    assert Deliver(repo, skip, [w] + rest) == [Emit(w.hash, w.idx)] + Deliver(repo, skip, rest);
  }

  // -------------------------------------------------------------------------
  // The iterator
  // -------------------------------------------------------------------------

  // One turn takes the visit off the front of the run and its result, if any, off the results.
  lemma TurnTakesFront(repo: Repository, skip: bool, w: Walk)
    requires Valid(repo, w) && w.stack != []
    ensures Valid(repo, Step(repo, w))
    ensures var h, next := Current(w).hash, Deliver(repo, skip, Visits(repo, Step(repo, w)));
            Deliver(repo, skip, Visits(repo, w)) ==
            if IsCommit(repo, h) then [Emit(h, Current(w).idx)] + next
            else if skip then next
            else [Fail] + next
  {
    StepKeepsValid(repo, w);
    StepDecreases(repo, w);
    var later := Visits(repo, Step(repo, w));
    assert Visits(repo, w)[0] == Current(w) && Visits(repo, w)[1..] == later;
    assert [] + Deliver(repo, skip, later) == Deliver(repo, skip, later);
  }

  class IndexedCommitIter {
    const repo: Repository
    const skipGitErrors: bool
    var stack: seq<Frame>
    var seen: set<Hash>

    ghost predicate Ready()
      reads this
    {
      Valid(repo, Walk(stack, seen))
    }

    // The results the iterator has yet to return.
    ghost function Remaining(): seq<Item>
      requires Ready()
      reads this
    {
      Deliver(repo, skipGitErrors, Visits(repo, Walk(stack, seen)))
    }

    constructor (skipGitErrors: bool, repo: Repository, start: Hash)
      requires IsCommit(repo, start)
      ensures this.repo == repo && this.skipGitErrors == skipGitErrors
      ensures start in Known(repo) && Ready()
      ensures Remaining() == History(repo, skipGitErrors, start)
    {
      this.repo, this.skipGitErrors := repo, skipGitErrors;
      stack, seen := [Frame(0, 0, [start])], {};
      StartIsValid(repo, start);
    }

    // None stands for the end of the walk.
    method Next() returns (r: Option<Item>)
      requires Ready()
      modifies this
      ensures Ready()
      ensures old(Remaining()) == [] ==> r == None && Remaining() == []
      ensures old(Remaining()) != [] ==> r == Some(old(Remaining())[0]) && Remaining() == old(Remaining())[1..]
      ensures r.Some? && r.value.Emit? ==> IsCommit(repo, r.value.hash)
    {
      r := None;
      while |stack| > 0
        invariant r == None && Ready() && Remaining() == old(Remaining())
        decreases Known(repo) - seen, Waiting(stack)
      {
        ghost var before := Walk(stack, seen);
        TurnTakesFront(repo, skipGitErrors, before);
        StepDecreases(repo, before);
        r := Turn();
        if r.Some? {
          return;
        }
      }
    }

    // One pass through the loop; None when it goes round again.
    method Turn() returns (r: Option<Item>)
      requires ValidStack(stack) && |stack| > 0
      modifies this
      ensures Walk(stack, seen) == Step(repo, old(Walk(stack, seen)))
      ensures var v := old(Current(Walk(stack, seen)));
              r == if IsCommit(repo, v.hash) then Some(Emit(v.hash, v.idx))
                   else if skipGitErrors then None
                   else Some(Fail)
    {
      var v := TakeCurrent();
      if !IsCommit(repo, v.hash) {
        return if skipGitErrors then None else Some(Fail);
      }
      PushParents(repo.objects[v.hash].parents, v.idx + 1);
      r := Some(Emit(v.hash, v.idx));
    }

    // Marks the current hash and moves its frame on, or drops it.
    method TakeCurrent() returns (v: Visit)
      requires ValidStack(stack) && |stack| > 0
      modifies this
      ensures v == old(Current(Walk(stack, seen)))
      ensures seen == old(seen) + {v.hash} && stack == Consume(old(stack))
    {
      var frame := stack[|stack| - 1];
      v := Visit(frame.hashes[frame.pos], frame.idx);
      if v.hash !in seen {
        seen := seen + {v.hash};
      }
      if frame.pos + 1 >= |frame.hashes| {
        stack := stack[..|stack| - 1];
      } else {
        stack := stack[..|stack| - 1] + [frame.(pos := frame.pos + 1)];
      }
      assert seen == old(seen) + {v.hash};
    }

    method PushParents(hashes: seq<Hash>, idx: nat)
      modifies this`stack
      ensures var unseen := Unseen(hashes, seen);
              stack == if unseen == [] then old(stack) else old(stack) + [Frame(idx, 0, unseen)]
    {
      var parents := [];
      for k := 0 to |hashes|
        invariant stack == old(stack) && parents == Unseen(hashes[..k], seen)
      {
        assert hashes[..k + 1][..k] == hashes[..k];
        if hashes[k] !in seen {
          parents := parents + [hashes[k]];
        }
      }
      assert hashes[..|hashes|] == hashes;
      if |parents| > 0 {
        stack := stack + [Frame(idx, 0, parents)];
      }
    }
  }
}
