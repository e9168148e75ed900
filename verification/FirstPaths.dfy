// Acyclic histories: hashes are first served in the order of their first parent paths, which makes the
// conditions on the walk statements about the parents alone.

module FirstPaths {
  import opened Objects
  import opened Layout
  import opened IndexedCommits
  import opened HistoryOnce
  import opened HistoryDistances

  // No hash is its own ancestor.
  ghost predicate Acyclic(repo: Repository) {
    forall h, n: nat :: n > 0 ==> !Path(repo, h, h, n)
  }

  // -------------------------------------------------------------------------
  // First paths
  // -------------------------------------------------------------------------

  lemma ParentReaches(repo: Repository, h: Hash, p: Hash, x: Hash)
    requires p in Parents(repo, h) && Reachable(repo, p, x)
    ensures Reachable(repo, h, x)
  {
    var n: nat :| Path(repo, p, x, n);
    PathFrom(repo, h, p, x, n);
  }

  // A parent reaches less than its commit.
  lemma ParentReachesLess(repo: Repository, h: Hash, p: Hash)
    requires Acyclic(repo) && p in Parents(repo, h)
    ensures h in Known(repo) && p in Known(repo)
    ensures ReachableFrom(repo, p) < ReachableFrom(repo, h)
  {
    ParentsAreKnown(repo, h, p);
    forall x | x in ReachableFrom(repo, p) ensures x in ReachableFrom(repo, h) {
      ParentReaches(repo, h, p, x);
    }
    assert h in repo.objects.Keys && Path(repo, h, h, 0);
    NotItsOwnAncestor(repo, h, p);
    assert h in ReachableFrom(repo, h) && h !in ReachableFrom(repo, p);
  }

  lemma NotItsOwnAncestor(repo: Repository, h: Hash, p: Hash)
    requires Acyclic(repo) && p in Parents(repo, h)
    ensures !Reachable(repo, p, h)
  {
    if n: nat :| Path(repo, p, h, n) {
      PathFrom(repo, h, p, h, n);
    }
  }

  lemma {:induction false} PathHasFirstLink(repo: Repository, h: Hash, x: Hash, n: nat) returns (p: Hash)
    requires n > 0 && Path(repo, h, x, n)
    ensures p in Parents(repo, h) && Path(repo, p, x, n - 1)
    decreases n
  {
    var m :| Path(repo, h, m, n - 1) && x in Parents(repo, m);
    if n == 1 {
      p := x;
    } else {
      p := PathHasFirstLink(repo, h, m, n - 1);
    }
  }

  // Parent i of h is the first that reaches x.
  ghost predicate IsFirstLink(repo: Repository, h: Hash, x: Hash, i: nat) {
    && i < |Parents(repo, h)| && Reachable(repo, Parents(repo, h)[i], x)
    && forall j :: 0 <= j < i ==> !Reachable(repo, Parents(repo, h)[j], x)
  }

  lemma {:induction false} FirstLinkUpTo(repo: Repository, h: Hash, x: Hash, n: nat) returns (i: nat)
    requires n < |Parents(repo, h)| && Reachable(repo, Parents(repo, h)[n], x)
    ensures IsFirstLink(repo, h, x, i)
    decreases n
  {
    if j :| 0 <= j < n && Reachable(repo, Parents(repo, h)[j], x) {
      i := FirstLinkUpTo(repo, h, x, j);
    } else {
      i := n;
    }
  }

  lemma FirstLinkExists(repo: Repository, h: Hash, x: Hash)
    requires Reachable(repo, h, x) && h != x
    ensures exists i: nat :: IsFirstLink(repo, h, x, i)
  {
    var n: nat :| Path(repo, h, x, n);
    var p := PathHasFirstLink(repo, h, x, n);
    var k :| 0 <= k < |Parents(repo, h)| && Parents(repo, h)[k] == p;
    var i := FirstLinkUpTo(repo, h, x, k);
  }

  ghost function FirstLink(repo: Repository, h: Hash, x: Hash): (i: nat)
    requires Reachable(repo, h, x) && h != x
    ensures IsFirstLink(repo, h, x, i)
  {
    FirstLinkExists(repo, h, x);
    var i: nat :| IsFirstLink(repo, h, x, i);
    i
  }

  lemma FirstLinkIs(repo: Repository, h: Hash, x: Hash, i: nat)
    requires Reachable(repo, h, x) && h != x && IsFirstLink(repo, h, x, i)
    ensures FirstLink(repo, h, x) == i
  {
    var j := FirstLink(repo, h, x);
    if i < j {
    } else if j < i {
    }
  }

  // The path from h to x that takes at each commit the first parent that still reaches x, as the
  // positions of the parents taken.
  ghost function FirstPath(repo: Repository, h: Hash, x: Hash): seq<nat>
    requires Acyclic(repo) && Reachable(repo, h, x)
    decreases ReachableFrom(repo, h)
  {
    if h == x then []
    else
      var i := FirstLink(repo, h, x);
      ParentReachesLess(repo, h, Parents(repo, h)[i]);
      [i] + FirstPath(repo, Parents(repo, h)[i], x)
  }

  // The order of a dictionary: a path comes before the longer ones that start with it.
  ghost predicate Lex(a: seq<nat>, b: seq<nat>) {
    b != [] && (a == [] || a[0] < b[0] || (a[0] == b[0] && Lex(a[1..], b[1..])))
  }

  lemma {:induction false} LexIsStrict(a: seq<nat>, b: seq<nat>)
    ensures !(Lex(a, b) && Lex(b, a)) && !Lex(a, a)
  {
    if a != [] {
      LexIsStrict(a[1..], if b == [] then [] else b[1..]);
    }
  }

  lemma LexBehind(i: nat, a: seq<nat>, j: nat, b: seq<nat>)
    ensures Lex([i] + a, [j] + b) <==> i < j || (i == j && Lex(a, b))
    ensures Lex([], [j] + b)
  {
    assert ([i] + a)[1..] == a && ([j] + b)[1..] == b;
  }

  // The positions lead from h to x.
  ghost predicate Follows(repo: Repository, h: Hash, x: Hash, path: seq<nat>)
    decreases |path|
  {
    if path == [] then h == x
    else path[0] < |Parents(repo, h)| && Follows(repo, Parents(repo, h)[path[0]], x, path[1..])
  }

  lemma {:induction false} FollowsReaches(repo: Repository, h: Hash, x: Hash, path: seq<nat>)
    requires Follows(repo, h, x, path)
    ensures Path(repo, h, x, |path|)
    decreases |path|
  {
    if path != [] {
      var p := Parents(repo, h)[path[0]];
      FollowsReaches(repo, p, x, path[1..]);
      PathFrom(repo, h, p, x, |path| - 1);
    }
  }

  lemma FollowsFrom(repo: Repository, h: Hash, x: Hash, i: nat, path: seq<nat>)
    ensures Follows(repo, h, x, [i] + path) <==> i < |Parents(repo, h)| && Follows(repo, Parents(repo, h)[i], x, path)
  {
    assert ([i] + path)[1..] == path;
  }

  lemma FirstIsLeast(repo: Repository, h: Hash, x: Hash, i: nat, j: nat, rest: seq<nat>)
    requires IsFirstLink(repo, h, x, i) && j < |Parents(repo, h)| && Follows(repo, Parents(repo, h)[j], x, rest)
    ensures i <= j
  {
    FollowsReaches(repo, Parents(repo, h)[j], x, rest);
  }

  // The first path by way of the first parent that reaches x.
  lemma FirstPathIs(repo: Repository, h: Hash, x: Hash, i: nat)
    requires Acyclic(repo) && h != x && IsFirstLink(repo, h, x, i)
    ensures var p := Parents(repo, h)[i];
            && Reachable(repo, h, x) && ReachableFrom(repo, p) < ReachableFrom(repo, h)
            && FirstPath(repo, h, x) == [i] + FirstPath(repo, p, x)
  {
    ParentReaches(repo, h, Parents(repo, h)[i], x);
    ParentReachesLess(repo, h, Parents(repo, h)[i]);
    FirstLinkIs(repo, h, x, i);
  }

  lemma {:induction false} FirstPathFollows(repo: Repository, h: Hash, x: Hash)
    requires Acyclic(repo) && Reachable(repo, h, x)
    ensures Follows(repo, h, x, FirstPath(repo, h, x))
    decreases ReachableFrom(repo, h)
  {
    if h != x {
      var i := FirstLink(repo, h, x);
      FirstPathIs(repo, h, x, i);
      FirstPathFollows(repo, Parents(repo, h)[i], x);
      FollowsFrom(repo, h, x, i, FirstPath(repo, Parents(repo, h)[i], x));
    }
  }

  lemma OnlyEmptyStays(repo: Repository, h: Hash, path: seq<nat>)
    requires Acyclic(repo) && Follows(repo, h, h, path)
    ensures path == []
  {
    FollowsReaches(repo, h, h, path);
  }

  // No other path to x comes before the first one.
  lemma {:induction false} FirstPathIsFirst(repo: Repository, h: Hash, x: Hash, path: seq<nat>)
    requires Acyclic(repo) && Reachable(repo, h, x) && Follows(repo, h, x, path)
    ensures path == FirstPath(repo, h, x) || Lex(FirstPath(repo, h, x), path)
    decreases |path|
  {
    if h == x {
      OnlyEmptyStays(repo, h, path);
    } else {
      var i, j, rest := FirstLink(repo, h, x), path[0], path[1..];
      assert path == [j] + rest;
      FirstPathIs(repo, h, x, i);
      FirstIsLeast(repo, h, x, i, j, rest);
      LexBehind(i, FirstPath(repo, Parents(repo, h)[i], x), j, rest);
      if i == j {
        FirstPathIsFirst(repo, Parents(repo, h)[i], x, rest);
      }
    }
  }

  // -------------------------------------------------------------------------
  // The hashes served for the first time
  // -------------------------------------------------------------------------

  ghost predicate AllKnown(repo: Repository, hashes: seq<Hash>) {
    forall h :: h in hashes ==> h in Known(repo)
  }

  lemma ParentsAllKnown(repo: Repository, h: Hash, rest: seq<Hash>)
    requires AllKnown(repo, rest)
    ensures AllKnown(repo, Parents(repo, h) + rest)
  {
    forall p | p in Parents(repo, h) ensures p in Known(repo) {
      ParentsAreKnown(repo, h, p);
    }
  }

  // What is served for the first time when these hashes wait, in order.
  ghost function Served(repo: Repository, hashes: seq<Hash>, seen: set<Hash>): seq<Hash>
    requires AllKnown(repo, hashes)
    decreases Known(repo) - seen, |hashes|
  {
    if hashes == [] then []
    else
      var h, rest := hashes[0], hashes[1..];
      if h in seen then Served(repo, rest, seen)
      else
        ParentsAllKnown(repo, h, rest);
        [h] + Served(repo, Parents(repo, h) + rest, seen + {h})
  }

  lemma {:induction false} ServedNext(repo: Repository, h: Hash, rest: seq<Hash>, seen: set<Hash>)
    requires h in Known(repo) && AllKnown(repo, rest)
    ensures AllKnown(repo, [h] + rest) && AllKnown(repo, Parents(repo, h) + rest)
    ensures Served(repo, [h] + rest, seen)
            == if h in seen then Served(repo, rest, seen) else [h] + Served(repo, Parents(repo, h) + rest, seen + {h})
  {
    ParentsAllKnown(repo, h, rest);
    assert ([h] + rest)[1..] == rest;
  }

  // Hashes served one list after the other.
  lemma {:induction false} ServedAppend(repo: Repository, a: seq<Hash>, b: seq<Hash>, seen: set<Hash>)
    requires AllKnown(repo, a) && AllKnown(repo, b)
    ensures AllKnown(repo, a + b)
    ensures Served(repo, a + b, seen) == Served(repo, a, seen) + Served(repo, b, seen + Elements(Served(repo, a, seen)))
    decreases Known(repo) - seen, |a|
  {
    if a == [] {
      assert a + b == b && seen + Elements([]) == seen;
    } else {
      var h, rest := a[0], a[1..];
      assert a == [h] + rest && a + b == [h] + (rest + b);
      ServedNext(repo, h, rest, seen);
      ServedNext(repo, h, rest + b, seen);
      if h in seen {
        ServedAppend(repo, rest, b, seen);
      } else {
        var later := Served(repo, Parents(repo, h) + rest, seen + {h});
        Associative(Parents(repo, h), rest, b);
        ServedAppend(repo, Parents(repo, h) + rest, b, seen + {h});
        assert seen + Elements([h] + later) == seen + {h} + Elements(later);
        Associative([h], later, Served(repo, b, seen + {h} + Elements(later)));
      }
    }
  }

  // A hash that was served makes no difference where it waits.
  lemma ServedWithout(repo: Repository, a: seq<Hash>, h: Hash, b: seq<Hash>, seen: set<Hash>)
    requires AllKnown(repo, a) && AllKnown(repo, b) && h in Known(repo) && h in seen
    ensures Served(repo, a + ([h] + b), seen) == Served(repo, a + b, seen)
  {
    ServedNext(repo, h, b, seen + Elements(Served(repo, a, seen)));
    ServedAppend(repo, a, [h] + b, seen);
    ServedAppend(repo, a, b, seen);
  }

  lemma {:induction false} ServedUnseen(repo: Repository, hashes: seq<Hash>, b: seq<Hash>, seen: set<Hash>)
    requires AllKnown(repo, hashes) && AllKnown(repo, b)
    ensures AllKnown(repo, Unseen(hashes, seen))
    ensures Served(repo, Unseen(hashes, seen) + b, seen) == Served(repo, hashes + b, seen)
    decreases |hashes|
  {
    UnseenHas(hashes, seen);
    if hashes != [] {
      var n := |hashes| - 1;
      var front, last := hashes[..n], hashes[n];
      assert last in hashes && hashes + b == front + ([last] + b);
      UnseenOfLast(hashes, seen, b);
      if last in seen {
        ServedUnseen(repo, front, b, seen);
        ServedWithout(repo, front, last, b, seen);
      } else {
        ServedUnseen(repo, front, [last] + b, seen);
      }
    }
  }

  lemma UnseenOfLast(hashes: seq<Hash>, seen: set<Hash>, b: seq<Hash>)
    requires hashes != []
    ensures var front, last := hashes[..|hashes| - 1], hashes[|hashes| - 1];
            Unseen(hashes, seen) + b == Unseen(front, seen) + if last in seen then b else [last] + b
  {}

  // The hashes that wait on the stack, the next one first.
  function Upcoming(stack: seq<Frame>): seq<Hash> {
    if stack == [] then [] else Pending(stack[|stack| - 1]) + Upcoming(stack[..|stack| - 1])
  }

  lemma {:induction false} UpcomingConsume(stack: seq<Frame>)
    requires ValidStack(stack) && stack != []
    ensures var top := stack[|stack| - 1]; Upcoming(stack) == [top.hashes[top.pos]] + Upcoming(Consume(stack))
  {
    var n := |stack| - 1;
    var top := stack[n];
    assert Pending(top) == [top.hashes[top.pos]] + Pending(top)[1..];
    Associative([top.hashes[top.pos]], Pending(top)[1..], Upcoming(stack[..n]));
    if top.pos + 1 >= |top.hashes| {
      assert [top.hashes[top.pos]] + Upcoming(stack[..n]) == Pending(top) + Upcoming(stack[..n]);
    } else {
      var moved := top.(pos := top.pos + 1);
      assert (stack[..n] + [moved])[..n] == stack[..n] && Pending(moved) == Pending(top)[1..];
    }
  }

  lemma {:induction false} UpcomingPush(stack: seq<Frame>, f: Frame)
    requires f.pos == 0
    ensures Upcoming(if f.hashes == [] then stack else stack + [f]) == f.hashes + Upcoming(stack)
  {
    assert Pending(f) == f.hashes;
    if f.hashes == [] {
      assert f.hashes + Upcoming(stack) == Upcoming(stack);
    } else {
      assert (stack + [f])[..|stack|] == stack;
    }
  }

  lemma {:induction false} UpcomingStep(repo: Repository, w: Walk)
    requires ValidStack(w.stack) && w.stack != []
    ensures var h, rest := Current(w).hash, Upcoming(Consume(w.stack));
            && Upcoming(w.stack) == [h] + rest
            && Upcoming(Step(repo, w).stack) == Unseen(Parents(repo, h), w.seen + {h}) + rest
  {
    UpcomingConsume(w.stack);
    StepStack(repo, w);
    UpcomingPush(Consume(w.stack), Pushed(repo, w));
  }

  lemma {:induction false} UpcomingKnown(repo: Repository, stack: seq<Frame>)
    requires forall f, h :: f in stack && h in f.hashes ==> h in Known(repo)
    ensures AllKnown(repo, Upcoming(stack))
    decreases |stack|
  {
    if stack != [] {
      var n := |stack| - 1;
      assert stack[n] in stack && forall f :: f in stack[..n] ==> f in stack;
      UpcomingKnown(repo, stack[..n]);
    }
  }

  // What a walk serves for the first time from here on.
  ghost function New(repo: Repository, w: Walk): seq<Hash>
    requires Valid(repo, w)
  {
    UpcomingKnown(repo, w.stack);
    Served(repo, Upcoming(w.stack), w.seen)
  }

  lemma NewNext(repo: Repository, w: Walk)
    requires Valid(repo, w) && w.stack != []
    ensures Valid(repo, Step(repo, w))
    ensures New(repo, w) == if Current(w).hash in w.seen then New(repo, Step(repo, w))
                            else [Current(w).hash] + New(repo, Step(repo, w))
  {
    var h, rest, next := Current(w).hash, Upcoming(Consume(w.stack)), Step(repo, w);
    StepKeepsValid(repo, w);
    UpcomingKnown(repo, w.stack);
    UpcomingKnown(repo, next.stack);
    UpcomingStep(repo, w);
    RestKnown(repo, h, rest);
    ServedNext(repo, h, rest, w.seen);
    if h in w.seen {
      SeenPushesNothing(repo, w);
    } else {
      ParentsAllKnown(repo, h, []);
      assert Parents(repo, h) + [] == Parents(repo, h);
      ServedUnseen(repo, Parents(repo, h), rest, w.seen + {h});
    }
  }

  lemma RestKnown(repo: Repository, h: Hash, rest: seq<Hash>)
    requires AllKnown(repo, [h] + rest)
    ensures h in Known(repo) && AllKnown(repo, rest)
  {
    assert ([h] + rest)[0] == h;
    forall x | x in rest ensures x in Known(repo) {
      assert x in [h] + rest;
    }
  }

  // A property of each hash and of what has been served with it.
  type Turn = (Hash, set<Hash>) -> bool

  // It holds of every hash served for the first time.
  ghost predicate Along(hashes: seq<Hash>, seen: set<Hash>, p: Turn) {
    hashes == [] || (p(hashes[0], seen + {hashes[0]}) && Along(hashes[1..], seen + {hashes[0]}, p))
  }

  lemma AlongNext(h: Hash, rest: seq<Hash>, seen: set<Hash>, p: Turn)
    ensures Along([h] + rest, seen, p) <==> p(h, seen + {h}) && Along(rest, seen + {h}, p)
  {
    assert ([h] + rest)[1..] == rest;
  }

  ghost predicate HoldsAt(hashes: seq<Hash>, seen: set<Hash>, p: Turn, k: nat)
    requires k < |hashes|
  {
    p(hashes[k], seen + Elements(hashes[..k + 1]))
  }

  lemma HoldsAtNext(h: Hash, rest: seq<Hash>, seen: set<Hash>, p: Turn, k: nat)
    requires k < |rest|
    ensures HoldsAt([h] + rest, seen, p, k + 1) <==> HoldsAt(rest, seen + {h}, p, k)
  {
    assert ([h] + rest)[..k + 2] == [h] + rest[..k + 1];
    assert seen + Elements([h] + rest[..k + 1]) == seen + {h} + Elements(rest[..k + 1]);
  }

  lemma HoldsAtFirst(h: Hash, rest: seq<Hash>, seen: set<Hash>, p: Turn)
    ensures HoldsAt([h] + rest, seen, p, 0) <==> p(h, seen + {h})
  {
    assert ([h] + rest)[..1] == [h] && Elements([h]) == {h};
  }

  lemma {:induction false} AlongAt(hashes: seq<Hash>, seen: set<Hash>, p: Turn)
    ensures Along(hashes, seen, p) <==> forall k :: 0 <= k < |hashes| ==> HoldsAt(hashes, seen, p, k)
  {
    if hashes != [] {
      var h, rest := hashes[0], hashes[1..];
      assert hashes == [h] + rest;
      AlongAt(rest, seen + {h}, p);
      HoldsAtFirst(h, rest, seen, p);
      if Along(hashes, seen, p) {
        forall k | 0 <= k < |hashes| ensures HoldsAt(hashes, seen, p, k) {
          if k > 0 {
            HoldsAtNext(h, rest, seen, p, k - 1);
          }
        }
      }
      if forall k :: 0 <= k < |hashes| ==> HoldsAt(hashes, seen, p, k) {
        forall k | 0 <= k < |rest| ensures HoldsAt(rest, seen + {h}, p, k) {
          HoldsAtNext(h, rest, seen, p, k);
          assert HoldsAt(hashes, seen, p, k + 1);
        }
      }
    }
  }

  // -------------------------------------------------------------------------
  // The conditions on the walk, over what is served for the first time
  // -------------------------------------------------------------------------

  ghost function ClearTurn(repo: Repository): Turn {
    (h, seen) => Clear(repo, h, seen)
  }

  ghost function FartherTurn(repo: Repository, start: Hash): Turn {
    (h, seen) => Farther(repo, start, h, seen)
  }

  // A hash that was served before has no parent left to be served.
  lemma NothingLeft(repo: Repository, start: Hash, w: Walk)
    requires Valid(repo, w) && w.stack != [] && Current(w).hash in w.seen
    ensures Clear(repo, Current(w).hash, w.seen + {Current(w).hash})
    ensures Farther(repo, start, Current(w).hash, w.seen + {Current(w).hash})
  {
    var h, seen := Current(w).hash, w.seen + {Current(w).hash};
    var ps := Parents(repo, h);
    SeenPushesNothing(repo, w);
    forall p | p in ps ensures p in seen {
      NothingWaitsAboveTop(w.stack, h, p);
    }
    forall i, j | 0 <= i < j < |ps| ensures !Leads(repo, ps[i], ps[j], seen) {
      assert ps[j] in ps;
      if n: nat :| FreshPath(repo, ps[i], ps[j], n, seen) {
        FreshPathEnds(repo, ps[i], ps[j], n, seen);
      }
    }
  }

  lemma {:induction false} OrderlyNext(repo: Repository, w: Walk)
    requires Valid(repo, w) && w.stack != []
    ensures Valid(repo, Step(repo, w))
    ensures Orderly(repo, w) <==> Clear(repo, Current(w).hash, w.seen + {Current(w).hash}) && Orderly(repo, Step(repo, w))
  {
    VisitsNext(repo, w);
  }

  lemma {:induction false} OrderlyAlong(repo: Repository, w: Walk)
    requires Valid(repo, w)
    ensures Orderly(repo, w) <==> Along(New(repo, w), w.seen, ClearTurn(repo))
    decreases Known(repo) - w.seen, Waiting(w.stack)
  {
    if w.stack != [] {
      VisitsNext(repo, w);
      OrderlyNext(repo, w);
      OrderlyAlong(repo, Step(repo, w));
      NewNext(repo, w);
      if Current(w).hash in w.seen {
        NothingLeft(repo, Current(w).hash, w);
        SeenPushesNothing(repo, w);
      } else {
        AlongNext(Current(w).hash, New(repo, Step(repo, w)), w.seen, ClearTurn(repo));
      }
    }
  }

  lemma {:induction false} PromptAlong(repo: Repository, start: Hash, w: Walk)
    requires Valid(repo, w)
    ensures Prompt(repo, start, w) <==> Along(New(repo, w), w.seen, FartherTurn(repo, start))
    decreases Known(repo) - w.seen, Waiting(w.stack)
  {
    if w.stack != [] {
      VisitsNext(repo, w);
      PromptNext(repo, start, w);
      PromptAlong(repo, start, Step(repo, w));
      NewNext(repo, w);
      if Current(w).hash in w.seen {
        NothingLeft(repo, start, w);
        SeenPushesNothing(repo, w);
      } else {
        AlongNext(Current(w).hash, New(repo, Step(repo, w)), w.seen, FartherTurn(repo, start));
      }
    }
  }

  lemma NewOfStart(repo: Repository, start: Hash)
    requires start in Known(repo)
    ensures Valid(repo, Start(start)) && AllKnown(repo, [start])
    ensures New(repo, Start(start)) == Served(repo, [start], {})
  {
    StartIsValid(repo, start);
    var stack := Start(start).stack;
    assert stack[..0] == [] && Pending(stack[0]) == [start];
    assert Upcoming(stack) == [start] + [];
  }
}
