// When a history returns every commit once, and with which index.

module HistoryOnce {
  import opened Objects
  import opened IndexedCommits

  // -------------------------------------------------------------------------
  // Paths through hashes that have not been served
  // -------------------------------------------------------------------------

  // n parent links lead from a to b, and neither end nor anything between them has been served.
  ghost predicate FreshPath(repo: Repository, a: Hash, b: Hash, n: nat, seen: set<Hash>)
    decreases n
  {
    a !in seen && if n == 0 then a == b else exists m :: m in Parents(repo, a) && FreshPath(repo, m, b, n - 1, seen)
  }

  ghost predicate Leads(repo: Repository, a: Hash, b: Hash, seen: set<Hash>) {
    exists n: nat :: FreshPath(repo, a, b, n, seen)
  }

  // Of the parents of h that are still to be served, no commit can be reached from an earlier one.
  ghost predicate Clear(repo: Repository, h: Hash, seen: set<Hash>) {
    forall i, j :: 0 <= i < j < |Parents(repo, h)| && IsCommit(repo, Parents(repo, h)[j]) ==>
      !Leads(repo, Parents(repo, h)[i], Parents(repo, h)[j], seen)
  }

  // That holds whenever a hash is served from here on.
  ghost predicate Orderly(repo: Repository, w: Walk)
    requires Valid(repo, w)
    decreases Known(repo) - w.seen, Waiting(w.stack)
  {
    w.stack == [] ||
    (StepKeepsValid(repo, w);
     StepDecreases(repo, w);
     Clear(repo, Current(w).hash, w.seen + {Current(w).hash}) && Orderly(repo, Step(repo, w)))
  }

  lemma {:induction false} FreshPathEnds(repo: Repository, a: Hash, b: Hash, n: nat, seen: set<Hash>)
    requires FreshPath(repo, a, b, n, seen)
    ensures b !in seen && Path(repo, a, b, n)
    decreases n
  {
    if n > 0 {
      var m :| m in Parents(repo, a) && FreshPath(repo, m, b, n - 1, seen);
      FreshPathEnds(repo, m, b, n - 1, seen);
      PathFrom(repo, a, m, b, n - 1);
    }
  }

  // A path can be put behind a parent link.
  lemma {:induction false} PathFrom(repo: Repository, a: Hash, m: Hash, b: Hash, n: nat)
    requires m in Parents(repo, a) && Path(repo, m, b, n)
    ensures Path(repo, a, b, n + 1)
    decreases n
  {
    if n == 0 {
      assert Path(repo, a, a, 0);
    } else {
      var l :| Path(repo, m, l, n - 1) && b in Parents(repo, l);
      PathFrom(repo, a, m, l, n - 1);
    }
  }

  lemma {:induction false} FreshPathStep(repo: Repository, a: Hash, m: Hash, b: Hash, n: nat, seen: set<Hash>)
    requires FreshPath(repo, a, m, n, seen) && b in Parents(repo, m) && b !in seen
    ensures FreshPath(repo, a, b, n + 1, seen)
    decreases n
  {
    if n == 0 {
      assert FreshPath(repo, b, b, 0, seen);
    } else {
      var l :| l in Parents(repo, a) && FreshPath(repo, l, m, n - 1, seen);
      FreshPathStep(repo, l, m, b, n - 1, seen);
    }
  }

  lemma LeadsStep(repo: Repository, a: Hash, m: Hash, b: Hash, seen: set<Hash>)
    requires Leads(repo, a, m, seen) && b in Parents(repo, m) && b !in seen
    ensures Leads(repo, a, b, seen)
  {
    var n: nat :| FreshPath(repo, a, m, n, seen);
    FreshPathStep(repo, a, m, b, n, seen);
  }

  lemma LeadsToParent(repo: Repository, a: Hash, b: Hash, seen: set<Hash>)
    requires a !in seen && b !in seen && b in Parents(repo, a)
    ensures Leads(repo, a, b, seen)
  {
    assert FreshPath(repo, a, a, 0, seen);
    LeadsStep(repo, a, a, b, seen);
  }

  // A hash that is served either leaves a path as it is or leaves the part behind it.
  lemma {:induction false} FreshPathSplits(repo: Repository, a: Hash, b: Hash, n: nat, seen: set<Hash>, h: Hash)
    requires FreshPath(repo, a, b, n, seen) && h != b
    ensures Leads(repo, a, b, seen + {h}) || exists m :: m in Parents(repo, h) && Leads(repo, m, b, seen + {h})
    decreases n
  {
    if n == 0 {
      assert FreshPath(repo, b, b, 0, seen + {h});
    } else {
      var m :| m in Parents(repo, a) && FreshPath(repo, m, b, n - 1, seen);
      FreshPathSplits(repo, m, b, n - 1, seen, h);
      if Leads(repo, m, b, seen + {h}) && a != h {
        var k: nat :| FreshPath(repo, m, b, k, seen + {h});
        assert FreshPath(repo, a, b, k + 1, seen + {h});
      }
    }
  }

  // -------------------------------------------------------------------------
  // One step on the stack
  // -------------------------------------------------------------------------

  // The frame of the parents that are pushed.
  function Pushed(repo: Repository, w: Walk): Frame
    requires ValidStack(w.stack) && w.stack != []
  {
    var v := Current(w);
    Frame(v.idx + 1, 0, Unseen(Parents(repo, v.hash), w.seen + {v.hash}))
  }

  lemma StepStack(repo: Repository, w: Walk)
    requires ValidStack(w.stack) && w.stack != []
    ensures var rest, f := Consume(w.stack), Pushed(repo, w);
            && Step(repo, w).stack == (if f.hashes == [] then rest else rest + [f])
            && Step(repo, w).seen == w.seen + {Current(w).hash}
  {}

  ghost predicate WaitsIn(stack: seq<Frame>, l: nat, s: nat) {
    l < |stack| && stack[l].pos <= s < |stack[l].hashes|
  }

  lemma ConsumeStays(stack: seq<Frame>, l: nat, s: nat)
    requires ValidStack(stack) && stack != [] && WaitsIn(stack, l, s)
    requires l < |stack| - 1 || s != stack[l].pos
    ensures WaitsIn(Consume(stack), l, s)
    ensures Consume(stack)[l].hashes == stack[l].hashes && Consume(stack)[l].idx == stack[l].idx
  {}

  // What is not served in a step waits where it did.
  lemma Stays(repo: Repository, w: Walk, l: nat, s: nat)
    requires ValidStack(w.stack) && w.stack != [] && WaitsIn(w.stack, l, s)
    requires l < |w.stack| - 1 || s != w.stack[l].pos
    ensures WaitsIn(Step(repo, w).stack, l, s) && l < |Consume(w.stack)|
    ensures Step(repo, w).stack[l].hashes == w.stack[l].hashes && Step(repo, w).stack[l].idx == w.stack[l].idx
  {
    StepStack(repo, w);
    ConsumeStays(w.stack, l, s);
  }

  // What waits after a step waited before it or was pushed.
  lemma WaitedIn(stack: seq<Frame>, l: nat, s: nat)
    requires ValidStack(stack) && stack != [] && WaitsIn(Consume(stack), l, s)
    ensures WaitsIn(stack, l, s) && stack[l].hashes == Consume(stack)[l].hashes && stack[l].idx == Consume(stack)[l].idx
    ensures l < |stack| - 1 || stack[l].pos < s
  {}

  // -------------------------------------------------------------------------
  // What waits twice is served twice
  // -------------------------------------------------------------------------

  ghost predicate Serves(vs: seq<Visit>, h: Hash, i: nat) {
    i < |vs| && vs[i].hash == h
  }

  lemma ServesNext(v: Visit, later: seq<Visit>, h: Hash, i: nat)
    ensures Serves([v] + later, v.hash, 0)
    ensures Serves(later, h, i) ==> Serves([v] + later, h, i + 1)
  {}

  ghost predicate ServesTwice(vs: seq<Visit>, h: Hash) {
    exists i: nat, j: nat :: i < j && Serves(vs, h, i) && Serves(vs, h, j)
  }

  lemma TwiceAgain(v: Visit, later: seq<Visit>, h: Hash)
    requires ServesTwice(later, h)
    ensures ServesTwice([v] + later, h)
  {
    var i: nat, j: nat :| i < j && Serves(later, h, i) && Serves(later, h, j);
    assert Serves([v] + later, h, i + 1) && Serves([v] + later, h, j + 1);
  }

  lemma NowAndAgain(v: Visit, later: seq<Visit>, i: nat)
    requires Serves(later, v.hash, i)
    ensures ServesTwice([v] + later, v.hash)
  {
    assert Serves([v] + later, v.hash, 0) && Serves([v] + later, v.hash, i + 1);
  }

  lemma {:induction false} WaitingIsServed(repo: Repository, w: Walk, l: nat, s: nat) returns (i: nat)
    requires Valid(repo, w) && WaitsIn(w.stack, l, s)
    ensures Serves(Visits(repo, w), w.stack[l].hashes[s], i)
    decreases Known(repo) - w.seen, Waiting(w.stack)
  {
    var h := w.stack[l].hashes[s];
    VisitsNext(repo, w);
    var later := Visits(repo, Step(repo, w));
    if l == |w.stack| - 1 && s == w.stack[l].pos {
      ServesNext(Current(w), later, h, 0);
      return 0;
    }
    Stays(repo, w, l, s);
    i := WaitingIsServed(repo, Step(repo, w), l, s);
    assert Serves(later, h, i);
    ServesNext(Current(w), later, h, i);
    i := i + 1;
  }

  // The hash at (k, r) is served before the one at (l, s) and leads to it.
  ghost predicate Ahead(repo: Repository, w: Walk, k: nat, r: nat, l: nat, s: nat) {
    && WaitsIn(w.stack, k, r) && WaitsIn(w.stack, l, s)
    && (l < k || (l == k && r < s))
    && Leads(repo, w.stack[k].hashes[r], w.stack[l].hashes[s], w.seen)
  }

  lemma AheadStays(repo: Repository, w: Walk, k: nat, r: nat, l: nat, s: nat)
    requires ValidStack(w.stack) && w.stack != [] && Ahead(repo, w, k, r, l, s)
    ensures WaitsIn(Step(repo, w).stack, l, s) && l < |Consume(w.stack)|
    ensures Step(repo, w).stack[l].hashes == w.stack[l].hashes
  {
    Stays(repo, w, l, s);
  }

  lemma StepKeepsAhead(repo: Repository, w: Walk, k: nat, r: nat, l: nat, s: nat) returns (k': nat, r': nat)
    requires ValidStack(w.stack) && w.stack != [] && Ahead(repo, w, k, r, l, s)
    requires Current(w).hash != w.stack[l].hashes[s]
    ensures Ahead(repo, Step(repo, w), k', r', l, s)
  {
    var h, p, a := Current(w).hash, w.stack[l].hashes[s], w.stack[k].hashes[r];
    var n: nat :| FreshPath(repo, a, p, n, w.seen);
    FreshPathSplits(repo, a, p, n, w.seen, h);
    AheadStays(repo, w, k, r, l, s);
    StepStack(repo, w);
    if Leads(repo, a, p, w.seen + {h}) {
      k', r' := k, r;
      assert a != h;
      Stays(repo, w, k, r);
    } else {
      var m :| m in Parents(repo, h) && Leads(repo, m, p, w.seen + {h});
      UnseenHas(Parents(repo, h), w.seen + {h});
      assert m in Pushed(repo, w).hashes;
      r' :| 0 <= r' < |Pushed(repo, w).hashes| && Pushed(repo, w).hashes[r'] == m;
      k' := |Consume(w.stack)|;
    }
  }

  lemma {:induction false} AheadIsServedTwice(repo: Repository, w: Walk, k: nat, r: nat, l: nat, s: nat)
    requires Valid(repo, w) && Ahead(repo, w, k, r, l, s)
    ensures ServesTwice(Visits(repo, w), w.stack[l].hashes[s])
    decreases Known(repo) - w.seen, Waiting(w.stack)
  {
    var p, later := w.stack[l].hashes[s], Step(repo, w);
    VisitsNext(repo, w);
    AheadStays(repo, w, k, r, l, s);
    if Current(w).hash == p {
      var j := WaitingIsServed(repo, later, l, s);
      NowAndAgain(Current(w), Visits(repo, later), j);
    } else {
      var k', r' := StepKeepsAhead(repo, w, k, r, l, s);
      AheadIsServedTwice(repo, later, k', r', l, s);
      TwiceAgain(Current(w), Visits(repo, later), p);
    }
  }

  lemma UnseenFront(hashes: seq<Hash>, seen: set<Hash>, q: nat)
    requires hashes != [] && q < |Unseen(hashes[..|hashes| - 1], seen)|
    ensures q < |Unseen(hashes, seen)| && Unseen(hashes, seen)[q] == Unseen(hashes[..|hashes| - 1], seen)[q]
  {}

  lemma UnseenAt(hashes: seq<Hash>, seen: set<Hash>, i: nat) returns (q: nat)
    requires i < |hashes| && hashes[i] !in seen
    ensures q < |Unseen(hashes, seen)| && Unseen(hashes, seen)[q] == hashes[i]
  {
    UnseenHas(hashes, seen);
    assert hashes[i] in Unseen(hashes, seen);
    q :| q < |Unseen(hashes, seen)| && Unseen(hashes, seen)[q] == hashes[i];
  }

  lemma {:induction false} UnseenAppend(a: seq<Hash>, b: seq<Hash>, seen: set<Hash>)
    ensures Unseen(a + b, seen) == Unseen(a, seen) + Unseen(b, seen)
    decreases |b|
  {
    if b == [] {
      assert a + b == a;
    } else {
      var n := |b| - 1;
      UnseenAppend(a, b[..n], seen);
      assert (a + b)[..|a| + n] == a + b[..n] && (a + b)[|a| + n] == b[n];
      Associative(Unseen(a, seen), Unseen(b[..n], seen), if b[n] in seen then [] else [b[n]]);
    }
  }

  // Parents are pushed in their order.
  lemma UnseenKeepsOrder(hashes: seq<Hash>, seen: set<Hash>, i: nat, j: nat) returns (q: nat, r: nat)
    requires i < j < |hashes| && hashes[i] !in seen && hashes[j] !in seen
    ensures q < r < |Unseen(hashes, seen)|
    ensures Unseen(hashes, seen)[q] == hashes[i] && Unseen(hashes, seen)[r] == hashes[j]
  {
    assert hashes == hashes[..j] + hashes[j..];
    UnseenAppend(hashes[..j], hashes[j..], seen);
    q := UnseenAt(hashes[..j], seen, i);
    r := UnseenAt(hashes[j..], seen, 0);
    r := |Unseen(hashes[..j], seen)| + r;
  }

  lemma UnclearIsServedTwice(repo: Repository, w: Walk) returns (p: Hash)
    requires Valid(repo, w) && w.stack != [] && !Clear(repo, Current(w).hash, w.seen + {Current(w).hash})
    ensures Valid(repo, Step(repo, w)) && IsCommit(repo, p) && ServesTwice(Visits(repo, Step(repo, w)), p)
  {
    var h, seen := Current(w).hash, w.seen + {Current(w).hash};
    var i, j :| 0 <= i < j < |Parents(repo, h)| && IsCommit(repo, Parents(repo, h)[j])
                && Leads(repo, Parents(repo, h)[i], Parents(repo, h)[j], seen);
    p := Parents(repo, h)[j];
    var n: nat :| FreshPath(repo, Parents(repo, h)[i], p, n, seen);
    FreshPathEnds(repo, Parents(repo, h)[i], p, n, seen);
    var q, r := UnseenKeepsOrder(Parents(repo, h), seen, i, j);
    StepKeepsValid(repo, w);
    StepStack(repo, w);
    var k := |Consume(w.stack)|;
    assert Ahead(repo, Step(repo, w), k, q, k, r);
    AheadIsServedTwice(repo, Step(repo, w), k, q, k, r);
  }

  lemma {:induction false} DisorderIsServedTwice(repo: Repository, w: Walk) returns (p: Hash)
    requires Valid(repo, w) && !Orderly(repo, w)
    ensures IsCommit(repo, p) && ServesTwice(Visits(repo, w), p)
    decreases Known(repo) - w.seen, Waiting(w.stack)
  {
    VisitsNext(repo, w);
    if Clear(repo, Current(w).hash, w.seen + {Current(w).hash}) {
      p := DisorderIsServedTwice(repo, Step(repo, w));
    } else {
      p := UnclearIsServedTwice(repo, w);
    }
    TwiceAgain(Current(w), Visits(repo, Step(repo, w)), p);
  }

  // -------------------------------------------------------------------------
  // What the stack looks like while nothing was pushed twice
  // -------------------------------------------------------------------------

  // `base` is what had been served when the frame was pushed.
  ghost predicate Sorted(repo: Repository, f: Frame, base: set<Hash>) {
    && (forall h :: h in f.hashes ==> h !in base)
    && (forall q, r :: 0 <= q < r < |f.hashes| && f.pos <= r && IsCommit(repo, f.hashes[r]) ==>
          !Leads(repo, f.hashes[q], f.hashes[r], base))
  }

  // Everything above a frame is reached from the hash it served last.
  ghost predicate Nested(repo: Repository, f: Frame, base: set<Hash>, above: Frame) {
    0 < f.pos <= |f.hashes| && forall h :: h in above.hashes ==> Leads(repo, f.hashes[f.pos - 1], h, base)
  }

  ghost predicate NotServed(repo: Repository, f: Frame, seen: set<Hash>) {
    forall r :: f.pos <= r < |f.hashes| && IsCommit(repo, f.hashes[r]) ==> f.hashes[r] !in seen
  }

  ghost predicate Settled(repo: Repository, f: Frame, base: set<Hash>, seen: set<Hash>) {
    base <= seen && Sorted(repo, f, base) && NotServed(repo, f, seen)
  }

  ghost predicate Layered(repo: Repository, w: Walk, bases: seq<set<Hash>>) {
    && ValidStack(w.stack) && |bases| == |w.stack|
    && (forall k :: 0 <= k < |w.stack| ==> Settled(repo, w.stack[k], bases[k], w.seen))
    && (forall k, l :: 0 <= k < l < |w.stack| ==> Nested(repo, w.stack[k], bases[k], w.stack[l]))
  }

  lemma NotAbove(repo: Repository, w: Walk, bases: seq<set<Hash>>, k: nat, r: nat, l: nat, s: nat)
    requires Layered(repo, w, bases) && WaitsIn(w.stack, k, r) && WaitsIn(w.stack, l, s) && k < l
    requires IsCommit(repo, w.stack[k].hashes[r])
    ensures w.stack[k].hashes[r] != w.stack[l].hashes[s]
  {
    var f, h := w.stack[k], w.stack[l].hashes[s];
    assert Settled(repo, f, bases[k], w.seen);
    assert Nested(repo, f, bases[k], w.stack[l]);
    assert h in w.stack[l].hashes && Leads(repo, f.hashes[f.pos - 1], h, bases[k]);
  }

  // No commit waits in two places.
  lemma WaitsOnce(repo: Repository, w: Walk, bases: seq<set<Hash>>, k: nat, r: nat, l: nat, s: nat)
    requires Layered(repo, w, bases) && WaitsIn(w.stack, k, r) && WaitsIn(w.stack, l, s)
    requires IsCommit(repo, w.stack[k].hashes[r]) && w.stack[k].hashes[r] == w.stack[l].hashes[s]
    ensures k == l && r == s
  {
    if k < l {
      NotAbove(repo, w, bases, k, r, l, s);
    } else if l < k {
      NotAbove(repo, w, bases, l, s, k, r);
    } else if r != s {
      var f, h := w.stack[k], w.stack[k].hashes[r];
      assert Settled(repo, f, bases[k], w.seen) && h in f.hashes;
      assert FreshPath(repo, h, h, 0, bases[k]) && Leads(repo, f.hashes[r], f.hashes[s], bases[k]);
    }
  }

  // -------------------------------------------------------------------------
  // A step over a commit whose parents are clear
  // -------------------------------------------------------------------------

  lemma {:induction false} UnseenFrom(hashes: seq<Hash>, seen: set<Hash>, q: nat, r: nat) returns (i: nat, j: nat)
    requires q < r < |Unseen(hashes, seen)|
    ensures i < j < |hashes| && hashes[i] == Unseen(hashes, seen)[q] && hashes[j] == Unseen(hashes, seen)[r]
  {
    var n := |hashes| - 1;
    var front := Unseen(hashes[..n], seen);
    if r < |front| {
      i, j := UnseenFrom(hashes[..n], seen, q, r);
      UnseenFront(hashes, seen, q);
      UnseenFront(hashes, seen, r);
    } else {
      j := n;
      UnseenFront(hashes, seen, q);
      UnseenHas(hashes[..n], seen);
      assert front[q] in front;
      i :| 0 <= i < n && hashes[..n][i] == front[q];
    }
  }

  lemma PushedIsSettled(repo: Repository, w: Walk)
    requires ValidStack(w.stack) && w.stack != [] && Clear(repo, Current(w).hash, w.seen + {Current(w).hash})
    ensures var seen := w.seen + {Current(w).hash}; Settled(repo, Pushed(repo, w), seen, seen)
  {
    var f, h, seen := Pushed(repo, w), Current(w).hash, w.seen + {Current(w).hash};
    UnseenHas(Parents(repo, h), seen);
    forall q, r | 0 <= q < r < |f.hashes| && IsCommit(repo, f.hashes[r])
      ensures !Leads(repo, f.hashes[q], f.hashes[r], seen)
    {
      var i, j := UnseenFrom(Parents(repo, h), seen, q, r);
    }
    forall r | 0 <= r < |f.hashes| ensures f.hashes[r] !in seen {
      assert f.hashes[r] in f.hashes;
    }
  }

  // What is pushed is reached from what each frame below served last.
  lemma PushedIsNested(repo: Repository, w: Walk, bases: seq<set<Hash>>, k: nat)
    requires Layered(repo, w, bases) && w.stack != [] && k < |Consume(w.stack)|
    ensures Nested(repo, Consume(w.stack)[k], bases[k], Pushed(repo, w))
  {
    var t, f, h, g := |w.stack| - 1, Pushed(repo, w), Current(w).hash, Consume(w.stack)[k];
    UnseenHas(Parents(repo, h), w.seen + {h});
    assert Settled(repo, w.stack[k], bases[k], w.seen) && Settled(repo, w.stack[t], bases[t], w.seen);
    assert h in w.stack[t].hashes;
    if k < t {
      assert Nested(repo, w.stack[k], bases[k], w.stack[t]);
    }
    forall p | p in f.hashes ensures Leads(repo, g.hashes[g.pos - 1], p, bases[k]) {
      if k < t {
        LeadsStep(repo, g.hashes[g.pos - 1], h, p, bases[k]);
      } else {
        LeadsToParent(repo, h, p, bases[k]);
      }
    }
  }

  lemma StillSettled(repo: Repository, w: Walk, bases: seq<set<Hash>>, k: nat)
    requires Layered(repo, w, bases) && w.stack != [] && k < |Consume(w.stack)|
    ensures Settled(repo, Consume(w.stack)[k], bases[k], w.seen + {Current(w).hash})
  {
    var t, f := |w.stack| - 1, Consume(w.stack)[k];
    assert Settled(repo, w.stack[k], bases[k], w.seen);
    forall r | f.pos <= r < |f.hashes| && IsCommit(repo, f.hashes[r]) ensures f.hashes[r] !in w.seen + {Current(w).hash} {
      WaitedIn(w.stack, k, r);
      if f.hashes[r] == Current(w).hash {
        WaitsOnce(repo, w, bases, k, r, t, w.stack[t].pos);
      }
    }
  }

  function NextBases(repo: Repository, w: Walk, bases: seq<set<Hash>>): seq<set<Hash>>
    requires ValidStack(w.stack) && w.stack != [] && |bases| == |w.stack|
  {
    bases[..|Consume(w.stack)|] + if Pushed(repo, w).hashes == [] then [] else [w.seen + {Current(w).hash}]
  }

  lemma StepKeepsLayered(repo: Repository, w: Walk, bases: seq<set<Hash>>)
    requires Valid(repo, w) && Layered(repo, w, bases) && w.stack != []
    requires Clear(repo, Current(w).hash, w.seen + {Current(w).hash})
    ensures Layered(repo, Step(repo, w), NextBases(repo, w, bases))
  {
    var rest, next, bases' := Consume(w.stack), Step(repo, w), NextBases(repo, w, bases);
    StepStack(repo, w);
    StepKeepsValid(repo, w);
    PushedIsSettled(repo, w);
    forall k | 0 <= k < |next.stack| ensures Settled(repo, next.stack[k], bases'[k], next.seen) {
      if k < |rest| {
        StillSettled(repo, w, bases, k);
        assert next.stack[k] == rest[k] && bases'[k] == bases[k];
      } else {
        assert next.stack[k] == Pushed(repo, w) && bases'[k] == next.seen;
      }
    }
    forall k, l | 0 <= k < l < |next.stack| ensures Nested(repo, next.stack[k], bases'[k], next.stack[l]) {
      assert next.stack[k] == rest[k] && bases'[k] == bases[k];
      if l < |rest| {
        StillNested(repo, w, bases, k, l);
        assert next.stack[l] == rest[l];
      } else {
        PushedIsNested(repo, w, bases, k);
        assert next.stack[l] == Pushed(repo, w);
      }
    }
  }

  lemma StillNested(repo: Repository, w: Walk, bases: seq<set<Hash>>, k: nat, l: nat)
    requires Layered(repo, w, bases) && w.stack != [] && k < l < |Consume(w.stack)|
    ensures Nested(repo, Consume(w.stack)[k], bases[k], Consume(w.stack)[l])
  {
    ConsumeKeeps(w.stack);
    assert Nested(repo, w.stack[k], bases[k], w.stack[l]);
  }

  // -------------------------------------------------------------------------
  // Then nothing is served twice
  // -------------------------------------------------------------------------

  ghost predicate ServedOnce(repo: Repository, vs: seq<Visit>, seen: set<Hash>) {
    && (forall i, j :: 0 <= i < j < |vs| && IsCommit(repo, vs[j].hash) ==> vs[i].hash != vs[j].hash)
    && (forall i :: 0 <= i < |vs| && IsCommit(repo, vs[i].hash) ==> vs[i].hash !in seen)
  }

  lemma CurrentIsNew(repo: Repository, w: Walk, bases: seq<set<Hash>>)
    requires Layered(repo, w, bases) && w.stack != [] && IsCommit(repo, Current(w).hash)
    ensures Current(w).hash !in w.seen
  {
    var t := |w.stack| - 1;
    assert Settled(repo, w.stack[t], bases[t], w.seen);
  }

  lemma ServedOnceNext(repo: Repository, v: Visit, later: seq<Visit>, seen: set<Hash>)
    requires ServedOnce(repo, later, seen + {v.hash}) && (IsCommit(repo, v.hash) ==> v.hash !in seen)
    ensures ServedOnce(repo, [v] + later, seen)
  {
    var vs := [v] + later;
    forall i | 0 <= i < |vs| && IsCommit(repo, vs[i].hash) ensures vs[i].hash !in seen {
      assert i > 0 ==> vs[i] == later[i - 1];
    }
    forall i, j | 0 <= i < j < |vs| && IsCommit(repo, vs[j].hash) ensures vs[i].hash != vs[j].hash {
      assert vs[j] == later[j - 1];
      assert i > 0 ==> vs[i] == later[i - 1];
    }
  }

  lemma {:induction false} OrderIsServedOnce(repo: Repository, w: Walk, bases: seq<set<Hash>>)
    requires Valid(repo, w) && Layered(repo, w, bases) && Orderly(repo, w)
    ensures ServedOnce(repo, Visits(repo, w), w.seen)
    decreases Known(repo) - w.seen, Waiting(w.stack)
  {
    if w.stack != [] {
      VisitsNext(repo, w);
      StepKeepsLayered(repo, w, bases);
      OrderIsServedOnce(repo, Step(repo, w), NextBases(repo, w, bases));
      if IsCommit(repo, Current(w).hash) {
        CurrentIsNew(repo, w, bases);
      }
      ServedOnceNext(repo, Current(w), Visits(repo, Step(repo, w)), w.seen);
    }
  }

  lemma TwiceIsNotOnce(repo: Repository, vs: seq<Visit>, p: Hash, seen: set<Hash>)
    requires IsCommit(repo, p) && ServesTwice(vs, p)
    ensures !ServedOnce(repo, vs, seen)
  {
    var i: nat, j: nat :| i < j && Serves(vs, p, i) && Serves(vs, p, j);
    assert vs[i].hash == vs[j].hash;
  }

  lemma StartIsLayered(repo: Repository, start: Hash)
    ensures Layered(repo, Start(start), [{}])
  {
    assert Settled(repo, Start(start).stack[0], {}, {});
  }

  // On any store, the walk serves each commit once exactly if it is orderly.
  lemma ServedOnceIff(repo: Repository, start: Hash)
    requires start in Known(repo)
    ensures Valid(repo, Start(start))
    ensures ServedOnce(repo, Visits(repo, Start(start)), {}) <==> Orderly(repo, Start(start))
  {
    StartIsValid(repo, start);
    StartIsLayered(repo, start);
    if Orderly(repo, Start(start)) {
      OrderIsServedOnce(repo, Start(start), [{}]);
    } else {
      var p := DisorderIsServedTwice(repo, Start(start));
      TwiceIsNotOnce(repo, Visits(repo, Start(start)), p, {});
    }
  }

  // -------------------------------------------------------------------------
  // The same of the results
  // -------------------------------------------------------------------------

  function Hashes(items: seq<Item>): set<Hash> {
    set e | e in items && e.Emit? :: e.hash
  }

  ghost predicate ReturnedOnce(items: seq<Item>) {
    forall i, j :: 0 <= i < j < |items| && items[i].Emit? && items[j].Emit? ==> items[i].hash != items[j].hash
  }

  // At every result, no parent yet to come can be reached from an earlier one through hashes yet to come.
  ghost predicate Untangled(repo: Repository, items: seq<Item>, seen: set<Hash>) {
    forall n :: 0 <= n < |items| ==> ClearAt(repo, items, n, seen)
  }

  ghost predicate ClearAt(repo: Repository, items: seq<Item>, n: nat, seen: set<Hash>)
    requires n < |items|
  {
    items[n].Emit? ==> Clear(repo, items[n].hash, seen + Hashes(items[..n + 1]))
  }

  lemma HashesNext(e: Item, rest: seq<Item>)
    ensures Hashes([e] + rest) == (if e.Emit? then {e.hash} else {}) + Hashes(rest)
  {}

  lemma ClearAtNext(repo: Repository, e: Item, rest: seq<Item>, n: nat, seen: set<Hash>)
    requires n < |rest|
    ensures ClearAt(repo, [e] + rest, n + 1, seen) <==> ClearAt(repo, rest, n, if e.Emit? then seen + {e.hash} else seen)
  {
    assert ([e] + rest)[..n + 2] == [e] + rest[..n + 1];
    HashesNext(e, rest[..n + 1]);
    var head := if e.Emit? then {e.hash} else {};
    assert seen + (head + Hashes(rest[..n + 1])) == seen + head + Hashes(rest[..n + 1]);
    assert seen + {} == seen;
  }

  lemma ClearAtFirst(repo: Repository, e: Item, rest: seq<Item>, seen: set<Hash>)
    ensures ClearAt(repo, [e] + rest, 0, seen) <==> (e.Emit? ==> Clear(repo, e.hash, seen + {e.hash}))
  {
    assert ([e] + rest)[..1] == [e];
    assert e.Emit? ==> Hashes([e]) == {e.hash};
  }

  lemma UntangledNext(repo: Repository, e: Item, rest: seq<Item>, seen: set<Hash>)
    ensures Untangled(repo, [e] + rest, seen)
            <==> (e.Emit? ==> Clear(repo, e.hash, seen + {e.hash}))
                 && Untangled(repo, rest, if e.Emit? then seen + {e.hash} else seen)
  {
    var items, seen' := [e] + rest, if e.Emit? then seen + {e.hash} else seen;
    ClearAtFirst(repo, e, rest, seen);
    if Untangled(repo, items, seen) {
      forall n | 0 <= n < |rest| ensures ClearAt(repo, rest, n, seen') {
        assert ClearAt(repo, items, n + 1, seen);
        ClearAtNext(repo, e, rest, n, seen);
      }
    } else {
      var n :| 0 <= n < |items| && !ClearAt(repo, items, n, seen);
      if n > 0 {
        ClearAtNext(repo, e, rest, n - 1, seen);
      }
    }
  }

  // Only the commits among the served hashes matter.
  ghost predicate SameCommits(repo: Repository, a: set<Hash>, b: set<Hash>) {
    forall h :: IsCommit(repo, h) ==> (h in a <==> h in b)
  }

  lemma {:induction false} FreshPathSame(repo: Repository, a: Hash, b: Hash, n: nat, s: set<Hash>, t: set<Hash>)
    requires SameCommits(repo, s, t) && IsCommit(repo, b) && FreshPath(repo, a, b, n, s)
    ensures FreshPath(repo, a, b, n, t)
    decreases n
  {
    if n > 0 {
      var m :| m in Parents(repo, a) && FreshPath(repo, m, b, n - 1, s);
      FreshPathSame(repo, m, b, n - 1, s, t);
    }
  }

  lemma LeadsSame(repo: Repository, a: Hash, b: Hash, s: set<Hash>, t: set<Hash>)
    requires SameCommits(repo, s, t) && IsCommit(repo, b) && Leads(repo, a, b, s)
    ensures Leads(repo, a, b, t)
  {
    var n: nat :| FreshPath(repo, a, b, n, s);
    FreshPathSame(repo, a, b, n, s, t);
  }

  lemma ClearSame(repo: Repository, h: Hash, s: set<Hash>, t: set<Hash>)
    requires SameCommits(repo, s, t) && Clear(repo, h, s)
    ensures Clear(repo, h, t)
  {
    var ps := Parents(repo, h);
    forall i, j | 0 <= i < j < |ps| && IsCommit(repo, ps[j]) ensures !Leads(repo, ps[i], ps[j], t) {
      if Leads(repo, ps[i], ps[j], t) {
        LeadsSame(repo, ps[i], ps[j], t, s);
      }
    }
  }

  lemma {:induction false} OrderlyIsUntangled(repo: Repository, skip: bool, w: Walk, seen: set<Hash>)
    requires Valid(repo, w) && SameCommits(repo, w.seen, seen)
    ensures Orderly(repo, w) <==> Untangled(repo, Deliver(repo, skip, Visits(repo, w)), seen)
    decreases Known(repo) - w.seen, Waiting(w.stack)
  {
    if w.stack != [] {
      VisitsNext(repo, w);
      TurnTakesFront(repo, skip, w);
      var h, idx := Current(w).hash, Current(w).idx;
      var rest := Deliver(repo, skip, Visits(repo, Step(repo, w)));
      if IsCommit(repo, h) {
        OrderlyIsUntangled(repo, skip, Step(repo, w), seen + {h});
        UntangledNext(repo, Emit(h, idx), rest, seen);
        if Clear(repo, h, seen + {h}) {
          ClearSame(repo, h, seen + {h}, w.seen + {h});
        } else if Clear(repo, h, w.seen + {h}) {
          ClearSame(repo, h, w.seen + {h}, seen + {h});
        }
      } else {
        OrderlyIsUntangled(repo, skip, Step(repo, w), seen);
        UntangledNext(repo, Fail, rest, seen);
      }
    }
  }

  lemma ReturnedOnceNext(e: Item, rest: seq<Item>)
    ensures ReturnedOnce([e] + rest) <==> ReturnedOnce(rest) && (e.Emit? ==> e.hash !in Hashes(rest))
  {
    var items := [e] + rest;
    if ReturnedOnce(items) {
      forall i, j | 0 <= i < j < |rest| && rest[i].Emit? && rest[j].Emit? ensures rest[i].hash != rest[j].hash {
        assert items[i + 1] == rest[i] && items[j + 1] == rest[j];
      }
      forall j | 0 <= j < |rest| && rest[j].Emit? && e.Emit? ensures rest[j].hash != e.hash {
        assert items[0] == e && items[j + 1] == rest[j];
      }
    } else {
      var i, j :| 0 <= i < j < |items| && items[i].Emit? && items[j].Emit? && items[i].hash == items[j].hash;
      assert items[j] == rest[j - 1];
      assert i > 0 ==> items[i] == rest[i - 1];
    }
  }

  lemma ServedOnceSplits(repo: Repository, v: Visit, later: seq<Visit>)
    ensures ServedOnce(repo, [v] + later, {})
            <==> ServedOnce(repo, later, {})
                 && (IsCommit(repo, v.hash) ==> forall i :: 0 <= i < |later| ==> later[i].hash != v.hash)
  {
    var vs := [v] + later;
    if ServedOnce(repo, vs, {}) {
      forall i, j | 0 <= i < j < |later| && IsCommit(repo, later[j].hash) ensures later[i].hash != later[j].hash {
        assert vs[i + 1] == later[i] && vs[j + 1] == later[j];
      }
      forall i | 0 <= i < |later| && IsCommit(repo, v.hash) ensures later[i].hash != v.hash {
        assert vs[0] == v && vs[i + 1] == later[i];
      }
    } else {
      var i, j :| 0 <= i < j < |vs| && IsCommit(repo, vs[j].hash) && vs[i].hash == vs[j].hash;
      assert vs[j] == later[j - 1];
      assert i > 0 ==> vs[i] == later[i - 1];
    }
  }

  lemma DeliveredHash(repo: Repository, skip: bool, vs: seq<Visit>, h: Hash)
    requires IsCommit(repo, h)
    ensures h in Hashes(Deliver(repo, skip, vs)) <==> exists i :: 0 <= i < |vs| && vs[i].hash == h
  {
    DeliverMembers(repo, skip, vs);
    if i :| 0 <= i < |vs| && vs[i].hash == h {
      assert Visit(h, vs[i].idx) in vs;
      assert Emit(h, vs[i].idx) in Deliver(repo, skip, vs);
    }
    if h in Hashes(Deliver(repo, skip, vs)) {
      var e :| e in Deliver(repo, skip, vs) && e.Emit? && e.hash == h;
      assert Emit(h, e.idx) in Deliver(repo, skip, vs) && Visit(h, e.idx) in vs;
    }
  }

  lemma {:induction false} ReturnedOnceIsServedOnce(repo: Repository, skip: bool, vs: seq<Visit>)
    ensures ReturnedOnce(Deliver(repo, skip, vs)) <==> ServedOnce(repo, vs, {})
  {
    if vs != [] {
      var v, rest := vs[0], Deliver(repo, skip, vs[1..]);
      ReturnedOnceIsServedOnce(repo, skip, vs[1..]);
      assert vs == [v] + vs[1..];
      ServedOnceSplits(repo, v, vs[1..]);
      if IsCommit(repo, v.hash) {
        ReturnedOnceNext(Emit(v.hash, v.idx), rest);
        DeliveredHash(repo, skip, vs[1..], v.hash);
      } else {
        ReturnedOnceNext(Fail, rest);
        assert [] + rest == rest;
      }
    }
  }

  // On any store, every commit is returned at most once exactly if the walk is orderly.
  lemma ReturnedOnceIff(repo: Repository, skip: bool, start: Hash)
    requires start in Known(repo)
    ensures Valid(repo, Start(start))
    ensures ReturnedOnce(History(repo, skip, start)) <==> Orderly(repo, Start(start))
  {
    ServedOnceIff(repo, start);
    ReturnedOnceIsServedOnce(repo, skip, Visits(repo, Start(start)));
  }

  // The same, read off the results.
  lemma CommitsComeOnceIff(repo: Repository, skip: bool, start: Hash)
    requires start in Known(repo)
    ensures var items := History(repo, skip, start);
            ReturnedOnce(items) <==> Untangled(repo, items, {})
  {
    ReturnedOnceIff(repo, skip, start);
    OrderlyIsUntangled(repo, skip, Start(start), {});
  }
}
