// The repository every iterator reads: a finite store of git objects, its references and HEAD.

module Objects {

  datatype Option<+T> = None | Some(value: T)

  lemma Associative<T>(a: seq<T>, b: seq<T>, c: seq<T>)
    ensures a + b + c == a + (b + c)
  {}

  // One call of an iterator took the first of its remaining results off; None is the end.
  ghost predicate TakesFirst<T(!new)>(before: seq<T>, r: Option<T>, after: seq<T>) {
    if r.None? then before == [] && after == [] else before == [r.value] + after
  }

  datatype Hash = Hash(digest: nat)

  datatype Signature = Signature(name: string, email: string, time: int)

  datatype TreeEntry = TreeEntry(name: string, mode: nat, hash: Hash)

  datatype Object =
    | Commit(tree: Hash, parents: seq<Hash>, author: Signature, committer: Signature, message: string)
    | Tag(target: Hash)
    | Tree(entries: seq<TreeEntry>)
    | Blob(size: nat, content: string)

  // Only references of the first kind hold a hash; the iterators ignore the others.
  datatype Reference = HashRef(name: string, hash: Hash) | SymbolicRef(name: string, target: string)

  // A file of a tree, as go-git lists it when it walks the tree recursively.
  datatype File = File(name: string, hash: Hash, mode: string, size: nat, content: string)

  datatype Repository = Repository(
    id: string,
    objects: map<Hash, Object>,
    refs: seq<Reference>,
    head: Option<Hash>,
    files: map<Hash, seq<File>>)

  predicate IsCommit(repo: Repository, h: Hash) {
    h in repo.objects && repo.objects[h].Commit?
  }

  // The parents of a commit; anything else, a missing object included, has none.
  function Parents(repo: Repository, h: Hash): seq<Hash> {
    if IsCommit(repo, h) then repo.objects[h].parents else []
  }

  // The hashes a walk over parents can ever meet.
  function Known(repo: Repository): set<Hash> {
    repo.objects.Keys + set h, p | h in repo.objects.Keys && p in Parents(repo, h) :: p
  }

  lemma ParentsAreKnown(repo: Repository, h: Hash, p: Hash)
    requires p in Parents(repo, h)
    ensures p in Known(repo)
  {
    assert h in repo.objects.Keys;
  }

  // -------------------------------------------------------------------------
  // Annotated tags
  // -------------------------------------------------------------------------

  datatype Resolution = Found(commit: Hash) | NotACommit | Missing

  // `open` holds the hashes that have not been followed yet, so that the recursion ends on any
  // store. Git names a tag by its content and cannot build a cycle of tags; here one is no commit.
  function ResolveAmong(repo: Repository, h: Hash, open: set<Hash>): Resolution
    decreases open
  {
    if h !in repo.objects then Missing
    else
      match repo.objects[h]
      case Commit(_, _, _, _, _) => Found(h)
      case Tag(target) => if h in open then ResolveAmong(repo, target, open - {h}) else NotACommit
      case _ => NotACommit
  }

  function Resolve(repo: Repository, h: Hash): Resolution {
    ResolveAmong(repo, h, repo.objects.Keys)
  }

  lemma {:induction false} ResolveAmongFindsCommit(repo: Repository, h: Hash, open: set<Hash>)
    ensures ResolveAmong(repo, h, open).Found? ==> IsCommit(repo, ResolveAmong(repo, h, open).commit)
    decreases open
  {
    if h in repo.objects && repo.objects[h].Tag? && h in open {
      ResolveAmongFindsCommit(repo, repo.objects[h].target, open - {h});
    }
  }

  lemma ResolveFindsCommit(repo: Repository, h: Hash)
    ensures Resolve(repo, h).Found? ==> IsCommit(repo, Resolve(repo, h).commit)
    ensures IsCommit(repo, h) ==> Resolve(repo, h) == Found(h)
  {
    ResolveAmongFindsCommit(repo, h, repo.objects.Keys);
  }

  // A chain of exactly n tags leads from a to b.
  ghost predicate TagChain(repo: Repository, a: Hash, b: Hash, n: nat)
    decreases n
  {
    if n == 0 then a == b
    else a in repo.objects && repo.objects[a].Tag? && TagChain(repo, repo.objects[a].target, b, n - 1)
  }

  // Following a chain that never meets h does not depend on whether h was followed before.
  lemma {:induction false} ResolveWithout(repo: Repository, a: Hash, open: set<Hash>, h: Hash)
    requires forall n: nat :: !TagChain(repo, a, h, n)
    ensures ResolveAmong(repo, a, open - {h}) == ResolveAmong(repo, a, open)
    decreases open
  {
    assert !TagChain(repo, a, h, 0);
    if a in repo.objects && repo.objects[a].Tag? && a in open {
      var target := repo.objects[a].target;
      forall n: nat ensures !TagChain(repo, target, h, n) {
        assert !TagChain(repo, a, h, n + 1);
      }
      ResolveWithout(repo, target, open - {a}, h);
      assert open - {a} - {h} == open - {h} - {a};
    }
  }

  // A tag resolves as its target does, unless it leads to itself.
  lemma TagResolvesAsTarget(repo: Repository, h: Hash)
    requires h in repo.objects && repo.objects[h].Tag?
    requires forall n: nat :: !TagChain(repo, repo.objects[h].target, h, n)
    ensures Resolve(repo, h) == Resolve(repo, repo.objects[h].target)
  {
    ResolveWithout(repo, repo.objects[h].target, repo.objects.Keys, h);
  }

  predicate IsTag(repo: Repository, h: Hash) {
    h in repo.objects && repo.objects[h].Tag?
  }

  ghost predicate TagsLead(repo: Repository, a: Hash, b: Hash) {
    exists n: nat :: TagChain(repo, a, b, n)
  }

  function EndOf(repo: Repository, end: Hash): Resolution {
    if end !in repo.objects then Missing else if IsCommit(repo, end) then Found(end) else NotACommit
  }

  lemma {:induction false} SplitChain(repo: Repository, a: Hash, b: Hash, n: nat, m: nat) returns (x: Hash)
    requires TagChain(repo, a, b, n) && m <= n
    ensures TagChain(repo, a, x, m) && TagChain(repo, x, b, n - m)
    decreases m
  {
    if m == 0 {
      x := a;
    } else {
      x := SplitChain(repo, repo.objects[a].target, b, n - 1, m - 1);
    }
  }

  lemma {:induction false} ChainIsUnique(repo: Repository, a: Hash, b: Hash, c: Hash, n: nat)
    requires TagChain(repo, a, b, n) && TagChain(repo, a, c, n)
    ensures b == c
    decreases n
  {
    if n > 0 {
      ChainIsUnique(repo, repo.objects[a].target, b, c, n - 1);
    }
  }

  // Tags that end somewhere do not lead back to themselves.
  lemma {:induction false} EndingIsNoCycle(repo: Repository, h: Hash, end: Hash, n: nat, m: nat)
    requires TagChain(repo, h, end, n) && !IsTag(repo, end) && m > 0
    ensures !TagChain(repo, h, h, m)
    decreases n
  {
    if TagChain(repo, h, h, m) {
      if m > n {
        var x := SplitChain(repo, h, h, m, n);
        ChainIsUnique(repo, h, x, end, n);
      } else {
        var x := SplitChain(repo, h, end, n, m);
        ChainIsUnique(repo, h, x, h, m);
        EndingIsNoCycle(repo, h, end, n - m, m);
      }
    }
  }

  lemma {:induction false} ResolveEnds(repo: Repository, h: Hash, end: Hash, n: nat)
    requires TagChain(repo, h, end, n) && !IsTag(repo, end)
    ensures Resolve(repo, h) == EndOf(repo, end)
    decreases n
  {
    if n > 0 {
      var target := repo.objects[h].target;
      forall k: nat ensures !TagChain(repo, target, h, k) {
        EndingIsNoCycle(repo, h, end, n, k + 1);
      }
      TagResolvesAsTarget(repo, h);
      ResolveEnds(repo, target, end, n - 1);
    }
  }

  lemma {:induction false} ResolveAmongEnds(repo: Repository, h: Hash, open: set<Hash>) returns (end: Hash, n: nat)
    requires ResolveAmong(repo, h, open) != NotACommit
    ensures TagChain(repo, h, end, n) && !IsTag(repo, end)
    ensures ResolveAmong(repo, h, open) == if end !in repo.objects then Missing else Found(end)
    decreases open
  {
    if IsTag(repo, h) {
      end, n := ResolveAmongEnds(repo, repo.objects[h].target, open - {h});
      n := n + 1;
    } else {
      end, n := h, 0;
    }
  }

  // A hash resolves to the commit that its tags end at, is missing if they end at nothing, and is no
  // commit if they end at a tree or a blob or go round in a circle.
  lemma ResolveIsExact(repo: Repository, h: Hash, c: Hash)
    ensures Resolve(repo, h) == Found(c) <==> c in repo.objects && repo.objects[c].Commit? && TagsLead(repo, h, c)
    ensures Resolve(repo, h) == Missing <==> exists end :: TagsLead(repo, h, end) && end !in repo.objects
  {
    ResolveFindsCommit(repo, h);
    if Resolve(repo, h) != NotACommit {
      var end, n := ResolveAmongEnds(repo, h, repo.objects.Keys);
      assert TagsLead(repo, h, end);
    }
    forall end | TagsLead(repo, h, end) && !IsTag(repo, end) ensures Resolve(repo, h) == EndOf(repo, end) {
      var n: nat :| TagChain(repo, h, end, n);
      ResolveEnds(repo, h, end, n);
    }
  }

  // -------------------------------------------------------------------------
  // Paths over parents
  // -------------------------------------------------------------------------

  // A path of exactly n parent links leads from a to b.
  ghost predicate Path(repo: Repository, a: Hash, b: Hash, n: nat)
    decreases n
  {
    if n == 0 then a == b
    else exists m :: Path(repo, a, m, n - 1) && b in Parents(repo, m)
  }

  ghost predicate Reachable(repo: Repository, a: Hash, b: Hash) {
    exists n: nat :: Path(repo, a, b, n)
  }

  // A path of one link goes to a hash that the commit lists as a parent.
  lemma OneLink(repo: Repository, a: Hash, b: Hash)
    ensures Path(repo, a, b, 1) <==> a in repo.objects && repo.objects[a].Commit? && b in repo.objects[a].parents
  {
    assert Path(repo, a, a, 0);
    if Path(repo, a, b, 1) {
      var m :| Path(repo, a, m, 1 - 1) && b in Parents(repo, m);
      assert m == a;
    }
    if IsCommit(repo, a) && b in repo.objects[a].parents {
      PathStep(repo, a, a, b, 0);
    }
  }

  lemma PathStep(repo: Repository, a: Hash, m: Hash, b: Hash, n: nat)
    requires Path(repo, a, m, n) && b in Parents(repo, m)
    ensures Path(repo, a, b, n + 1)
  {}

  // A set that contains a and is closed under parents contains everything a reaches.
  ghost predicate Closed(repo: Repository, s: iset<Hash>) {
    forall h, p :: h in s && p in Parents(repo, h) ==> p in s
  }

  lemma {:induction false} ClosedHoldsPath(repo: Repository, s: iset<Hash>, a: Hash, b: Hash, n: nat)
    requires Closed(repo, s) && a in s && Path(repo, a, b, n)
    ensures b in s
    decreases n
  {
    if n > 0 {
      var m :| Path(repo, a, m, n - 1) && b in Parents(repo, m);
      ClosedHoldsPath(repo, s, a, m, n - 1);
    }
  }

  lemma ClosedHoldsReachable(repo: Repository, s: iset<Hash>, a: Hash, b: Hash)
    requires Closed(repo, s) && a in s && Reachable(repo, a, b)
    ensures b in s
  {
    var n: nat :| Path(repo, a, b, n);
    ClosedHoldsPath(repo, s, a, b, n);
  }

  lemma ReachableStep(repo: Repository, a: Hash, b: Hash, p: Hash)
    requires Reachable(repo, a, b) && p in Parents(repo, b)
    ensures Reachable(repo, a, p)
  {
    var n: nat :| Path(repo, a, b, n);
    PathStep(repo, a, b, p, n);
  }

  // The shortest parent path from a to b has n links.
  ghost predicate Shortest(repo: Repository, a: Hash, b: Hash, n: nat) {
    Path(repo, a, b, n) && forall m: nat :: m < n ==> !Path(repo, a, b, m)
  }

  lemma ShortestIsUnique(repo: Repository, a: Hash, b: Hash, m: nat, n: nat)
    requires Shortest(repo, a, b, m) && Shortest(repo, a, b, n)
    ensures m == n
  {
    if m < n {
    } else if n < m {
    }
  }

  lemma {:induction false} SomeShortest(repo: Repository, a: Hash, b: Hash, n: nat) returns (m: nat)
    requires Path(repo, a, b, n)
    ensures m <= n && Shortest(repo, a, b, m)
    decreases n
  {
    if k: nat :| k < n && Path(repo, a, b, k) {
      m := SomeShortest(repo, a, b, k);
    } else {
      m := n;
    }
  }
}
