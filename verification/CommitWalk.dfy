// All commits of a repository: the breadth-first walk from every reference behind the table commits.

module CommitWalk {
  import opened Objects

  datatype Crawl = Crawl(refs: seq<Reference>, seen: set<Hash>, queue: seq<Hash>)

  // A key is marked once; it is the hash of a reference or of a parent.
  datatype Visit = FromRef(key: Hash) | FromParent(key: Hash)

  function Start(repo: Repository): Crawl {
    Crawl(repo.refs, {}, [])
  }

  // The commit a visit stands for, if it stands for one.
  function Yield(repo: Repository, v: Visit): Resolution {
    match v
    case FromRef(key) => Resolve(repo, key)
    case FromParent(key) => if IsCommit(repo, key) then Found(key) else Missing
  }

  function ParentsOf(repo: Repository, v: Visit): seq<Hash> {
    match Yield(repo, v)
    case Found(c) => Parents(repo, c)
    case _ => []
  }

  // What the next pass through the loop marks, if anything.
  function Mark(c: Crawl): Option<Visit>
    requires c.queue != [] || c.refs != []
  {
    if c.queue != [] then
      if c.queue[0] in c.seen then None else Some(FromParent(c.queue[0]))
    else
      if c.refs[0].SymbolicRef? || c.refs[0].hash in c.seen then None else Some(FromRef(c.refs[0].hash))
  }

  function Step(repo: Repository, c: Crawl): Crawl
    requires c.queue != [] || c.refs != []
  {
    var refs := if c.queue == [] then c.refs[1..] else c.refs;
    var queue := if c.queue == [] then [] else c.queue[1..];
    match Mark(c)
    case None => Crawl(refs, c.seen, queue)
    case Some(v) => Crawl(refs, c.seen + {v.key}, queue + ParentsOf(repo, v))
  }

  ghost predicate Valid(repo: Repository, c: Crawl) {
    forall h :: h in c.queue ==> h in Known(repo)
  }

  lemma StepKeepsValid(repo: Repository, c: Crawl)
    requires Valid(repo, c) && (c.queue != [] || c.refs != [])
    ensures Valid(repo, Step(repo, c))
  {
    var next := Step(repo, c);
    forall h | h in next.queue ensures h in Known(repo) {
      if h !in c.queue {
        var v := Mark(c).value;
        assert h in ParentsOf(repo, v);
        ParentsAreKnown(repo, Yield(repo, v).commit, h);
      }
    }
  }

  // The keys in marking order. `seen` only grows within the known hashes.
  function Visits(repo: Repository, c: Crawl): seq<Visit>
    requires Valid(repo, c)
    decreases |c.refs|, Known(repo) - c.seen, |c.queue|
  {
    if c.queue == [] && c.refs == [] then []
    else
      StepKeepsValid(repo, c);
      assert c.queue != [] ==> c.queue[0] in Known(repo);
      (match Mark(c) case None => [] case Some(v) => [v]) + Visits(repo, Step(repo, c))
  }

  // -------------------------------------------------------------------------
  // Every key is marked once, and none is missed
  // -------------------------------------------------------------------------

  ghost predicate DistinctKeys(vs: seq<Visit>) {
    forall i, j :: 0 <= i < j < |vs| ==> vs[i].key != vs[j].key
  }

  lemma {:induction false} VisitsDistinct(repo: Repository, c: Crawl)
    requires Valid(repo, c)
    ensures DistinctKeys(Visits(repo, c))
    ensures forall v :: v in Visits(repo, c) ==> v.key !in c.seen
    decreases |c.refs|, Known(repo) - c.seen, |c.queue|
  {
    if c.queue != [] || c.refs != [] {
      StepKeepsValid(repo, c);
      assert c.queue != [] ==> c.queue[0] in Known(repo);
      VisitsDistinct(repo, Step(repo, c));
      var later := Visits(repo, Step(repo, c));
      match Mark(c) {
        case None =>
          assert Visits(repo, c) == later;
        case Some(v) =>
          assert Visits(repo, c) == [v] + later;
          assert forall u :: u in later ==> u.key != v.key;
      }
    }
  }

  // What has been or will be marked.
  ghost function Met(repo: Repository, c: Crawl): iset<Hash>
    requires Valid(repo, c)
  {
    iset h | h in c.seen || exists v :: v in Visits(repo, c) && v.key == h
  }

  lemma StepKeepsMet(repo: Repository, c: Crawl)
    requires Valid(repo, c) && (c.queue != [] || c.refs != [])
    ensures Valid(repo, Step(repo, c))
    ensures Met(repo, Step(repo, c)) == Met(repo, c)
    ensures Mark(c).Some? ==> Mark(c).value.key in Met(repo, c)
    ensures forall v :: v in Visits(repo, c) ==> Mark(c) == Some(v) || v in Visits(repo, Step(repo, c))
  {
    var vs := Visits(repo, c);
    var later := NextVisits(repo, c);
    match Mark(c) {
      case None =>
      case Some(v) =>
        assert vs[0] == v && vs[1..] == later;
        assert forall u :: u in vs <==> u == v || u in later;
    }
  }

  // The visits after the next pass through the loop.
  lemma NextVisits(repo: Repository, c: Crawl) returns (later: seq<Visit>)
    requires Valid(repo, c) && (c.queue != [] || c.refs != [])
    ensures Valid(repo, Step(repo, c)) && later == Visits(repo, Step(repo, c))
    ensures Visits(repo, c) == match Mark(c) case None => later case Some(v) => [v] + later
  {
    StepKeepsValid(repo, c);
    assert c.queue != [] ==> c.queue[0] in Known(repo);
    later := Visits(repo, Step(repo, c));
    assert [] + later == later;
  }

  lemma {:induction false} VisitsCover(repo: Repository, c: Crawl)
    requires Valid(repo, c)
    ensures forall r :: r in c.refs && r.HashRef? ==> r.hash in Met(repo, c)
    ensures forall h :: h in c.queue ==> h in Met(repo, c)
    ensures forall v, p :: v in Visits(repo, c) && p in ParentsOf(repo, v) ==> p in Met(repo, c)
    decreases |c.refs|, Known(repo) - c.seen, |c.queue|
  {
    if c.queue != [] || c.refs != [] {
      StepKeepsMet(repo, c);
      assert c.queue != [] ==> c.queue[0] in Known(repo);
      var next := Step(repo, c);
      VisitsCover(repo, next);
      assert c.queue != [] ==> c.queue == [c.queue[0]] + c.queue[1..];
      assert c.queue == [] ==> c.refs == [c.refs[0]] + c.refs[1..];
    }
  }

  // A key comes from a reference, or is queued, or is a parent of a marked commit.
  ghost predicate Justified(repo: Repository, c: Crawl, vs: seq<Visit>, v: Visit) {
    match v
    case FromRef(key) => exists r :: r in c.refs && r.HashRef? && r.hash == key
    case FromParent(key) => key in c.queue || exists u :: u in vs && key in ParentsOf(repo, u)
  }

  lemma {:induction false} VisitsJustified(repo: Repository, c: Crawl)
    requires Valid(repo, c)
    ensures forall v :: v in Visits(repo, c) ==> Justified(repo, c, Visits(repo, c), v)
    decreases |c.refs|, Known(repo) - c.seen, |c.queue|
  {
    if c.queue != [] || c.refs != [] {
      StepKeepsMet(repo, c);
      assert c.queue != [] ==> c.queue[0] in Known(repo);
      var next := Step(repo, c);
      var vs, later := Visits(repo, c), Visits(repo, next);
      VisitsJustified(repo, next);
      forall v | v in vs ensures Justified(repo, c, vs, v) {
        if v in later {
          assert Justified(repo, next, later, v);
          assert forall u :: u in later ==> u in vs;
          if v.FromParent? && v.key in next.queue && v.key !in c.queue {
            assert Mark(c).value in vs;
          }
        }
      }
    }
  }

  // -------------------------------------------------------------------------
  // From visits to results
  // -------------------------------------------------------------------------

  datatype Item = Emit(commit: Hash) | Fail

  // A reference to something that is no commit is passed over; a missing object is an error,
  // or nothing when git errors are skipped.
  function ItemsOf(repo: Repository, skip: bool, v: Visit): seq<Item> {
    match Yield(repo, v)
    case Found(c) => [Emit(c)]
    case NotACommit => []
    case Missing => if skip then [] else [Fail]
  }

  function Deliver(repo: Repository, skip: bool, visits: seq<Visit>): seq<Item> {
    if visits == [] then [] else ItemsOf(repo, skip, visits[0]) + Deliver(repo, skip, visits[1..])
  }

  // The results of draining a fresh iterator.
  function AllCommits(repo: Repository, skip: bool): seq<Item> {
    Deliver(repo, skip, Visits(repo, Start(repo)))
  }

  // The keys under which the visits yield commit c.
  ghost function KeysFor(repo: Repository, visits: seq<Visit>, c: Hash): set<Hash> {
    set v | v in visits && Yield(repo, v) == Found(c) :: v.key
  }

  lemma KeysForNext(repo: Repository, visits: seq<Visit>, c: Hash)
    requires DistinctKeys(visits) && visits != []
    ensures var v, rest := visits[0], visits[1..];
            |KeysFor(repo, visits, c)| == |KeysFor(repo, rest, c)| + if Yield(repo, v) == Found(c) then 1 else 0
  {
    var v, rest := visits[0], visits[1..];
    assert visits == [v] + rest;
    assert v.key !in KeysFor(repo, rest, c);
    if Yield(repo, v) == Found(c) {
      assert KeysFor(repo, visits, c) == KeysFor(repo, rest, c) + {v.key};
    } else {
      assert KeysFor(repo, visits, c) == KeysFor(repo, rest, c);
    }
  }

  lemma {:induction false} DeliverCounts(repo: Repository, skip: bool, visits: seq<Visit>, c: Hash)
    requires DistinctKeys(visits)
    ensures multiset(Deliver(repo, skip, visits))[Emit(c)] == |KeysFor(repo, visits, c)|
  {
    if visits != [] {
      DeliverCounts(repo, skip, visits[1..], c);
      KeysForNext(repo, visits, c);
    }
  }

  // -------------------------------------------------------------------------
  // What a whole run returns, in terms of the repository alone
  // -------------------------------------------------------------------------

  // Git writes commits only as parents of commits. A parent may be missing, as in a shallow clone.
  ghost predicate ParentsAreCommits(repo: Repository) {
    forall h, p :: p in Parents(repo, h) && p in repo.objects ==> IsCommit(repo, p)
  }

  ghost predicate NamedByRef(repo: Repository, h: Hash) {
    exists r :: r in repo.refs && r.HashRef? && r.hash == h
  }

  ghost predicate Root(repo: Repository, root: Hash) {
    exists h :: NamedByRef(repo, h) && Resolve(repo, h) == Found(root)
  }

  ghost predicate Crawled(repo: Repository, c: Hash) {
    IsCommit(repo, c) && exists root :: Root(repo, root) && Reachable(repo, root, c)
  }

  ghost predicate ParentOfCrawled(repo: Repository, h: Hash) {
    exists b :: Crawled(repo, b) && h in Parents(repo, b)
  }

  // The hashes that lead the walk to commit c: references that resolve to it, and c itself when a
  // crawled commit has it as a parent.
  ghost function Names(repo: Repository, c: Hash): set<Hash> {
    set k | k in Known(repo) && Resolve(repo, k) == Found(c)
            && (NamedByRef(repo, k) || ParentOfCrawled(repo, k))
  }

  lemma VisitForKey(repo: Repository, k: Hash) returns (v: Visit)
    requires k in Met(repo, Start(repo))
    ensures v in Visits(repo, Start(repo)) && v.key == k
  {
    v :| v in Visits(repo, Start(repo)) && v.key == k;
  }

  // A key yields what it resolves to, whichever way it was met.
  lemma YieldIsResolve(repo: Repository, v: Visit)
    requires ParentsAreCommits(repo) && v in Visits(repo, Start(repo))
    requires Resolve(repo, v.key).Found?
    ensures Yield(repo, v) == Resolve(repo, v.key)
  {
    if v.FromParent? {
      VisitsJustified(repo, Start(repo));
      assert Justified(repo, Start(repo), Visits(repo, Start(repo)), v);
      var u :| u in Visits(repo, Start(repo)) && v.key in ParentsOf(repo, u);
      assert IsCommit(repo, v.key);
      ResolveFindsCommit(repo, v.key);
    }
  }

  lemma {:induction false} CrawledIsVisited(repo: Repository, root: Hash, c: Hash, n: nat)
    requires ParentsAreCommits(repo) && Root(repo, root) && Path(repo, root, c, n) && IsCommit(repo, c)
    ensures exists v :: v in Visits(repo, Start(repo)) && Yield(repo, v) == Found(c)
    decreases n
  {
    var s := Start(repo);
    VisitsCover(repo, s);
    if n == 0 {
      var h :| NamedByRef(repo, h) && Resolve(repo, h) == Found(root);
      var v := VisitForKey(repo, h);
      YieldIsResolve(repo, v);
    } else {
      var m :| Path(repo, root, m, n - 1) && c in Parents(repo, m);
      CrawledIsVisited(repo, root, m, n - 1);
      var u :| u in Visits(repo, s) && Yield(repo, u) == Found(m);
      assert c in ParentsOf(repo, u);
      var v := VisitForKey(repo, c);
      ResolveFindsCommit(repo, c);
      YieldIsResolve(repo, v);
    }
  }

  // Every commit served is reachable from a root: an invariant of the queue.
  ghost predicate QueueCrawled(repo: Repository, c: Crawl) {
    && (forall r :: r in c.refs ==> r in repo.refs)
    && (forall h :: h in c.queue ==> ParentOfCrawled(repo, h))
  }

  lemma MarkedIsCrawled(repo: Repository, c: Crawl)
    requires QueueCrawled(repo, c) && (c.queue != [] || c.refs != []) && Mark(c).Some?
    requires Yield(repo, Mark(c).value).Found?
    ensures Crawled(repo, Yield(repo, Mark(c).value).commit)
  {
    match Mark(c).value {
      case FromRef(key) =>
        var r := c.refs[0];
        assert r in c.refs && r in repo.refs;
        assert NamedByRef(repo, key);
        var root := Resolve(repo, key).commit;
        ResolveFindsCommit(repo, key);
        assert Path(repo, root, root, 0) && Root(repo, root);
      case FromParent(key) =>
        assert key in c.queue;
        var b :| Crawled(repo, b) && key in Parents(repo, b);
        var root :| Root(repo, root) && Reachable(repo, root, b);
        ReachableStep(repo, root, b, key);
    }
  }

  lemma StepQueueCrawled(repo: Repository, c: Crawl)
    requires QueueCrawled(repo, c) && (c.queue != [] || c.refs != [])
    ensures QueueCrawled(repo, Step(repo, c))
    ensures Mark(c).Some? && Yield(repo, Mark(c).value).Found? ==> Crawled(repo, Yield(repo, Mark(c).value).commit)
  {
    var next := Step(repo, c);
    if Mark(c).Some? && Yield(repo, Mark(c).value).Found? {
      MarkedIsCrawled(repo, c);
    }
    forall h | h in next.queue ensures ParentOfCrawled(repo, h) {
      if h !in c.queue {
        assert h in Parents(repo, Yield(repo, Mark(c).value).commit);
      }
    }
  }

  lemma {:induction false} VisitsCrawled(repo: Repository, c: Crawl)
    requires Valid(repo, c) && QueueCrawled(repo, c)
    ensures forall v :: v in Visits(repo, c) && Yield(repo, v).Found? ==> Crawled(repo, Yield(repo, v).commit)
    decreases |c.refs|, Known(repo) - c.seen, |c.queue|
  {
    if c.queue != [] || c.refs != [] {
      StepKeepsMet(repo, c);
      assert c.queue != [] ==> c.queue[0] in Known(repo);
      StepQueueCrawled(repo, c);
      VisitsCrawled(repo, Step(repo, c));
    }
  }

  lemma KeysAreNames(repo: Repository, c: Hash)
    requires ParentsAreCommits(repo)
    ensures KeysFor(repo, Visits(repo, Start(repo)), c) == Names(repo, c)
  {
    var vs := Visits(repo, Start(repo));
    forall k | k in KeysFor(repo, vs, c) ensures k in Names(repo, c) {
      var v :| v in vs && v.key == k && Yield(repo, v) == Found(c);
      KeyIsName(repo, c, v);
    }
    forall k | k in Names(repo, c) ensures k in KeysFor(repo, vs, c) {
      NameIsKey(repo, c, k);
    }
  }

  lemma NameIsKey(repo: Repository, c: Hash, k: Hash)
    requires ParentsAreCommits(repo) && k in Names(repo, c)
    ensures k in KeysFor(repo, Visits(repo, Start(repo)), c)
  {
    VisitsCover(repo, Start(repo));
    if !NamedByRef(repo, k) {
      var b :| Crawled(repo, b) && k in Parents(repo, b);
      var root :| Root(repo, root) && Reachable(repo, root, b);
      var n: nat :| Path(repo, root, b, n);
      CrawledIsVisited(repo, root, b, n);
      var u :| u in Visits(repo, Start(repo)) && Yield(repo, u) == Found(b);
      assert k in ParentsOf(repo, u);
    }
    var v := VisitForKey(repo, k);
    YieldIsResolve(repo, v);
  }

  lemma KeyIsName(repo: Repository, c: Hash, v: Visit)
    requires ParentsAreCommits(repo)
    requires v in Visits(repo, Start(repo)) && Yield(repo, v) == Found(c)
    ensures v.key in Names(repo, c)
  {
    var s := Start(repo);
    VisitsJustified(repo, s);
    assert Justified(repo, s, Visits(repo, s), v);
    if v.FromParent? {
      var u :| u in Visits(repo, s) && v.key in ParentsOf(repo, u);
      VisitsCrawled(repo, s);
      ResolveFindsCommit(repo, v.key);
      assert Crawled(repo, Yield(repo, u).commit);
    }
    assert v.key in repo.objects.Keys;
  }

  // How often a run returns a commit: once for each of its names.
  lemma CommitsReturnedPerName(repo: Repository, skip: bool, c: Hash)
    requires ParentsAreCommits(repo)
    ensures multiset(AllCommits(repo, skip))[Emit(c)] == |Names(repo, c)|
  {
    VisitsDistinct(repo, Start(repo));
    DeliverCounts(repo, skip, Visits(repo, Start(repo)), c);
    KeysAreNames(repo, c);
  }

  // A run returns exactly the commits reachable from the references.
  lemma CommitsAreExact(repo: Repository, skip: bool, c: Hash)
    requires ParentsAreCommits(repo)
    ensures Emit(c) in AllCommits(repo, skip) <==> Crawled(repo, c)
  {
    CommitsReturnedPerName(repo, skip, c);
    KeysAreNames(repo, c);
    var vs := Visits(repo, Start(repo));
    if Crawled(repo, c) {
      var root :| Root(repo, root) && Reachable(repo, root, c);
      var n: nat :| Path(repo, root, c, n);
      CrawledIsVisited(repo, root, c, n);
      var v :| v in vs && Yield(repo, v) == Found(c);
      assert v.key in KeysFor(repo, vs, c);
    }
    if k :| k in KeysFor(repo, vs, c) {
      VisitsCrawled(repo, Start(repo));
    }
    assert Emit(c) in AllCommits(repo, skip) <==> multiset(AllCommits(repo, skip))[Emit(c)] > 0;
  }

  lemma {:induction false} ErrorsAreDelivered(repo: Repository, skip: bool, visits: seq<Visit>)
    ensures Fail in Deliver(repo, skip, visits) <==> !skip && exists v :: v in visits && Yield(repo, v) == Missing
  {
    if visits != [] {
      ErrorsAreDelivered(repo, skip, visits[1..]);
      assert visits == [visits[0]] + visits[1..];
    }
  }

  // Something a run cannot read: a reference to a missing object, or a missing parent of a commit.
  ghost predicate Broken(repo: Repository) {
    || (exists h :: NamedByRef(repo, h) && Resolve(repo, h) == Missing)
    || (exists p :: ParentOfCrawled(repo, p) && p !in repo.objects)
  }

  lemma MissingIsBroken(repo: Repository, v: Visit)
    requires ParentsAreCommits(repo) && v in Visits(repo, Start(repo)) && Yield(repo, v) == Missing
    ensures Broken(repo)
  {
    var s := Start(repo);
    VisitsJustified(repo, s);
    assert Justified(repo, s, Visits(repo, s), v);
    if v.FromParent? {
      var u :| u in Visits(repo, s) && v.key in ParentsOf(repo, u);
      VisitsCrawled(repo, s);
      assert Crawled(repo, Yield(repo, u).commit);
    } else {
      assert NamedByRef(repo, v.key);
    }
  }

  lemma BrokenIsMissing(repo: Repository) returns (v: Visit)
    requires ParentsAreCommits(repo) && Broken(repo)
    ensures v in Visits(repo, Start(repo)) && Yield(repo, v) == Missing
  {
    var s := Start(repo);
    VisitsCover(repo, s);
    if h :| NamedByRef(repo, h) && Resolve(repo, h) == Missing {
      v := VisitForKey(repo, h);
      ResolveFindsCommit(repo, h);
    } else {
      var p :| ParentOfCrawled(repo, p) && p !in repo.objects;
      var b :| Crawled(repo, b) && p in Parents(repo, b);
      var root :| Root(repo, root) && Reachable(repo, root, b);
      var n: nat :| Path(repo, root, b, n);
      CrawledIsVisited(repo, root, b, n);
      var u :| u in Visits(repo, s) && Yield(repo, u) == Found(b);
      assert p in ParentsOf(repo, u);
      v := VisitForKey(repo, p);
    }
  }

  // A run returns an error exactly if errors are not skipped and there is something it cannot read.
  lemma ErrorsAreExact(repo: Repository, skip: bool)
    requires ParentsAreCommits(repo)
    ensures Fail in AllCommits(repo, skip) <==> !skip && Broken(repo)
  {
    ErrorsAreDelivered(repo, skip, Visits(repo, Start(repo)));
    if v :| v in Visits(repo, Start(repo)) && Yield(repo, v) == Missing {
      MissingIsBroken(repo, v);
    }
    if Broken(repo) {
      var v := BrokenIsMissing(repo);
    }
  }

  // The documentation says that a repository lists no commit twice. It holds exactly when every
  // annotated tag a reference names is the only name of its commit.
  lemma CommitsAreUniqueIff(repo: Repository, skip: bool)
    requires ParentsAreCommits(repo)
    ensures (forall c :: multiset(AllCommits(repo, skip))[Emit(c)] <= 1)
            <==> forall t, c :: NamedByRef(repo, t) && t != c && Resolve(repo, t) == Found(c)
                                ==> Names(repo, c) == {t}
  {
    forall c ensures multiset(AllCommits(repo, skip))[Emit(c)] == |Names(repo, c)| {
      CommitsReturnedPerName(repo, skip, c);
    }
    if forall c :: multiset(AllCommits(repo, skip))[Emit(c)] <= 1 {
      forall t, c | NamedByRef(repo, t) && t != c && Resolve(repo, t) == Found(c) ensures Names(repo, c) == {t} {
        assert multiset(AllCommits(repo, skip))[Emit(c)] <= 1;
        assert t in repo.objects.Keys;
        SingleName(Names(repo, c), t);
      }
    }
    if forall t, c :: NamedByRef(repo, t) && t != c && Resolve(repo, t) == Found(c) ==> Names(repo, c) == {t} {
      forall c ensures |Names(repo, c)| <= 1 {
        AtMostOneName(repo, c);
      }
    }
  }

  lemma SingleName(s: set<Hash>, t: Hash)
    requires |s| <= 1 && t in s
    ensures s == {t}
  {
    assert |s - {t}| == 0;
  }

  lemma AtMostOneName(repo: Repository, c: Hash)
    requires ParentsAreCommits(repo)
    requires forall t :: NamedByRef(repo, t) && t != c && Resolve(repo, t) == Found(c) ==> Names(repo, c) == {t}
    ensures |Names(repo, c)| <= 1
  {
    if t :| t in Names(repo, c) && t != c {
      NameThatIsTag(repo, c, t);
    } else {
      assert Names(repo, c) - {c} == {};
      assert |Names(repo, c) - {c}| == 0;
    }
  }

  lemma NameThatIsTag(repo: Repository, c: Hash, t: Hash)
    requires ParentsAreCommits(repo) && t in Names(repo, c) && t != c
    ensures NamedByRef(repo, t)
  {
    if !NamedByRef(repo, t) {
      assert t in repo.objects;
      ResolveFindsCommit(repo, t);
      assert false;
    }
  }

  // -------------------------------------------------------------------------
  // The iterator
  // -------------------------------------------------------------------------

  function Results(repo: Repository, skip: bool, c: Crawl): seq<Item>
    requires Valid(repo, c)
  {
    Deliver(repo, skip, Visits(repo, c))
  }

  // One step takes what it marks off the front of the results.
  lemma StepTakesFront(repo: Repository, skip: bool, c: Crawl)
    requires Valid(repo, c) && (c.queue != [] || c.refs != [])
    ensures Valid(repo, Step(repo, c))
    ensures Results(repo, skip, c) ==
            (match Mark(c) case None => [] case Some(v) => ItemsOf(repo, skip, v)) + Results(repo, skip, Step(repo, c))
  {
    StepKeepsMet(repo, c);
    assert c.queue != [] ==> c.queue[0] in Known(repo);
    var later := Visits(repo, Step(repo, c));
    match Mark(c) {
      case None => assert Visits(repo, c) == later;
      case Some(v) => assert Visits(repo, c)[0] == v && Visits(repo, c)[1..] == later;
    }
  }

  class CommitIter {
    const repo: Repository
    const skipGitErrors: bool
    var refs: seq<Reference>
    var seen: set<Hash>
    var ref: Option<Reference>
    var queue: seq<Hash>

    ghost predicate Ready()
      reads this
    {
      Valid(repo, Crawl(refs, seen, queue)) && (ref == None ==> queue == [])
    }

    // The results the iterator has yet to return.
    ghost function Remaining(): seq<Item>
      requires Ready()
      reads this
    {
      Results(repo, skipGitErrors, Crawl(refs, seen, queue))
    }

    constructor (repo: Repository, skipGitErrors: bool)
      ensures this.repo == repo && this.skipGitErrors == skipGitErrors
      ensures Ready() && Remaining() == AllCommits(repo, skipGitErrors)
    {
      this.repo, this.skipGitErrors := repo, skipGitErrors;
      refs, seen, ref, queue := repo.refs, {}, None, [];
    }

    // Moves to the next reference that holds a hash; false when there is none.
    method LoadNextRef() returns (found: bool)
      requires Ready() && queue == []
      modifies this`refs, this`ref
      ensures !found ==> refs == [] && old(Remaining()) == []
      ensures found ==> ref.Some? && ref.value.HashRef? && |refs| < |old(refs)|
      ensures found ==> old(Remaining()) == Results(repo, skipGitErrors, Crawl([ref.value] + refs, seen, []))
    {
      while |refs| > 0
        invariant Ready() && |refs| <= |old(refs)| && Remaining() == old(Remaining())
      {
        ref := Some(refs[0]);
        if ref.value.HashRef? {
          assert [ref.value] + refs[1..] == refs;
          refs := refs[1..];
          return true;
        }
        StepTakesFront(repo, skipGitErrors, Crawl(refs, seen, queue));
        refs := refs[1..];
      }
      found := false;
    }

    // None stands for the end of the walk.
    method Next() returns (r: Option<Item>)
      requires Ready()
      modifies this
      ensures Ready()
      ensures old(Remaining()) == [] ==> r == None && Remaining() == []
      ensures old(Remaining()) != [] ==> r == Some(old(Remaining())[0]) && Remaining() == old(Remaining())[1..]
      ensures r.Some? && r.value.Emit? ==> IsCommit(repo, r.value.commit)
    {
      while true
        invariant Ready() && Remaining() == old(Remaining())
        decreases |refs|, Known(repo) - seen, |queue|, if ref == None then 0 else 1
      {
        var item: Option<Item>;
        if ref == None {
          var found := LoadNextRef();
          if !found {
            return None;
          }
          item := TakeRef();
        } else if |queue| == 0 {
          ref := None;
          item := None;
        } else {
          item := TakeParent();
        }
        if item.Some? {
          return item;
        }
      }
    }

    // Marks the hash of the current reference and resolves it.
    method TakeRef() returns (r: Option<Item>)
      requires ref.Some? && ref.value.HashRef? && queue == []
      modifies this`seen, this`ref, this`queue
      ensures Ready()
      ensures var before := old(Results(repo, skipGitErrors, Crawl([ref.value] + refs, seen, [])));
              before == if r == None then Remaining() else [r.value] + Remaining()
      ensures r.Some? && r.value.Emit? ==> IsCommit(repo, r.value.commit)
    {
      ghost var c := Crawl([ref.value] + refs, seen, []);
      StepTakesFront(repo, skipGitErrors, c);
      assert c.refs[1..] == refs;
      var h := ref.value.hash;
      if h in seen {
        return None;
      }
      seen := seen + {h};
      ResolveFindsCommit(repo, h);
      match Resolve(repo, h) {
        case NotACommit =>
          ref := None;
          return None;
        case Missing =>
          return if skipGitErrors then None else Some(Fail);
        case Found(commit) =>
          queue := queue + Parents(repo, commit);
          assert Crawl(refs, seen, queue) == Step(repo, c);
          return Some(Emit(commit));
      }
    }

    // Takes the oldest hash off the queue.
    method TakeParent() returns (r: Option<Item>)
      requires Ready() && |queue| > 0
      modifies this`seen, this`queue
      ensures Ready()
      ensures Known(repo) - seen < Known(repo) - old(seen) || (seen == old(seen) && |queue| < |old(queue)|)
      ensures old(Remaining()) == if r == None then Remaining() else [r.value] + Remaining()
      ensures r.Some? && r.value.Emit? ==> IsCommit(repo, r.value.commit)
    {
      ghost var c := Crawl(refs, seen, queue);
      StepTakesFront(repo, skipGitErrors, c);
      var hash := queue[0];
      assert hash in Known(repo);
      queue := queue[1..];
      if hash in seen {
        return None;
      }
      seen := seen + {hash};
      if !IsCommit(repo, hash) {
        assert Crawl(refs, seen, queue) == Step(repo, c);
        return if skipGitErrors then None else Some(Fail);
      }
      queue := queue + Parents(repo, hash);
      assert Crawl(refs, seen, queue) == Step(repo, c);
      return Some(Emit(hash));
    }
  }
}
